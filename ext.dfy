/** Natural numbers extended with an "unreachable" value.

    The dynamic-programming table of find_min_coins starts every entry at
    Python's float("inf") and only ever adds 1 to entries and takes minima.
    Python's infinity absorbs the addition (inf + 1 == inf), so that
    `inf == inf + 1` is true; Ext keeps exactly that behaviour. */
module ExtNat {

  datatype Ext = Fin(n: nat) | Inf {

    /** `x + 1` in the table: a finite count grows by one, Inf stays Inf. */
    function Succ(): Ext {
      match this
      case Fin(k) => Fin(k + 1)
      case Inf => Inf
    }

    /** Python's `<` between an int and float("inf"). */
    predicate Less(other: Ext) {
      Fin? && (other.Inf? || n < other.n)
    }

    /** Python's `<=` between an int and float("inf"). */
    predicate Le(other: Ext) {
      other.Inf? || (Fin? && n <= other.n)
    }

    /** Python's `min(this, other)`: the first argument unless the second is
        strictly smaller. */
    function Min(other: Ext): (r: Ext)
      ensures r.Le(this) && r.Le(other)
      ensures r == this || r == other
    {
      if other.Less(this) then other else this
    }
  }
}
