/** `find_min_coins` (main.py:33-53): fill a table of minimum coin counts
    for every amount up to `total`, then read one solution back out of it. */
module DpSolver {
  import opened ExtNat
  import opened Money
  import opened Guard

  // ---------------------------------------------------------------------
  // The table the fill computes (main.py:35-41)
  // ---------------------------------------------------------------------

  /** The value the fill leaves in `dp[i]`. */
  function Opt(coins: seq<int>, i: nat): Ext
    requires Positive(coins)
    decreases i, 1, 0
  {
    if i == 0 then Fin(0) else Relax(coins, i, |coins|)
  }

  /** `dp[i]` after the inner loop at main.py:39-41 has seen `coins[..j]`,
      starting from float("inf"). */
  function Relax(coins: seq<int>, i: nat, j: nat): Ext
    requires Positive(coins) && j <= |coins|
    decreases i, 0, j
  {
    if j == 0 then Inf
    else
      var best := Relax(coins, i, j - 1);
      var coin := coins[j - 1];
      assert coin in coins;
      if i - coin >= 0 then best.Min(Opt(coins, i - coin).Succ()) else best
  }

  /** The whole table `dp[0..total]`. */
  function Table(coins: seq<int>, total: nat): seq<Ext>
    requires Positive(coins)
  {
    seq(total + 1, (i: int) requires 0 <= i => Opt(coins, i))
  }

  /** Every coin that fits bounds the table entry: dp[i] <= dp[i - c] + 1. */
  lemma {:induction false} RelaxBound(coins: seq<int>, i: nat, j: nat, k: nat)
    requires Positive(coins) && k < j <= |coins| && coins[k] <= i
    ensures coins[k] > 0
    ensures Relax(coins, i, j).Le(Opt(coins, i - coins[k]).Succ())
  {
    assert coins[k] in coins;
    if k < j - 1 {
      RelaxBound(coins, i, j - 1, k);
    }
  }

  lemma OptTriangle(coins: seq<int>, i: nat, c: int)
    requires Positive(coins) && c in coins && c <= i
    ensures c > 0
    ensures Opt(coins, i).Le(Opt(coins, i - c).Succ())
  {
    var k :| 0 <= k < |coins| && coins[k] == c;
    RelaxBound(coins, i, |coins|, k);
  }

  /** A finite entry is reached through some coin: dp[i] == dp[i - c] + 1. */
  lemma {:induction false} RelaxAttained(coins: seq<int>, i: nat, j: nat) returns (k: nat)
    requires Positive(coins) && j <= |coins| && Relax(coins, i, j).Fin?
    ensures k < j && 0 < coins[k] <= i
    ensures Relax(coins, i, j) == Opt(coins, i - coins[k]).Succ()
  {
    assert j > 0;
    var coin := coins[j - 1];
    assert coin in coins;
    if coin <= i && Relax(coins, i, j) == Opt(coins, i - coin).Succ() {
      k := j - 1;
    } else {
      k := RelaxAttained(coins, i, j - 1);
    }
  }

  lemma OptAttained(coins: seq<int>, i: nat) returns (c: int)
    requires Positive(coins) && i > 0 && Opt(coins, i).Fin?
    ensures c in coins && 0 < c <= i
    ensures Opt(coins, i) == Opt(coins, i - c).Succ()
  {
    var k := RelaxAttained(coins, i, |coins|);
    c := coins[k];
  }

  /** No combination of coins paying `i` uses fewer coins than dp[i]. */
  lemma {:induction false} OptMinimal(coins: seq<int>, i: nat, m: Change)
    requires Positive(coins) && Makes(coins, m, i)
    ensures Opt(coins, i).Fin? && Opt(coins, i).n <= Count(m)
    decreases i
  {
    SumNonNeg(m, Pieces);
    if i != 0 {
      var c := NonZeroEntry(m, Amount);
      var m' := m[c := m[c] - 1];
      Unbump(m, c);
      SumNonNeg(m', Amount);
      OptMinimal(coins, i - c, m');
      OptTriangle(coins, i, c);
    }
  }

  /** A finite dp[i] is the coin count of an actual combination paying `i`. */
  lemma {:induction false} OptWitness(coins: seq<int>, i: nat) returns (m: Change)
    requires Positive(coins) && Opt(coins, i).Fin?
    ensures Makes(coins, m, i) && Count(m) == Opt(coins, i).n
    decreases i
  {
    if i == 0 {
      m := map[];
    } else {
      var c := OptAttained(coins, i);
      var m0 := OptWitness(coins, i - c);
      m := Bump(m0, c);
      BumpAdds(m0, c);
    }
  }

  /** The table is optimal: dp[i] is the least number of coins paying `i`,
      and it is infinite exactly when no combination pays `i`. */
  lemma OptIsMinimum(coins: seq<int>, i: nat)
    requires Positive(coins)
    ensures Opt(coins, i).Inf? <==> !exists m :: Makes(coins, m, i)
    ensures Opt(coins, i).Fin? ==>
      && (exists m :: Makes(coins, m, i) && Count(m) == Opt(coins, i).n)
      && (forall m :: Makes(coins, m, i) ==> Opt(coins, i).n <= Count(m))
  {
    if Opt(coins, i).Fin? {
      var w := OptWitness(coins, i);
    }
    forall m | Makes(coins, m, i) ensures Opt(coins, i).Fin? && Opt(coins, i).n <= Count(m) {
      OptMinimal(coins, i, m);
    }
  }

  /** The fill loop of find_min_coins (main.py:35-41). */
  method FillTable(total: nat, coins: seq<int>) returns (dp: array<Ext>)
    requires Positive(coins)
    ensures dp[..] == Table(coins, total)
  {
    dp := new Ext[total + 1](_ => Inf);
    dp[0] := Fin(0);
    for i := 1 to total + 1
      invariant forall x :: 0 <= x < i ==> dp[x] == Opt(coins, x)
      invariant forall x :: i <= x <= total ==> dp[x] == Inf
    {
      for j := 0 to |coins|
        invariant dp[i] == Relax(coins, i, j)
        invariant forall x :: 0 <= x < i ==> dp[x] == Opt(coins, x)
        invariant forall x :: i < x <= total ==> dp[x] == Inf
      {
        var coin := coins[j];
        assert coin in coins;
        if i - coin >= 0 {
          dp[i] := dp[i].Min(dp[i - coin].Succ());
        }
      }
    }
  }

  // ---------------------------------------------------------------------
  // Reading a solution back out (main.py:43-53)
  // ---------------------------------------------------------------------

  /** The test of the while loop at main.py:46-49. With Inf entries it holds
      whenever both dp[rem] and dp[rem - coin] are Inf. */
  predicate Useful(dp: seq<Ext>, coin: int, rem: nat)
    requires coin > 0 && rem < |dp|
  {
    rem - coin >= 0 && dp[rem] == dp[rem - coin].Succ()
  }

  /** The while loop at main.py:46-51 for one coin. */
  function Drain(dp: seq<Ext>, coin: int, rem: nat, change: Change): (t: Tally)
    requires coin > 0 && rem < |dp|
    ensures t.rest <= rem
    decreases rem
  {
    if Useful(dp, coin, rem) then Drain(dp, coin, rem - coin, Bump(change, coin))
    else Tally(change, rem)
  }

  /** The for loop at main.py:45-51 over the coins of `order`. */
  function Walk(dp: seq<Ext>, order: seq<int>, rem: nat, change: Change): (t: Tally)
    requires Positive(order) && rem < |dp|
    ensures t.rest <= rem
    decreases |order|
  {
    if order == [] then Tally(change, rem)
    else
      assert order[0] in order;
      var t := Drain(dp, order[0], rem, change);
      PositiveSuffix(order, 1);
      Walk(dp, order[1..], t.rest, t.change)
  }

  /** Python's `reversed(coins)`. */
  function Reversed(s: seq<int>): (r: seq<int>)
    ensures |r| == |s|
    ensures forall i :: 0 <= i < |s| ==> r[i] == s[|s| - 1 - i]
  {
    if s == [] then [] else Reversed(s[1..]) + [s[0]]
  }

  lemma ReversedSameCoins(s: seq<int>)
    ensures forall c :: c in Reversed(s) <==> c in s
  {
    var r := Reversed(s);
    forall c | c in s ensures c in r {
      var i :| 0 <= i < |s| && s[i] == c;
      assert r[|s| - 1 - i] == c;
    }
  }

  /** The value find_min_coins returns for input its guard accepts. */
  function MinCoins(total: int, coins: seq<int>): Change
    requires total >= 0 && Positive(coins)
  {
    ReversedSameCoins(coins);
    Walk(Table(coins, total), Reversed(coins), total, map[]).change
  }

  /** The reconstruction loop of find_min_coins (main.py:43-53). */
  method Reconstruct(dp: array<Ext>, total: nat, coins: seq<int>) returns (change: Change)
    requires Positive(coins) && total < dp.Length
    ensures Positive(Reversed(coins))
    ensures change == Walk(dp[..], Reversed(coins), total, map[]).change
  {
    change := map[];
    var remaining: nat := total;
    var order := Reversed(coins);
    ReversedSameCoins(coins);
    for k := 0 to |order|
      invariant remaining <= total
      invariant Positive(order[k..])
      invariant Walk(dp[..], order[k..], remaining, change) == Walk(dp[..], order, total, map[])
    {
      var coin := order[k];
      assert coin in order;
      PositiveSuffix(order, k + 1);
      assert order[k..][0] == coin && order[k..][1..] == order[k + 1..];
      while remaining - coin >= 0 && dp[remaining] == dp[remaining - coin].Succ()
        invariant remaining <= total
        invariant Walk(dp[..], order[k..], remaining, change) == Walk(dp[..], order, total, map[])
        decreases remaining
      {
        change := change[coin := (if coin in change then change[coin] else 0) + 1];
        remaining := remaining - coin;
      }
    }
  }

  /** find_min_coins without its guard (main.py:34-53). */
  method Solve(total: int, coins: seq<int>) returns (change: Change)
    requires total >= 0 && Positive(coins)
    ensures change == MinCoins(total, coins)
  {
    var dp := FillTable(total, coins);
    change := Reconstruct(dp, total, coins);
  }

  /** The decorated find_min_coins: the guard, then the body. */
  method FindMinCoins(total: int, coins: seq<int>) returns (r: Result)
    ensures r == Wrapped(total, coins, MinCoins)
  {
    match HandleError(total, coins)
    case Reject(e) =>
      r := Failed(e);
    case Shortcut =>
      r := Ok(map[]);
    case Proceed =>
      var change := Solve(total, coins);
      r := Ok(change);
  }

  // ---------------------------------------------------------------------
  // What the reconstruction guarantees
  // ---------------------------------------------------------------------

  /** Subtracting a coin moves its value from `remaining_total` into the
      change, whatever the table holds. */
  lemma {:induction false} DrainConserves(dp: seq<Ext>, coin: int, rem: nat, change: Change)
    requires coin > 0 && rem < |dp|
    requires forall k :: k in change ==> change[k] >= 1
    ensures var t := Drain(dp, coin, rem, change);
      && Value(t.change) + t.rest == Value(change) + rem
      && (forall k :: k in t.change ==> (k in change || k == coin) && t.change[k] >= 1)
    decreases rem
  {
    if Useful(dp, coin, rem) {
      BumpAdds(change, coin);
      DrainConserves(dp, coin, rem - coin, Bump(change, coin));
    }
  }

  lemma {:induction false} WalkConserves(dp: seq<Ext>, order: seq<int>, rem: nat, change: Change)
    requires Positive(order) && rem < |dp|
    requires forall k :: k in change ==> change[k] >= 1
    ensures var t := Walk(dp, order, rem, change);
      && Value(t.change) + t.rest == Value(change) + rem
      && (forall k :: k in t.change ==> (k in change || k in order) && t.change[k] >= 1)
    decreases |order|
  {
    if order != [] {
      assert order[0] in order;
      var t := Drain(dp, order[0], rem, change);
      DrainConserves(dp, order[0], rem, change);
      PositiveSuffix(order, 1);
      WalkConserves(dp, order[1..], t.rest, t.change);
      assert forall c :: c in order[1..] ==> c in order;
    }
  }

  /** If `d` is subtracted at `r` and `c` could then be subtracted at `r - d`,
      `c` could already have been subtracted at `r`. */
  lemma UsefulPropagates(coins: seq<int>, total: nat, c: int, d: int, r: nat)
    requires Positive(coins) && c in coins && d in coins && r <= total
    requires Opt(coins, r).Fin?
    requires Useful(Table(coins, total), d, r)
    requires Useful(Table(coins, total), c, r - d)
    ensures Useful(Table(coins, total), c, r)
  {
    OptTriangle(coins, r - c, d);
    OptTriangle(coins, r, c);
  }

  /** On the optimal table the while loop for one coin takes only optimal
      steps: it lowers dp[remaining] by one per coin taken, it stops where the
      coin is no longer useful, and a coin that was not useful before it
      is not useful after it either. */
  lemma {:induction false} DrainExact(coins: seq<int>, total: nat, coin: int, rem: nat, change: Change)
    requires Positive(coins) && coin in coins && rem <= total
    requires Opt(coins, rem).Fin?
    ensures coin > 0
    ensures var t := Drain(Table(coins, total), coin, rem, change);
      && !Useful(Table(coins, total), coin, t.rest)
      && Opt(coins, t.rest).Fin?
      && Count(t.change) + Opt(coins, t.rest).n == Count(change) + Opt(coins, rem).n
      && (forall c :: c in coins && !Useful(Table(coins, total), c, rem) ==>
            !Useful(Table(coins, total), c, t.rest))
    decreases rem
  {
    var dp := Table(coins, total);
    if Useful(dp, coin, rem) {
      BumpAdds(change, coin);
      DrainExact(coins, total, coin, rem - coin, Bump(change, coin));
      forall c | c in coins && !Useful(dp, c, rem) ensures !Useful(dp, c, rem - coin) {
        if Useful(dp, c, rem - coin) {
          UsefulPropagates(coins, total, c, coin, rem);
        }
      }
    }
  }

  /** On the optimal table, once every coin has had its turn the remaining
      amount is 0, and the coins taken number exactly dp[rem]. */
  lemma {:induction false} WalkExact(coins: seq<int>, total: nat, order: seq<int>, rem: nat, change: Change)
    requires Positive(coins) && rem <= total
    requires forall c :: c in order ==> c in coins
    requires Opt(coins, rem).Fin?
    requires forall c :: c in coins ==> c in order || !Useful(Table(coins, total), c, rem)
    ensures Positive(order)
    ensures var t := Walk(Table(coins, total), order, rem, change);
      t.rest == 0 && Count(t.change) == Count(change) + Opt(coins, rem).n
    decreases |order|
  {
    var dp := Table(coins, total);
    if order == [] {
      if rem > 0 {
        var c := OptAttained(coins, rem);
        assert Useful(dp, c, rem);
      }
    } else {
      var coin := order[0];
      assert coin in order;
      var t := Drain(dp, coin, rem, change);
      DrainExact(coins, total, coin, rem, change);
      assert forall c :: c in order ==> c == coin || c in order[1..] by {
        assert order == [coin] + order[1..];
      }
      WalkExact(coins, total, order[1..], t.rest, t.change);
    }
  }

  /** What find_min_coins promises. The change uses only coins from the
      list, each at least once, and never pays more than `total`. It pays
      exactly `total` if and only if some combination of the coins does, and
      then it uses the fewest coins of any such combination. When no
      combination pays `total` the change falls short. */
  lemma MinCoinsSound(total: int, coins: seq<int>)
    requires total >= 0 && Positive(coins)
    ensures var d := MinCoins(total, coins);
      && (forall k :: k in d ==> k in coins && d[k] >= 1)
      && Value(d) <= total
      && (Value(d) == total <==> exists m :: Makes(coins, m, total))
      && (Value(d) == total ==> forall m :: Makes(coins, m, total) ==> Count(d) <= Count(m))
      && (Opt(coins, total).Fin? ==> Value(d) == total && Count(d) == Opt(coins, total).n)
  {
    var dp := Table(coins, total);
    var order := Reversed(coins);
    ReversedSameCoins(coins);
    var t := Walk(dp, order, total, map[]);
    var d := t.change;
    WalkConserves(dp, order, total, map[]);
    OptIsMinimum(coins, total);
    if Opt(coins, total).Fin? {
      WalkExact(coins, total, order, total, map[]);
    } else {
      assert !Makes(coins, d, total);
    }
  }
}
