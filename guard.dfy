/** The precondition guard `handle_error` that wraps both solvers
    (main.py:7-17), and the module constant COINS it consults (main.py:4). */
module Guard {
  import opened Money

  /** The two ValueError messages of the guard. */
  datatype Error =
    | NotPositiveTotal  // "Total amount must be a positive integer."
    | BadCoins          // "Coins must be a non-empty list of positive integers."

  /** What a wrapped call returns: the solver's change or the raised error. */
  datatype Result = Ok(change: Change) | Failed(error: Error)

  /** The three ways out of the guard: raise, return `{}` early, or run the
      wrapped solver. */
  datatype Gate = Reject(error: Error) | Shortcut | Proceed

  /** The reference denominations held by the module. */
  const COINS: seq<int> := [50, 25, 10, 5, 2, 1]

  /** A coin list the guard lets through: non-empty, every value positive. */
  predicate ValidCoins(coins: seq<int>) {
    |coins| > 0 && Positive(coins)
  }

  /** Python's `min` of a non-empty list. */
  function MinOf(s: seq<int>): (m: int)
    requires |s| > 0
    ensures m in s
    ensures forall x :: x in s ==> m <= x
  {
    if |s| == 1 then s[0]
    else
      var rest := MinOf(s[1..]);
      assert s == [s[0]] + s[1..];
      if rest < s[0] then rest else s[0]
  }

  /** The decision `wrapper` makes before calling the solver. Note that the
      early return tests the module constant COINS, not the argument. */
  function HandleError(total: int, coins: seq<int>): (g: Gate)
    ensures g == Reject(NotPositiveTotal) <==> total <= 0
    ensures g == Reject(BadCoins) <==> total > 0 && !ValidCoins(coins)
    ensures !g.Reject? ==> total > 0 && ValidCoins(coins)
  {
    if total <= 0 then Reject(NotPositiveTotal)
    else if |coins| == 0 || exists c :: c in coins && c <= 0 then Reject(BadCoins)
    else if total == 0 || MinOf(COINS) > total then Shortcut
    else Proceed
  }

  /** The smallest reference coin is 1. */
  lemma MinOfCoins()
    ensures MinOf(COINS) == 1
  {
    assert 1 in COINS;
  }

  /** For an integer total the early `return {}` can never fire: `total == 0`
      was already rejected, and `min(COINS) == 1 <= total` for every integer
      total let through. */
  lemma ShortcutIsDead(total: int, coins: seq<int>)
    ensures HandleError(total, coins) != Shortcut
    ensures HandleError(total, coins) == Proceed <==> total > 0 && ValidCoins(coins)
  {
    MinOfCoins();
  }

  /** The decorated function: `wrapper(total, coins)` around `solver`.
      For input the guard accepts, the solver's result comes back unchanged. */
  function Wrapped(total: int, coins: seq<int>, solver: (int, seq<int>) --> Change): (r: Result)
    requires forall t, cs :: t > 0 && ValidCoins(cs) ==> solver.requires(t, cs)
    ensures total <= 0 ==> r == Failed(NotPositiveTotal)
    ensures total > 0 && !ValidCoins(coins) ==> r == Failed(BadCoins)
    ensures total > 0 && ValidCoins(coins) ==> r == Ok(solver(total, coins))
  {
    ShortcutIsDead(total, coins);
    match HandleError(total, coins)
    case Reject(e) => Failed(e)
    case Shortcut => Ok(map[])
    case Proceed => Ok(solver(total, coins))
  }
}
