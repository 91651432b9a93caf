/** The two solvers side by side. */
module Comparison {
  import opened Money
  import opened Guard
  import opened GreedySolver
  import opened DpSolver

  /** Whenever the greedy change is exact, the dynamic-programming change is
      exact too and uses no more coins. */
  lemma DynamicNoWorseThanGreedy(total: int, coins: seq<int>)
    requires total >= 0 && Positive(coins)
    requires Value(Greedy(total, coins)) == total
    ensures Value(MinCoins(total, coins)) == total
    ensures Count(MinCoins(total, coins)) <= Count(Greedy(total, coins))
  {
    var g := Greedy(total, coins);
    GreedySound(total, coins);
    assert Makes(coins, g, total);
    MinCoinsSound(total, coins);
  }

  /** The same comparison for the decorated functions. */
  lemma WrappedNoWorseThanGreedy(total: int, coins: seq<int>)
    requires Wrapped(total, coins, Greedy).Ok?
    requires Value(Wrapped(total, coins, Greedy).change) == total
    ensures Wrapped(total, coins, MinCoins).Ok?
    ensures Value(Wrapped(total, coins, MinCoins).change) == total
    ensures Count(Wrapped(total, coins, MinCoins).change) <= Count(Wrapped(total, coins, Greedy).change)
  {
    DynamicNoWorseThanGreedy(total, coins);
  }
}
