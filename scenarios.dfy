/** Concrete cases of the two solvers: the call the script makes at
    main.py:68, a coin system where greedy is not optimal, and an amount the
    coins cannot pay. */
module Scenarios {
  import opened ExtNat
  import opened Money
  import opened Guard
  import opened GreedySolver
  import opened DpSolver
  import opened Comparison

  /** The call at main.py:68: 67 from the reference coins is 50 + 10 + 5 + 2. */
  lemma Greedy67()
    ensures Greedy(67, COINS) == map[50 := 1, 10 := 1, 5 := 1, 2 := 1]
  {
    GreedyOnDescending(67, COINS);
    Greedy67Pass();
  }

  lemma Greedy67Pass()
    ensures GreedyFrom(COINS, 0, 67, map[]) == Tally(map[50 := 1, 10 := 1, 5 := 1, 2 := 1], 0)
  {
    assert Round(50, 67, map[]) == Tally(map[50 := 1], 17);
    Greedy17Pass();
  }

  lemma Greedy17Pass()
    ensures GreedyFrom(COINS, 1, 17, map[50 := 1]) == Tally(map[50 := 1, 10 := 1, 5 := 1, 2 := 1], 0)
  {
    assert Round(25, 17, map[50 := 1]) == Tally(map[50 := 1], 17);
    assert Round(10, 17, map[50 := 1]) == Tally(map[50 := 1, 10 := 1], 7);
    Greedy7Pass();
  }

  lemma Greedy7Pass()
    ensures GreedyFrom(COINS, 3, 7, map[50 := 1, 10 := 1]) == Tally(map[50 := 1, 10 := 1, 5 := 1, 2 := 1], 0)
  {
  }

  /** 50 + 10 + 5 + 2 is 67 paid with 4 coins. */
  lemma Change67Value()
    ensures Value(map[50 := 1, 10 := 1, 5 := 1, 2 := 1]) == 67
    ensures Count(map[50 := 1, 10 := 1, 5 := 1, 2 := 1]) == 4
  {
    var m0: Change := map[];
    BumpAdds(m0, 50);
    BumpAdds(Bump(m0, 50), 10);
    BumpAdds(Bump(Bump(m0, 50), 10), 5);
    BumpAdds(Bump(Bump(Bump(m0, 50), 10), 5), 2);
    assert Bump(Bump(Bump(Bump(m0, 50), 10), 5), 2) == map[50 := 1, 10 := 1, 5 := 1, 2 := 1];
  }

  /** For 67 from the reference coins the dynamic-programming change is exact
      and uses at most the greedy's 4 coins. */
  lemma MinCoins67(total: int, coins: seq<int>)
    requires total == 67 && coins == COINS
    ensures Value(MinCoins(total, coins)) == 67
    ensures Count(MinCoins(total, coins)) <= 4
  {
    var g := Greedy(total, coins);
    assert Value(g) == 67 && Count(g) == 4 by {
      Greedy67();
      Change67Value();
    }
    DynamicNoWorseThanGreedy(total, coins);
  }

  /** With coins 4, 3 and 1, greedy pays 6 as 4 + 1 + 1 while 3 + 3 is exact
      with two coins, and the dynamic-programming change is that short. */
  lemma GreedyNotOptimal(total: int, coins: seq<int>)
    requires total == 6 && coins == [4, 3, 1]
    ensures Greedy(total, coins) == map[4 := 1, 1 := 2]
    ensures Count(Greedy(total, coins)) == 3
    ensures Value(MinCoins(total, coins)) == 6
    ensures Count(MinCoins(total, coins)) <= 2
    ensures MinCoins(total, coins) == map[3 := 2]
  {
    Greedy6(total, coins);
    Count41();
    ThreeThree(total, coins);
    MinCoins6(total, coins);
  }

  lemma Greedy6(total: int, coins: seq<int>)
    requires total == 6 && coins == [4, 3, 1]
    ensures Greedy(total, coins) == map[4 := 1, 1 := 2]
  {
    GreedyOnDescending(total, coins);
    assert Round(4, 6, map[]) == Tally(map[4 := 1], 2);
    Greedy2Pass();
  }

  lemma Count41()
    ensures Count(map[4 := 1, 1 := 2]) == 3
  {
    SumUpdate(map[4 := 1], Pieces, 1, 2);
    SumUpdate(map[], Pieces, 4, 1);
  }

  lemma ThreeThree(total: int, coins: seq<int>)
    requires total == 6 && coins == [4, 3, 1]
    ensures Value(MinCoins(total, coins)) == 6
    ensures Count(MinCoins(total, coins)) <= 2
  {
    var m := map[3 := 2];
    assert Makes(coins, m, total) && Count(m) == 2 by {
      SumUpdate(map[], Pieces, 3, 2);
      SumUpdate(map[], Amount, 3, 2);
    }
    MinCoinsSound(total, coins);
  }

  /** find_min_coins(6, [4, 3, 1]) is {3: 2}: the table is 0, 1, 2, 1, 1, 2, 2
      and the pass over [1, 3, 4] takes two 3-coins. */
  lemma MinCoins6(total: int, coins: seq<int>)
    requires total == 6 && coins == [4, 3, 1]
    ensures MinCoins(total, coins) == map[3 := 2]
  {
    var dp := Table(coins, total);
    assert dp[0] == Fin(0);
    assert dp[1] == Fin(1) by { OptSmall(coins, 1); }
    assert dp[2] == Fin(2) by { OptSmall(coins, 2); }
    assert dp[3] == Fin(1) by { OptSmall(coins, 3); }
    assert dp[4] == Fin(1) by { OptSmall(coins, 4); }
    assert dp[5] == Fin(2) by { OptSmall(coins, 5); }
    assert dp[6] == Fin(2) by { OptSmall(coins, 6); }
    assert Reversed(coins) == [1, 3, 4];
    assert Drain(dp, 1, 6, map[]) == Tally(map[], 6);
    assert Drain(dp, 3, 0, map[3 := 2]) == Tally(map[3 := 2], 0);
    assert Drain(dp, 3, 3, map[3 := 1]) == Tally(map[3 := 2], 0);
    assert Drain(dp, 3, 6, map[]) == Tally(map[3 := 2], 0);
    assert Drain(dp, 4, 0, map[3 := 2]) == Tally(map[3 := 2], 0);
    assert Walk(dp, [1, 3, 4], 6, map[]) == Walk(dp, [3, 4], 6, map[]);
    assert Walk(dp, [3, 4], 6, map[]) == Walk(dp, [4], 0, map[3 := 2]);
    assert Walk(dp, [4], 0, map[3 := 2]) == Walk(dp, [], 0, map[3 := 2]);
  }

  /** The table for coins [4, 3, 1] up to 6, entry by entry from below. */
  lemma OptSmall(coins: seq<int>, i: nat)
    requires coins == [4, 3, 1] && 1 <= i <= 6
    ensures Opt(coins, i) == [Fin(0), Fin(1), Fin(2), Fin(1), Fin(1), Fin(2), Fin(2)][i]
    decreases i
  {
    if i > 1 { OptSmall(coins, i - 1); }
    if i > 3 { OptSmall(coins, i - 3); }
    if i > 4 { OptSmall(coins, i - 4); }
    assert Relax(coins, i, 1) == (if i >= 4 then Opt(coins, i - 4).Succ() else Inf);
    assert Relax(coins, i, 2) == (if i >= 3 then Relax(coins, i, 1).Min(Opt(coins, i - 3).Succ()) else Relax(coins, i, 1));
  }

  lemma Greedy2Pass()
    ensures GreedyFrom([4, 3, 1], 1, 2, map[4 := 1]) == Tally(map[4 := 1, 1 := 2], 0)
  {
  }

  /** Any change made of 2-coins only is worth an even amount. */
  lemma TwosOnly(m: Change)
    requires forall k :: k in m ==> k == 2
    ensures Value(m) % 2 == 0
  {
    if 2 in m {
      assert forall k :: k in m <==> k == 2;
      assert m.Keys == {2};
      assert m == map[][2 := m[2]];
      SumUpdate(map[], Amount, 2, m[2]);
    } else {
      assert forall k :: k !in m;
      assert m.Keys == {};
      assert m == map[];
    }
  }

  /** 3 cannot be paid with 2-coins: the dynamic-programming change falls
      short and the table entry is infinite. */
  lemma Unpayable(total: int, coins: seq<int>)
    requires total == 3 && coins == [2]
    ensures Value(MinCoins(total, coins)) < 3
    ensures Opt(coins, total) == Inf
  {
    forall m | Makes(coins, m, total)
      ensures false
    {
      TwosOnly(m);
    }
    MinCoinsSound(total, coins);
    OptIsMinimum(coins, total);
  }

  /** The reconstruction for 3 from [2] still hands out one 2-coin: dp[3]
      and dp[1] are both infinite, and inf == inf + 1 lets the while test
      through once. */
  lemma UnpayableChange(total: int, coins: seq<int>)
    requires total == 3 && coins == [2]
    ensures MinCoins(total, coins) == map[2 := 1]
  {
    Unpayable(total, coins);
    var dp := Table(coins, total);
    assert dp[1] == Inf by {
      assert Relax(coins, 1, 1) == Relax(coins, 1, 0);
    }
    assert dp[3] == Inf;
    assert Reversed(coins) == [2];
    assert Useful(dp, 2, 3) && !Useful(dp, 2, 1);
    assert Drain(dp, 2, 1, map[2 := 1]) == Tally(map[2 := 1], 1);
    assert Bump(map[], 2) == map[2 := 1];
    assert Drain(dp, 2, 3, map[]) == Tally(map[2 := 1], 1);
    assert Walk(dp, [2], 3, map[]) == Walk(dp, [], 1, map[2 := 1]);
  }

  /** The comparison needs the greedy change to be exact. For 7 from [5, 3]
      greedy gives {5: 1}, which falls 2 short of the amount.
      dp[7], dp[4] and dp[1] are all infinite, so inf == inf + 1 lets two
      3-coins through and find_min_coins gives {3: 2}, which uses more
      coins than the greedy change. */
  lemma DynamicWorseThanInexactGreedy(total: int, coins: seq<int>)
    requires total == 7 && coins == [5, 3]
    ensures Greedy(total, coins) == map[5 := 1]
    ensures MinCoins(total, coins) == map[3 := 2]
    ensures Count(MinCoins(total, coins)) > Count(Greedy(total, coins))
  {
    Greedy7(total, coins);
    MinCoins7(total, coins);
    assert Count(map[5 := 1]) == 1 by {
      SumUpdate(map[], Pieces, 5, 1);
    }
    assert Count(map[3 := 2]) == 2 by {
      SumUpdate(map[], Pieces, 3, 2);
    }
  }

  lemma Greedy7(total: int, coins: seq<int>)
    requires total == 7 && coins == [5, 3]
    ensures Greedy(total, coins) == map[5 := 1]
  {
    GreedyOnDescending(total, coins);
    assert Round(5, 7, map[]) == Tally(map[5 := 1], 2);
    assert Round(3, 2, map[5 := 1]) == Tally(map[5 := 1], 2);
    assert GreedyFrom(coins, 2, 2, map[5 := 1]) == Tally(map[5 := 1], 2);
    assert GreedyFrom(coins, 1, 2, map[5 := 1]) == Tally(map[5 := 1], 2);
  }

  lemma MinCoins7(total: int, coins: seq<int>)
    requires total == 7 && coins == [5, 3]
    ensures MinCoins(total, coins) == map[3 := 2]
  {
    var dp := Table(coins, total);
    assert dp[1] == Inf && dp[4] == Inf && dp[7] == Inf by {
      OptFiveThree(coins);
    }
    assert Reversed(coins) == [3, 5];
    assert Drain(dp, 3, 1, map[3 := 2]) == Tally(map[3 := 2], 1);
    assert Drain(dp, 3, 4, map[3 := 1]) == Tally(map[3 := 2], 1);
    assert Drain(dp, 3, 7, map[]) == Tally(map[3 := 2], 1);
    assert Drain(dp, 5, 1, map[3 := 2]) == Tally(map[3 := 2], 1);
    assert Walk(dp, [3, 5], 7, map[]) == Walk(dp, [5], 1, map[3 := 2]);
    assert Walk(dp, [5], 1, map[3 := 2]) == Walk(dp, [], 1, map[3 := 2]);
  }

  /** With coins [5, 3] the amounts 1, 2, 4 and 7 cannot be paid. */
  lemma OptFiveThree(coins: seq<int>)
    requires coins == [5, 3]
    ensures Opt(coins, 1) == Inf && Opt(coins, 2) == Inf
    ensures Opt(coins, 4) == Inf && Opt(coins, 7) == Inf
  {
    assert Relax(coins, 1, 1) == Inf && Relax(coins, 2, 1) == Inf;
    assert Relax(coins, 4, 1) == Inf;
    assert Relax(coins, 7, 1) == Opt(coins, 2).Succ();
  }
}
