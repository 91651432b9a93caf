/** `find_coins_greedy` (main.py:20-30): walk the coins from largest to
    smallest and take as many of each as still fit. */
module GreedySolver {
  import opened Money
  import opened Guard

  predicate Descending(s: seq<int>) {
    forall i, j :: 0 <= i < j < |s| ==> s[i] >= s[j]
  }

  /** Python's `sorted(coins, reverse=True)`: the same values, largest first. */
  function SortDesc(s: seq<int>): (r: seq<int>)
    ensures multiset(r) == multiset(s)
    ensures forall x :: x in r <==> x in s
    ensures Descending(r)
  {
    if s == [] then []
    else
      assert s == [s[0]] + s[1..];
      var r := InsertDesc(s[0], SortDesc(s[1..]));
      assert forall x :: x in r <==> x in multiset(r);
      r
  }

  function InsertDesc(x: int, s: seq<int>): (r: seq<int>)
    requires Descending(s)
    ensures multiset(r) == multiset(s) + multiset{x}
    ensures Descending(r)
    ensures r[0] == x || (s != [] && r[0] == s[0])
  {
    if s == [] || x >= s[0] then
      ConsDescending(x, s);
      [x] + s
    else
      assert s == [s[0]] + s[1..];
      var tail := InsertDesc(x, s[1..]);
      ConsDescending(s[0], tail);
      [s[0]] + tail
  }

  /** A head no smaller than the first element keeps a list descending. */
  lemma ConsDescending(h: int, t: seq<int>)
    requires Descending(t) && (t == [] || h >= t[0])
    ensures Descending([h] + t)
  {
    forall i, j | 0 <= i < j < |[h] + t|
      ensures ([h] + t)[i] >= ([h] + t)[j]
    {
      if i == 0 && j > 1 {
        assert t[0] >= t[j - 1];
      }
    }
  }

  /** Sorting a list that is already in descending order leaves it alone. */
  lemma {:induction false} SortDescSorted(s: seq<int>)
    requires Descending(s)
    ensures SortDesc(s) == s
  {
    if s != [] {
      SortDescSorted(s[1..]);
      assert s == [s[0]] + s[1..];
    }
  }

  /** One round of the loop at main.py:24-28 for one coin:
      `count = total // coin; total -= count * coin` and record `count`
      under `coin` unless it is 0. */
  function Round(coin: int, rest: nat, acc: Change): Tally
    requires coin > 0
  {
    var count := rest / coin;
    Tally(if count != 0 then acc[coin := count] else acc, rest - count * coin)
  }

  /** The loop of find_coins_greedy over the coins desc[i..], in order,
      starting with `rest` still to pay and `acc` recorded so far. */
  function GreedyFrom(desc: seq<int>, i: nat, rest: nat, acc: Change): Tally
    requires Positive(desc) && i <= |desc|
    decreases |desc| - i
  {
    if i == |desc| then Tally(acc, rest)
    else
      assert desc[i] in desc;
      var t := Round(desc[i], rest, acc);
      GreedyFrom(desc, i + 1, t.rest, t.change)
  }

  /** The value find_coins_greedy returns for input its guard accepts. */
  function Greedy(total: int, coins: seq<int>): Change
    requires total >= 0 && Positive(coins)
  {
    GreedyFrom(SortDesc(coins), 0, total, map[]).change
  }

  /** The undecorated body of find_coins_greedy (main.py:21-30). */
  method Solve(total: int, coins: seq<int>) returns (change: Change)
    requires total >= 0 && Positive(coins)
    ensures change == Greedy(total, coins)
  {
    change := map[];
    var desc := SortDesc(coins);
    var rest: nat := total;
    for i := 0 to |desc|
      invariant GreedyFrom(desc, i, rest, change) == GreedyFrom(desc, 0, total, map[])
    {
      var coin := desc[i];
      assert coin in desc;
      ghost var before := Tally(change, rest);
      var count := rest / coin;
      DivBounds(coin, rest);
      rest := rest - count * coin;
      if count != 0 {
        change := change[coin := count];
      }
      assert Tally(change, rest) == Round(coin, before.rest, before.change);
    }
  }

  /** The decorated find_coins_greedy: the guard, then the body. */
  method FindCoinsGreedy(total: int, coins: seq<int>) returns (r: Result)
    ensures r == Wrapped(total, coins, Greedy)
  {
    match HandleError(total, coins)
    case Reject(e) =>
      r := Failed(e);
    case Shortcut =>
      r := Ok(map[]);
    case Proceed =>
      var change := Solve(total, coins);
      r := Ok(change);
  }

  /** A round leaves less than `coin` over and loses no value; recorded
      coins stay above what is left. */
  lemma RoundSound(coin: int, rest: nat, acc: Change)
    requires coin > 0
    requires forall k :: k in acc ==> rest < k && acc[k] >= 1
    ensures Round(coin, rest, acc).rest < coin && Round(coin, rest, acc).rest <= rest
    ensures Value(Round(coin, rest, acc).change) + Round(coin, rest, acc).rest == Value(acc) + rest
    ensures forall k :: k in Round(coin, rest, acc).change ==>
      && Round(coin, rest, acc).rest < k
      && Round(coin, rest, acc).change[k] >= 1
      && (k in acc || k == coin)
  {
    var count := rest / coin;
    var left := rest - count * coin;
    DivBounds(coin, rest);
    if count != 0 {
      assert coin !in acc;
      RoundValue(coin, rest, acc);
    }
  }

  lemma RoundValue(coin: int, rest: nat, acc: Change)
    requires coin > 0 && coin !in acc
    ensures Value(Round(coin, rest, acc).change) + Round(coin, rest, acc).rest == Value(acc) + rest
  {
    var count := rest / coin;
    if count != 0 {
      ValueInsert(acc, coin, count);
    }
  }

  lemma DivBounds(coin: int, rest: nat)
    requires coin > 0
    ensures 0 <= rest - (rest / coin) * coin < coin
    ensures 0 <= rest / coin && rest - (rest / coin) * coin <= rest
    ensures rest / coin != 0 ==> coin <= rest
  {
  }

  /** One greedy pass keeps the books: the value recorded plus what is left
      is what there was at the start. */
  lemma {:induction false} GreedyFromConserves(desc: seq<int>, i: nat, rest: nat, acc: Change)
    requires Positive(desc) && i <= |desc|
    requires forall k :: k in acc ==> rest < k && acc[k] >= 1
    ensures var t := GreedyFrom(desc, i, rest, acc);
      Value(t.change) + t.rest == Value(acc) + rest && t.rest <= rest
    decreases |desc| - i
  {
    if i < |desc| {
      var coin := desc[i];
      assert coin in desc;
      var t := Round(coin, rest, acc);
      RoundSound(coin, rest, acc);
      GreedyFromConserves(desc, i + 1, t.rest, t.change);
    }
  }

  /** After a greedy pass what is left is smaller than every coin of the
      pass, and every recorded coin comes from the pass, at least once. */
  lemma {:induction false} GreedyFromRanges(desc: seq<int>, i: nat, rest: nat, acc: Change)
    requires Positive(desc) && i <= |desc|
    requires forall k :: k in acc ==> rest < k && acc[k] >= 1
    ensures var t := GreedyFrom(desc, i, rest, acc);
      && (forall j :: i <= j < |desc| ==> t.rest < desc[j])
      && (forall k :: k in t.change ==> (k in acc || k in desc) && t.change[k] >= 1)
    decreases |desc| - i
  {
    if i < |desc| {
      var coin := desc[i];
      assert coin in desc;
      var t := Round(coin, rest, acc);
      RoundSound(coin, rest, acc);
      GreedyFromRanges(desc, i + 1, t.rest, t.change);
      GreedyFromConserves(desc, i + 1, t.rest, t.change);
    }
  }

  /** What find_coins_greedy promises: only coins from the list, each used at
      least once, never more than `total`, and the shortfall is smaller than
      every coin. */
  lemma GreedySound(total: int, coins: seq<int>)
    requires total >= 0 && Positive(coins)
    ensures var g := Greedy(total, coins);
      && (forall k :: k in g ==> k in coins && g[k] >= 1)
      && 0 <= total - Value(g)
      && (forall c :: c in coins ==> total - Value(g) < c)
  {
    var desc := SortDesc(coins);
    GreedyFromConserves(desc, 0, total, map[]);
    GreedyFromRanges(desc, 0, total, map[]);
    forall c | c in coins
      ensures total - Value(Greedy(total, coins)) < c
    {
      assert c in desc;
      var j :| 0 <= j < |desc| && desc[j] == c;
    }
  }

  /** With a 1-coin among the coins the greedy change is exact. */
  lemma GreedyExactWithOne(total: int, coins: seq<int>)
    requires total >= 0 && Positive(coins) && 1 in coins
    ensures Value(Greedy(total, coins)) == total
  {
    GreedySound(total, coins);
  }

  /** On coins already in descending order the sort does nothing. */
  lemma GreedyOnDescending(total: int, coins: seq<int>)
    requires total >= 0 && Positive(coins) && Descending(coins)
    ensures Greedy(total, coins) == GreedyFrom(coins, 0, total, map[]).change
  {
    SortDescSorted(coins);
  }
}
