/** A change result: how many coins of each value were handed out, and the
    two quantities measured on it, the amount it represents and the number
    of coins it uses. */
module Money {

  /** Coin value -> number of coins of that value (a Python dict). */
  type Change = map<int, nat>

  /** A solver's state while it works: the change so far and the amount
      still to be paid out. */
  datatype Tally = Tally(change: Change, rest: nat)

  /** All values of a coin list are positive. */
  predicate Positive(coins: seq<int>) {
    forall c :: c in coins ==> c > 0
  }

  /** Dropping a prefix keeps a coin list positive. */
  lemma PositiveSuffix(coins: seq<int>, i: nat)
    requires Positive(coins) && i <= |coins|
    ensures Positive(coins[i..])
  {
    forall c | c in coins[i..] ensures c > 0 {
      var k :| 0 <= k < |coins[i..]| && coins[i..][k] == c;
      assert coins[i + k] == c && coins[i + k] in coins;
    }
  }

  /** What one coin of value k contributes to a sum over a change result. */
  datatype Measure = Amount | Pieces

  function Weight(how: Measure, k: int): int {
    match how
    case Amount => k
    case Pieces => 1
  }

  ghost function Pick(keys: set<int>): (k: int)
    requires |keys| != 0
    ensures k in keys
  {
    assert exists k :: k in keys by {
      if forall k :: k !in keys {}
    }
    var k :| k in keys; k
  }

  /** The sum over all entries of `m` of Weight(how, value) * count. */
  ghost function Sum(m: Change, how: Measure): int
    decreases |m|
  {
    if |m| == 0 then 0
    else
      var k := Pick(m.Keys);
      assert (m - {k}).Keys == m.Keys - {k};
      Weight(how, k) * m[k] + Sum(m - {k}, how)
  }

  /** The amount a change result represents: the sum of coin * count. */
  ghost function Value(m: Change): int {
    Sum(m, Amount)
  }

  /** The number of coins a change result uses: the sum of the counts. */
  ghost function Count(m: Change): int {
    Sum(m, Pieces)
  }

  /** `change[coin] = change.get(coin, 0) + 1` */
  function Bump(m: Change, coin: int): Change {
    m[coin := (if coin in m then m[coin] else 0) + 1]
  }

  /** `m` pays out exactly `amount` using only coins from `coins`. */
  ghost predicate Makes(coins: seq<int>, m: Change, amount: int) {
    (forall k :: k in m ==> k in coins) && Value(m) == amount
  }

  /** The sum does not depend on the order in which entries are visited:
      any entry can be taken out first. */
  lemma {:induction false} SumRemove(m: Change, how: Measure, k: int)
    requires k in m
    ensures Sum(m, how) == Weight(how, k) * m[k] + Sum(m - {k}, how)
    decreases |m|
  {
    var j := Pick(m.Keys);
    if j != k {
      assert (m - {j}).Keys == m.Keys - {j};
      assert (m - {k}).Keys == m.Keys - {k};
      SumRemove(m - {j}, how, k);
      SumRemove(m - {k}, how, j);
      assert m - {j} - {k} == m - {k} - {j};
    }
  }

  /** Overwriting one entry changes the sum by the difference of that entry. */
  lemma SumUpdate(m: Change, how: Measure, k: int, v: nat)
    ensures Sum(m[k := v], how)
         == Sum(m, how) - (if k in m then Weight(how, k) * m[k] else 0) + Weight(how, k) * v
  {
    SumRemove(m[k := v], how, k);
    assert m[k := v] - {k} == m - {k};
    if k in m {
      SumRemove(m, how, k);
    } else {
      assert m - {k} == m;
    }
  }

  /** Recording a coin value not yet present adds coin * count to the amount. */
  lemma ValueInsert(m: Change, coin: int, count: nat)
    requires coin !in m
    ensures Value(m[coin := count]) == Value(m) + coin * count
  {
    SumUpdate(m, Amount, coin, count);
  }

  /** One more coin: the amount grows by its value, the count by one. */
  lemma BumpAdds(m: Change, coin: int)
    ensures Value(Bump(m, coin)) == Value(m) + coin
    ensures Count(Bump(m, coin)) == Count(m) + 1
  {
    var c := if coin in m then m[coin] else 0;
    SumUpdate(m, Amount, coin, c + 1);
    SumUpdate(m, Pieces, coin, c + 1);
    MulSucc(coin, c);
  }

  /** One coin fewer: the amount shrinks by its value, the count by one. */
  lemma Unbump(m: Change, coin: int)
    requires coin in m && m[coin] > 0
    ensures Value(m[coin := m[coin] - 1]) == Value(m) - coin
    ensures Count(m[coin := m[coin] - 1]) == Count(m) - 1
  {
    var c := m[coin] - 1;
    SumUpdate(m, Amount, coin, c);
    SumUpdate(m, Pieces, coin, c);
    MulSucc(coin, c);
  }

  lemma MulSucc(a: int, b: int)
    ensures a * (b + 1) == a * b + a
  {
  }

  lemma MulNonNeg(a: int, b: nat)
    requires a >= 0
    ensures a * b >= 0
  {
  }

  /** With non-negative weights the sum is non-negative. */
  lemma {:induction false} SumNonNeg(m: Change, how: Measure)
    requires forall k :: k in m ==> Weight(how, k) >= 0
    ensures Sum(m, how) >= 0
    decreases |m|
  {
    if |m| != 0 {
      var k := Pick(m.Keys);
      assert (m - {k}).Keys == m.Keys - {k};
      SumNonNeg(m - {k}, how);
      MulNonNeg(Weight(how, k), m[k]);
    }
  }

  /** A non-zero sum has an entry with a non-zero count. */
  lemma {:induction false} NonZeroEntry(m: Change, how: Measure) returns (k: int)
    requires Sum(m, how) != 0
    ensures k in m && m[k] > 0
    decreases |m|
  {
    var j := Pick(m.Keys);
    assert (m - {j}).Keys == m.Keys - {j};
    if m[j] > 0 {
      k := j;
    } else {
      k := NonZeroEntry(m - {j}, how);
    }
  }
}
