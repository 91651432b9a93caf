# Coin change: greedy and dynamic programming

This project models `main.py`. The script makes change for an amount `total`
from a list of coin values in two ways, and both return a dictionary
`coin value -> number of coins`:

- `find_coins_greedy` sorts the coins from largest to smallest. It takes
  `total // coin` copies of each and drops whatever is left at the end.
- `find_min_coins` fills a table `dp[0..total]` of minimum coin counts.
  `float("inf")` marks an amount that cannot be paid. It then reads one
  solution back out in a single pass over `reversed(coins)`.

The decorator `handle_error` wraps both functions. It rejects a non-positive
total and a coin list that is empty or holds a non-positive value. Its early
`return {}` tests the module constant `COINS = [50, 25, 10, 5, 2, 1]`, not the
coins it was given. Its `total == 0` clause was already rejected, and
`min(COINS)` is 1. So for integer totals the branch can never fire, although
it reads like a shortcut for small totals. The model keeps the branch as written and proves
it dead (`Guard.ShortcutIsDead`).

Modules, one per file:

- `ExtNat` (`ext.dfy`): `Ext = Fin(n) | Inf`, the table entries. `Inf`
  absorbs `+ 1`, as Python's infinity does, so `inf == inf + 1` holds.
- `Money` (`money.dfy`): a change result as `map<int, nat>`. It defines the
  amount (`Value`) and the coin count (`Count`) of a change result, and
  `Makes`, "pays exactly this amount from these coins".
- `Guard` (`guard.dfy`): `COINS`, the guard `HandleError`, and `Wrapped`,
  which is the decorator applied to a solver function.
- `GreedySolver` (`greedy.dfy`): the greedy loop as the method `Solve`,
  proved equal to the function `Greedy`. The properties are lemmas about
  `Greedy`.
- `DpSolver` (`dp.dfy`):
  - The fill loops as the method `FillTable`, proved to produce `Table`. The
    entries of `Table` are the recurrence `Opt`, which is proved to be the
    minimum coin count.
  - The reconstruction loops as the method `Reconstruct`, proved equal to the
    function `Walk`.
  - `MinCoins` is the whole body, and `MinCoinsSound` states what it
    guarantees.
- `Comparison` (`compare.dfy`): the dynamic-programming change never uses
  more coins than an exact greedy change. The condition is needed: when the
  greedy change falls short, `find_min_coins` can use more coins than
  `find_coins_greedy`. For 7 from `[5, 3]` greedy gives `{5: 1}` and
  `find_min_coins` gives `{3: 2}` (`Scenarios.DynamicWorseThanInexactGreedy`).
  So the unconditional statement "dynamic programming never uses more coins
  than greedy" does not hold of `main.py`.
- `Scenarios` (`scenarios.dfy`): concrete cases:
  - the amount 67 from `COINS`;
  - a coin system where greedy is not optimal;
  - an amount the coins cannot pay;
  - an amount where greedy falls short and uses fewer coins than
    `find_min_coins`.

The methods are proved against the specification functions. The Python
functions are deterministic and have no side effects, so a method's result is
a function of its arguments. Calling one twice with the same input gives the
same result.

## Model

| member | source | states |
|---|---|---|
| ExtNat.Ext.Min | main.py:41 | Python's `min(dp[i], dp[i - coin] + 1)` on entries that may be infinite: the result is one of the two arguments and no greater than either |
| Guard.MinOf | main.py:13 | `min(COINS)`: an element of the list that is no greater than any element |
| Guard.HandleError | main.py:7-15 | the guard rejects exactly the totals `<= 0`; it rejects the coins exactly when the total is positive and the list is empty or holds a value `<= 0`; it lets through only a positive total with a non-empty list of positive coins |
| Guard.MinOfCoins | main.py:4 | the smallest reference coin is 1 |
| Guard.ShortcutIsDead | main.py:9-15 | for an integer total the early `return {}` never fires, and the solver is called exactly when the total is positive and the coins are valid |
| Guard.Wrapped | main.py:7-17 | a decorated call fails with the total error for a total `<= 0`, fails with the coins error for bad coins, and otherwise returns the solver's own result unchanged |
| Money.BumpAdds | main.py:50 | `change[coin] = change.get(coin, 0) + 1` adds `coin` to the amount and 1 to the coin count |
| Money.ValueInsert | main.py:28 | recording `count` copies of a coin not yet present adds `coin * count` to the amount |
| GreedySolver.SortDesc | main.py:23 | `sorted(coins, reverse=True)` is a permutation of the coins, has the same members, and is in descending order |
| GreedySolver.SortDescSorted | main.py:23 | sorting a list that is already descending returns it unchanged |
| GreedySolver.Solve | main.py:21-30 | the loop over the sorted coins returns `Greedy(total, coins)` |
| GreedySolver.FindCoinsGreedy | main.py:20-30 | the decorated `find_coins_greedy` equals the decorator applied to `Greedy` |
| GreedySolver.RoundSound | main.py:25-28 | one coin's turn leaves less than that coin, never increases what is left, loses no value, and records only that coin, at least once |
| GreedySolver.RoundValue | main.py:25-28 | one coin's turn moves exactly `count * coin` from what is left into the change |
| GreedySolver.DivBounds | main.py:25-26 | `total - (total // coin) * coin` lies in `[0, coin)` and never exceeds `total` |
| GreedySolver.GreedyFromConserves | main.py:24-28 | over the loop, the change's amount plus what is left stays equal to the starting total |
| GreedySolver.GreedyFromRanges | main.py:24-28 | after the loop, what is left is smaller than every coin visited, and every recorded coin is one of them, with a count of at least 1 |
| GreedySolver.GreedySound | main.py:21-30 | the greedy change uses only coins from the list, each at least once; it never exceeds `total`; the shortfall is smaller than every coin |
| GreedySolver.GreedyExactWithOne | main.py:23-28 | with a 1-coin in the list the greedy change pays `total` exactly |
| GreedySolver.GreedyOnDescending | main.py:23 | on coins already in descending order the greedy loop visits them as given |
| DpSolver.RelaxBound | main.py:39-41 | after the inner loop has seen a coin that fits, `dp[i] <= dp[i - coin] + 1` |
| DpSolver.OptTriangle | main.py:38-41 | for every coin `c <= i` in the list, `dp[i] <= dp[i - c] + 1` |
| DpSolver.RelaxAttained | main.py:39-41 | a finite `dp[i]` after the inner loop equals `dp[i - coin] + 1` for some coin it has seen |
| DpSolver.OptAttained | main.py:38-41 | every finite `dp[i]` with `i > 0` is `dp[i - c] + 1` for some coin `c <= i` of the list |
| DpSolver.OptMinimal | main.py:35-41 | every combination paying `i` makes `dp[i]` finite and uses at least `dp[i]` coins |
| DpSolver.OptWitness | main.py:35-41 | every finite `dp[i]` is the coin count of some combination paying `i` |
| DpSolver.OptIsMinimum | main.py:35-41 | `dp[i]` is infinite exactly when no combination of the coins pays `i`; otherwise it is the least number of coins of any such combination, and one combination attains it |
| DpSolver.FillTable | main.py:35-41 | the nested fill loops leave the array equal to `Table(coins, total)`, whose entry `i` is `Opt(coins, i)` |
| DpSolver.Drain | main.py:46-51 | the while loop for one coin never increases `remaining_total` |
| DpSolver.Walk | main.py:45-51 | the reconstruction pass never increases `remaining_total` |
| DpSolver.Reversed | main.py:45 | `reversed(coins)` has the same length and holds the elements in reverse order |
| DpSolver.ReversedSameCoins | main.py:45 | `reversed(coins)` has the same members as `coins` |
| DpSolver.Reconstruct | main.py:43-53 | the `for`/`while` reconstruction over the array returns `Walk` over `reversed(coins)`, starting from `total` and an empty dictionary |
| DpSolver.Solve | main.py:34-53 | the undecorated body returns `MinCoins(total, coins)` |
| DpSolver.FindMinCoins | main.py:33-53 | the decorated `find_min_coins` equals the decorator applied to `MinCoins` |
| DpSolver.DrainConserves | main.py:46-51 | each coin subtracted from `remaining_total` is recorded, so the amount plus what remains is unchanged |
| DpSolver.WalkConserves | main.py:44-51 | over the whole reconstruction, the amount plus `remaining_total` stays `total`, and only coins from the list are recorded |
| DpSolver.UsefulPropagates | main.py:46-49 | on the optimal table, a coin whose while test fails at `r` still fails after another coin is subtracted |
| DpSolver.DrainExact | main.py:46-51 | on the optimal table, the while loop lowers `dp[remaining_total]` by one per coin taken, stops where the coin no longer applies, and does not revive a coin that had stopped |
| DpSolver.WalkExact | main.py:45-51 | on the optimal table, once every coin has had its turn `remaining_total` is 0 and exactly `dp[total]` coins were taken, whatever the order of the coins |
| DpSolver.MinCoinsSound | main.py:34-53 | the result uses only listed coins, each at least once, and never pays more than `total`; it pays `total` exactly iff some combination does, and then with the fewest coins of any combination; a finite `dp[total]` means it pays exactly with `dp[total]` coins |
| Comparison.DynamicNoWorseThanGreedy | main.py:21-53 | whenever the greedy change is exact, the dynamic-programming change is exact too and uses no more coins |
| Comparison.WrappedNoWorseThanGreedy | main.py:20-53 | the same comparison between the two decorated functions |
| Scenarios.Greedy67 | main.py:68 | `find_coins_greedy(67, COINS)` is `{50: 1, 10: 1, 5: 1, 2: 1}` |
| Scenarios.Change67Value | main.py:68 | that change pays 67 with 4 coins |
| Scenarios.MinCoins67 | main.py:58 | `find_min_coins(67, COINS)` pays 67 exactly with at most 4 coins |
| Scenarios.GreedyNotOptimal | main.py:21-53 | with coins `[4, 3, 1]` and total 6, greedy gives `{4: 1, 1: 2}` (3 coins) while `find_min_coins` gives `{3: 2}`, paying 6 with 2 coins |
| Scenarios.MinCoins6 | main.py:35-51 | `find_min_coins(6, [4, 3, 1])` is `{3: 2}` |
| Scenarios.OptSmall | main.py:35-41 | for coins `[4, 3, 1]` the table `dp[0..6]` is `0, 1, 2, 1, 1, 2, 2` |
| Scenarios.Unpayable | main.py:35-41 | with coins `[2]` and total 3, `dp[3]` is infinite and the dynamic-programming change pays less than 3 |
| Scenarios.UnpayableChange | main.py:46-51 | with coins `[2]` and total 3, `inf == inf + 1` lets one 2-coin through, so the result is `{2: 1}` |
| Scenarios.DynamicWorseThanInexactGreedy | main.py:21-53 | for 7 from `[5, 3]`, greedy gives `{5: 1}` and `find_min_coins` gives `{3: 2}`, which uses more coins |
| Scenarios.Greedy7 | main.py:21-30 | `find_coins_greedy(7, [5, 3])` is `{5: 1}`, 2 short of the amount |
| Scenarios.MinCoins7 | main.py:43-51 | `find_min_coins(7, [5, 3])` is `{3: 2}`: `inf == inf + 1` lets two 3-coins through |
| Scenarios.OptFiveThree | main.py:35-41 | for coins `[5, 3]`, `dp[1]`, `dp[2]`, `dp[4]` and `dp[7]` are infinite |

## Left out

- `benchmark` and its `timeit` calls (main.py:56-59) measure running time, which the model does not have.
- The `__main__` block (main.py:62-100) only formats and prints. Its calls at main.py:69 and main.py:72 use the other solver than their variable names say. That is a fault of the printing harness, not of the solvers.
- `float("inf")` is modelled as `ExtNat.Inf`, and the integer table entries as `Fin(n)`. No other floating-point behaviour is involved.
- The insertion order of the Python dictionaries is not modelled. A change result is a `map<int, nat>`.
- Python's `sorted` is modelled by an insertion sort (`GreedySolver.SortDesc`). Its contract fixes the result uniquely (a descending permutation), so any correct sort gives the same list.
- Raising `ValueError` is modelled as the `Failed` result with one error per message. The message text is not modelled.
- Only integer totals and lists of integers are modelled. A float total below 1, such as 0.5, is the one kind of input on which the early `return {}` at main.py:13-14 fires, and both functions return `{}`. A float total of at least 1 passes the guard: `find_coins_greedy` returns float counts (2.5 from `[1]` gives `{1: 2.0}`), and `find_min_coins` raises `TypeError` at main.py:35. A tuple of coins behaves like a list, so `seq<int>` covers it.
- GreedySolver.Solve: requires a non-negative total and positive coins. The undecorated function is only reachable through the decorator, which guarantees both.
- DpSolver.Solve: the same precondition as `GreedySolver.Solve`, for the same reason.
- Scenarios.MinCoins67: states that `find_min_coins(67, COINS)` pays 67 exactly with at most 4 coins, not that it equals `{50: 1, 10: 1, 5: 1, 2: 1}`. The exact map needs the table entries `dp[0..67]` computed one by one, and that proof was not done.
- The commented-out alternative `COINS` (main.py:3) has no effect.
