# Call-option trader, modelled in Dafny

The repository's one algorithm is `trader` (code/call-option/callOption.js). It
plans call-option trades with perfect foresight. It takes a series of predicted
prices and returns one action per step:

- `"BO"`: buy one contract to open. Its strike is the current price and the premium is a fixed 1.
- `"EX"`: exercise every open contract.
- `"H"`: hold.

The function works in two passes. A backward pass fills `maxFromHere[i]` with
the largest price from step `i` to the end. A forward pass keeps two counters:
the number of open contracts (`activeOptions`) and the sum of their strikes
(`totalStrike`). At each step it does the first of these that applies:

1. With contracts open, it exercises them all if this is the last step or the
   price equals `maxFromHere[i]`.
2. Before the last step, it buys if `maxFromHere[i]` beats the price by more
   than the premium.
3. Otherwise it holds.

The model has two files:

- `call_option.dfy`, module `CallOption`. The action tags are the datatype
  `Action` (`BuyToOpen`, `Exercise`, `Hold`). `Trader` is the imperative
  method: a `seq<int>` of prices in, a local `array<int>` for `maxFromHere`,
  and a `seq<Action>` result that the forward loop appends to, with the same
  `continue` on exercise. The specification is `IsSchedule(pred, acts)`: every
  action is `Decide(pred, i, OpenCount(acts[..i]))`.
  - `Decide` is the per-step choice of code/call-option/callOption.js:29-53.
  - `SuffixMax` is the suffix maximum of code/call-option/callOption.js:15-19.
  - `OpenCount` is the number of buys since the last exercise. It stands for
    `activeOptions` (code/call-option/callOption.js:22, 39, 49).
  - `OpenStrike` is the sum of those buys' prices. It stands for `totalStrike`
    (code/call-option/callOption.js:23, 40, 50).
  - `ExerciseValue` is the formula of `profitNow`
    (code/call-option/callOption.js:32): open contracts times price, minus
    total strike, minus one premium per contract.

  `Trader` is proved to return a schedule, and `ScheduleUnique` shows a series
  has exactly one. So every lemma about `IsSchedule` is a lemma about what
  `Trader` returns.

  The file also states the optimality promised at
  code/call-option/callOption.js:4-5. `Profit(pred, acts)` is the profit of any
  sequence of the three actions over the same prices: each exercise earns the
  `ExerciseValue` of the contracts open before it, and a contract never
  exercised earns nothing. `ProfitAtMostMax` bounds every sequence by
  `MaxProfit(pred)`, the sum over each step before the last of the positive
  part of (best later price - price - premium). `ScheduleEarnsMax` shows the
  schedule reaches it, and `ScheduleIsOptimal` combines the two.
- `call_option_vectors.dfy`, module `CallOptionVectors`. The ten example
  series of code/call-option/test.js. Each is proved to have the expected
  actions as its one and only schedule.

Prices are mathematical integers. This makes the exact equality test that
triggers an exercise exact in the model too.

## Model

| member | source | states |
|---|---|---|
| `CallOption.SuffixMax` | code/call-option/callOption.js:15-19 | the value at step `i` is a price occurring at some step `j >= i` and is at least every price from `i` to the end, i.e. the maximum of `pred[i..]`; at the last step it is that step's price |
| `CallOption.Trader` | code/call-option/callOption.js:10-57 | the result is the schedule of `pred` (each action is the decision for its step given the contracts left open by the actions before it), has one action per price (so an empty series gives an empty result), and leaves no contract open |
| `CallOption.ScheduleUnique` | code/call-option/callOption.js:25-54 | two schedules of the same series are equal: the actions are determined by the prices alone |
| `CallOption.OpenCountMeansOpenBuy` | code/call-option/callOption.js:38-50 | the open-contract count is positive exactly when some buy has no exercise after it (both directions) |
| `CallOption.AllClosed` | code/call-option/callOption.js:37-41 | after the last step the count of open contracts is 0 and no buy is left without a later exercise |
| `CallOption.LastNeverBuys` | code/call-option/callOption.js:47 | the action at the last step is never a buy, so a one-price series is scheduled `[Hold]` |
| `CallOption.ExerciseNeedsOpen` | code/call-option/callOption.js:30-42 | an exercise happens only with contracts open, i.e. after a buy with no exercise in between, and leaves none open |
| `CallOption.ExerciseAtMaximum` | code/call-option/callOption.js:37 | at an exercise step no later price exceeds the current price |
| `CallOption.BuyBelowLaterPrice` | code/call-option/callOption.js:46-47 | a buy happens only before the last step, when the suffix maximum exceeds the price plus the premium, hence some later price does |
| `CallOption.NoOpportunityAllHold` | code/call-option/callOption.js:46-53 | if no price is ever exceeded later by more than the premium (flat or non-increasing series, say), every action is a hold |
| `CallOption.BuyExercisedAtProfit` | code/call-option/callOption.js:37-50 | a buy at step `j` is closed by a later exercise at step `k`, where `k` is the first exercise after `j` and the first later step whose price equals the suffix maximum seen at `j`; that price exceeds strike plus premium |
| `CallOption.NoOpenNoStrike` | code/call-option/callOption.js:38-50 | with no contract open, the sum of open strikes is 0 |
| `CallOption.OpenPositionsGain` | code/call-option/callOption.js:32 | if every open contract was bought more than the premium below `x`, exercising all at `x` yields at least one unit per contract |
| `CallOption.ExerciseIsProfitable` | code/call-option/callOption.js:32 | at every exercise the profit `activeOptions * price - totalStrike - activeOptions` is at least the number of contracts exercised, which is positive |
| `CallOption.ProfitAtMostMax` | code/call-option/callOption.js:32 | no sequence of buys, exercises and holds over the series, with each exercise earning `profitNow` of what is open, earns more than `MaxProfit`: the sum, over every step before the last, of the positive part of best later price minus price minus premium |
| `CallOption.ScheduleEarnsMax` | code/call-option/callOption.js:25-54 | the trader's schedule earns exactly `MaxProfit` |
| `CallOption.ScheduleIsOptimal` | code/call-option/callOption.js:4-5 | the trader's schedule earns at least as much as any other sequence of buys, exercises and holds over the same prices: it maximises profit |
| `CallOptionVectors.IncreasingThree` | code/call-option/test.js:8-12 | `[6, 7, 9]` has exactly the schedule `[BO, BO, EX]` |
| `CallOptionVectors.TwoCycles` | code/call-option/test.js:13-17 | `[6, 7, 9, 6, 9, 9]` has exactly the schedule `[BO, BO, EX, BO, EX, H]` |
| `CallOptionVectors.Flat` | code/call-option/test.js:18-22 | `[5, 5, 5]` has exactly the schedule `[H, H, H]` |
| `CallOptionVectors.Decreasing` | code/call-option/test.js:23-27 | `[10, 8, 6, 4]` has exactly the schedule `[H, H, H, H]` |
| `CallOptionVectors.LocalMaxima` | code/call-option/test.js:28-32 | `[1, 10, 2, 11, 3]` has exactly the schedule `[BO, H, BO, EX, H]` |
| `CallOptionVectors.SinglePrice` | code/call-option/test.js:33-37 | `[5]` has exactly the schedule `[H]` |
| `CallOptionVectors.TwoProfitable` | code/call-option/test.js:38-42 | `[5, 8]` has exactly the schedule `[BO, EX]` |
| `CallOptionVectors.TwoUnprofitable` | code/call-option/test.js:43-47 | `[5, 6]` has exactly the schedule `[H, H]`: a gain of 1 does not beat the premium |
| `CallOptionVectors.ContinuousIncrease` | code/call-option/test.js:48-52 | `[5, 10, 15]` has exactly the schedule `[BO, BO, EX]` |
| `CallOptionVectors.LargeJump` | code/call-option/test.js:53-57 | `[1, 2, 3, 20]` has exactly the schedule `[BO, BO, BO, EX]` |

## Left out

- `profitNow` (code/call-option/callOption.js:32) is computed by the source but never used, so `Trader` does not compute it. Its formula is the specification function `ExerciseValue`. That function is used by `ExerciseIsProfitable` and by the profit and optimality lemmas.
- `printTrader` and the demo block that runs when the file is the main module (code/call-option/callOption.js:59-89) only write to the console.
- The test runner in code/call-option/test.js (`arraysEqual`, `runTests`, console output, process exit code) is left out. Only its data is modelled, as the lemmas of `CallOptionVectors`.
- js/main.js is the page's presentation code: DOM, timers, canvas animation, randomness, scroll effects. js/main.js is not part of this model.
- Optimality is stated among sequences of the source's three actions: one contract per buy, and an exercise closes every open contract. A contract left unexercised is counted as earning 0 rather than losing its premium. This only makes the competing sequences look better, so the bound is no weaker for it.
- Prices are unbounded integers, not IEEE-754 doubles. Fractional prices, NaN, infinities and rounding in `currentPrice + 1` are not modelled.
- The input series is a `seq<int>` because `trader` never writes to its argument. Aliasing of the caller's array is not modelled.
- The result is returned as a value (`seq<Action>`) and the action tags as a datatype rather than the strings `"BO"`, `"EX"` and `"H"`.
