/**
 * A call-option trading schedule computed with perfect foresight.
 *
 * Given the predicted price of the underlying at every step, the trader emits
 * one action per step: buy one contract to open (strike = the current price,
 * fixed premium 1), exercise every open contract, or hold. Prices are exact
 * integers, so the equality test that triggers an exercise is modelled exactly.
 */
module CallOption {

  /** The three action tags; the source spells them "BO", "EX" and "H". */
  datatype Action = BuyToOpen | Exercise | Hold

  /** The fixed premium paid per contract. */
  const Premium: int := 1

  function Max(a: int, b: int): (m: int)
  {
    if a >= b then a else b
  }

  /** The largest predicted price from step `i` to the end of the series. */
  function SuffixMax(pred: seq<int>, i: nat): (m: int)
    requires i < |pred|
    ensures forall j :: i <= j < |pred| ==> pred[j] <= m
    ensures exists j :: i <= j < |pred| && pred[j] == m
    decreases |pred| - i
  {
    if i == |pred| - 1 then pred[i] else Max(pred[i], SuffixMax(pred, i + 1))
  }

  // ---------------------------------------------------------------------------
  // The position book, read off the actions emitted so far
  // ---------------------------------------------------------------------------

  /** The number of contracts open after `acts`: buys since the last exercise. */
  function OpenCount(acts: seq<Action>): (c: nat)
  {
    if acts == [] then 0
    else
      var prior := OpenCount(acts[..|acts| - 1]);
      match acts[|acts| - 1]
      case BuyToOpen => prior + 1
      case Exercise => 0
      case Hold => prior
  }

  /** The sum of the strikes (purchase prices) of the contracts open after `acts`. */
  function OpenStrike(pred: seq<int>, acts: seq<Action>): (strike: int)
    requires |acts| <= |pred|
  {
    if acts == [] then 0
    else
      var prior := OpenStrike(pred, acts[..|acts| - 1]);
      match acts[|acts| - 1]
      case BuyToOpen => prior + pred[|acts| - 1]
      case Exercise => 0
      case Hold => prior
  }

  /**
   * What exercising every contract open after `acts` at price `x` earns: the
   * price of each contract minus its strike and its premium.
   */
  function ExerciseValue(pred: seq<int>, acts: seq<Action>, x: int): (v: int)
    requires |acts| <= |pred|
  {
    OpenCount(acts) * x - OpenStrike(pred, acts) - OpenCount(acts) * Premium
  }

  /** The contract bought at step `j` is still open at the end of `acts`. */
  predicate OpenAt(acts: seq<Action>, j: int)
  {
    0 <= j < |acts| && acts[j] == BuyToOpen &&
    forall t :: j < t < |acts| ==> acts[t] != Exercise
  }

  // ---------------------------------------------------------------------------
  // The schedule
  // ---------------------------------------------------------------------------

  /**
   * The action taken at step `i` when `open` contracts are open: exercise them
   * all at the last step or when the price is the best still to come; else buy
   * when some later price beats the current one by more than the premium.
   */
  function Decide(pred: seq<int>, i: nat, open: nat): (a: Action)
    requires i < |pred|
  {
    var last := i == |pred| - 1;
    if open > 0 && (last || pred[i] == SuffixMax(pred, i)) then Exercise
    else if !last && SuffixMax(pred, i) > pred[i] + Premium then BuyToOpen
    else Hold
  }

  /** Step `i` of `acts` is the decision taken with the book left by the steps before it. */
  predicate Follows(pred: seq<int>, acts: seq<Action>, i: nat)
    requires i < |acts| <= |pred|
  {
    acts[i] == Decide(pred, i, OpenCount(acts[..i]))
  }

  /** `acts` is the trader's schedule for `pred`: one decision per step, in order. */
  predicate IsSchedule(pred: seq<int>, acts: seq<Action>)
  {
    |acts| == |pred| &&
    forall i :: 0 <= i < |acts| ==> Follows(pred, acts, i)
  }

  // ---------------------------------------------------------------------------
  // The trader
  // ---------------------------------------------------------------------------

  /**
   * A backward pass fills `maxFromHere` with suffix maxima; a forward pass keeps
   * the count of open contracts and the sum of their strikes and emits one action
   * per step.
   */
  method Trader(pred: seq<int>) returns (result: seq<Action>)
    ensures IsSchedule(pred, result)
    ensures |result| == |pred|
    ensures OpenCount(result) == 0
  {
    var n := |pred|;
    if n == 0 {
      return [];
    }

    var maxFromHere := new int[n];
    maxFromHere[n - 1] := pred[n - 1];
    var i := n - 2;
    while i >= 0
      invariant -1 <= i <= n - 2
      invariant forall k :: i < k < n ==> maxFromHere[k] == SuffixMax(pred, k)
    {
      maxFromHere[i] := Max(pred[i], maxFromHere[i + 1]);
      i := i - 1;
    }

    result := [];
    var activeOptions: nat := 0;
    var totalStrike := 0;
    for i := 0 to n
      invariant forall k :: 0 <= k < n ==> maxFromHere[k] == SuffixMax(pred, k)
      invariant |result| == i
      invariant forall k :: 0 <= k < i ==> Follows(pred, result, k)
      invariant activeOptions == OpenCount(result)
      invariant totalStrike == OpenStrike(pred, result)
    {
      var currentPrice := pred[i];
      var maxFuturePrice := maxFromHere[i];
      ghost var before := result;
      if activeOptions > 0 {
        if i == n - 1 || currentPrice == maxFuturePrice {
          result := result + [Exercise];
          Extended(pred, before, Exercise);
          activeOptions := 0;
          totalStrike := 0;
          continue;
        }
      }
      if i < n - 1 && maxFuturePrice > currentPrice + Premium {
        result := result + [BuyToOpen];
        activeOptions := activeOptions + 1;
        totalStrike := totalStrike + currentPrice;
      } else {
        result := result + [Hold];
      }
      Extended(pred, before, result[i]);
    }
    AllClosed(pred, result);
  }

  /**
   * Appending the next decision to a partial schedule extends it and moves the
   * book one step.
   */
  lemma Extended(pred: seq<int>, acts: seq<Action>, a: Action)
    requires |acts| < |pred|
    requires forall k :: 0 <= k < |acts| ==> Follows(pred, acts, k)
    requires a == Decide(pred, |acts|, OpenCount(acts))
    ensures forall k :: 0 <= k <= |acts| ==> Follows(pred, acts + [a], k)
    ensures OpenCount(acts + [a]) ==
      match a
      case BuyToOpen => OpenCount(acts) + 1
      case Exercise => 0
      case Hold => OpenCount(acts)
    ensures OpenStrike(pred, acts + [a]) ==
      match a
      case BuyToOpen => OpenStrike(pred, acts) + pred[|acts|]
      case Exercise => 0
      case Hold => OpenStrike(pred, acts)
  {
    var next := acts + [a];
    forall k | 0 <= k <= |acts| ensures Follows(pred, next, k) {
      assert next[..k] == acts[..k];
      if k < |acts| {
        assert Follows(pred, acts, k);
      }
    }
    assert next[..|acts|] == acts;
  }

  /** Taking one more element of a prefix takes one more step of the book. */
  lemma PrefixStep(acts: seq<Action>, i: nat)
    requires i < |acts|
    ensures acts[..i + 1][..i] == acts[..i]
    ensures OpenCount(acts[..i + 1]) ==
      match acts[i]
      case BuyToOpen => OpenCount(acts[..i]) + 1
      case Exercise => 0
      case Hold => OpenCount(acts[..i])
  {
  }

  // ---------------------------------------------------------------------------
  // Properties of the schedule
  // ---------------------------------------------------------------------------

  /** The schedule is a function of the prices: two schedules for one series agree. */
  lemma {:induction false} ScheduleUnique(pred: seq<int>, a: seq<Action>, b: seq<Action>)
    requires IsSchedule(pred, a) && IsSchedule(pred, b)
    ensures a == b
  {
    var n := |pred|;
    for i := 0 to n
      invariant a[..i] == b[..i]
    {
      assert Follows(pred, a, i) && Follows(pred, b, i);
      assert a[..i + 1] == a[..i] + [a[i]];
      assert b[..i + 1] == b[..i] + [b[i]];
    }
    assert a == a[..n] && b == b[..n];
  }

  /** An open book is exactly an earlier buy with no exercise after it. */
  lemma {:induction false} OpenCountMeansOpenBuy(acts: seq<Action>)
    ensures OpenCount(acts) > 0 <==> exists j :: OpenAt(acts, j)
    decreases |acts|
  {
    if acts != [] {
      var m := |acts| - 1;
      var prior := acts[..m];
      OpenCountMeansOpenBuy(prior);
      forall j | 0 <= j < m
        ensures OpenAt(acts, j) <==> OpenAt(prior, j) && acts[m] != Exercise
      {
      }
      if acts[m] == BuyToOpen {
        assert OpenAt(acts, m);
      } else {
        assert !OpenAt(acts, m);
      }
    }
  }

  /** No contract is left open after the last step. */
  lemma AllClosed(pred: seq<int>, acts: seq<Action>)
    requires IsSchedule(pred, acts)
    ensures OpenCount(acts) == 0
    ensures forall j :: !OpenAt(acts, j)
  {
    var n := |pred|;
    if n > 0 {
      assert Follows(pred, acts, n - 1);
      PrefixStep(acts, n - 1);
      assert acts[..n] == acts;
    }
    OpenCountMeansOpenBuy(acts);
  }

  /** The last step never buys, so a one-price series is a single hold. */
  lemma LastNeverBuys(pred: seq<int>, acts: seq<Action>)
    requires IsSchedule(pred, acts) && |pred| > 0
    ensures acts[|pred| - 1] != BuyToOpen
    ensures |pred| == 1 ==> acts == [Hold]
  {
    var n := |pred|;
    assert Follows(pred, acts, n - 1);
    if n == 1 {
      assert acts[..0] == [];
      assert acts == [acts[0]];
    }
  }

  /**
   * An exercise happens only while some contract is open (a buy since the
   * previous exercise), and it empties the book.
   */
  lemma ExerciseNeedsOpen(pred: seq<int>, acts: seq<Action>, i: nat)
    requires IsSchedule(pred, acts) && i < |acts| && acts[i] == Exercise
    ensures OpenCount(acts[..i]) > 0
    ensures exists j :: 0 <= j < i && acts[j] == BuyToOpen && forall t :: j < t < i ==> acts[t] != Exercise
    ensures OpenCount(acts[..i + 1]) == 0
  {
    assert Follows(pred, acts, i);
    OpenCountMeansOpenBuy(acts[..i]);
    var j :| OpenAt(acts[..i], j);
    assert j < i && acts[j] == BuyToOpen;
    PrefixStep(acts, i);
  }

  /** An exercise happens at a price no later price exceeds. */
  lemma ExerciseAtMaximum(pred: seq<int>, acts: seq<Action>, i: nat)
    requires IsSchedule(pred, acts) && i < |acts| && acts[i] == Exercise
    ensures forall j :: i < j < |pred| ==> pred[j] <= pred[i]
  {
    assert Follows(pred, acts, i);
  }

  /** A buy happens only when some later price beats it by more than the premium. */
  lemma BuyBelowLaterPrice(pred: seq<int>, acts: seq<Action>, i: nat)
    requires IsSchedule(pred, acts) && i < |acts| && acts[i] == BuyToOpen
    ensures i < |pred| - 1
    ensures SuffixMax(pred, i) > pred[i] + Premium
    ensures exists j :: i < j < |pred| && pred[j] > pred[i] + Premium
  {
    assert Follows(pred, acts, i);
    var j :| i <= j < |pred| && pred[j] == SuffixMax(pred, i);
    assert i < j;
  }

  /**
   * When no price is ever beaten later by more than the premium (a flat or a
   * non-increasing series, say), the trader only holds.
   */
  lemma {:induction false} NoOpportunityAllHold(pred: seq<int>, acts: seq<Action>)
    requires IsSchedule(pred, acts)
    requires forall i, j :: 0 <= i < j < |pred| ==> pred[j] <= pred[i] + Premium
    ensures forall i :: 0 <= i < |acts| ==> acts[i] == Hold
  {
    for i := 0 to |acts|
      invariant OpenCount(acts[..i]) == 0
      invariant forall k :: 0 <= k < i ==> acts[k] == Hold
    {
      assert Follows(pred, acts, i);
      if acts[i] == BuyToOpen {
        BuyBelowLaterPrice(pred, acts, i);
        assert false;
      }
      PrefixStep(acts, i);
    }
  }

  /**
   * Every contract is exercised at a profit: a buy at step `j` is closed by the
   * first exercise after it, at step `k`, which is the first later step whose
   * price reaches the suffix maximum seen at `j`, a price above strike plus
   * premium.
   */
  lemma BuyExercisedAtProfit(pred: seq<int>, acts: seq<Action>, j: nat)
    requires IsSchedule(pred, acts) && j < |acts| && acts[j] == BuyToOpen
    ensures exists k ::
      (j < k < |acts| && acts[k] == Exercise &&
       pred[k] == SuffixMax(pred, j) && pred[k] > pred[j] + Premium &&
       forall t :: j < t < k ==> acts[t] != Exercise && pred[t] < pred[k])
  {
    BuyBelowLaterPrice(pred, acts, j);
    var k0 :| j <= k0 < |pred| && pred[k0] == SuffixMax(pred, j);
    PrefixStep(acts, j);
    var k := FirstTop(pred, acts, j, k0);
    ExercisesAtTop(pred, acts, j, k);
  }

  /**
   * From a step `j` with contracts open after it, the first later step that
   * reaches the suffix maximum seen at `j` comes with no exercise before it.
   */
  lemma FirstTop(pred: seq<int>, acts: seq<Action>, j: nat, k0: nat) returns (t: nat)
    requires IsSchedule(pred, acts)
    requires j < k0 < |pred| && pred[k0] == SuffixMax(pred, j)
    requires OpenCount(acts[..j + 1]) > 0
    ensures j < t <= k0 && pred[t] == pred[k0] && OpenCount(acts[..t]) > 0
    ensures forall s :: j < s < t ==> acts[s] != Exercise && pred[s] < pred[t]
  {
    t := j + 1;
    while pred[t] != pred[k0]
      invariant j < t <= k0
      invariant OpenCount(acts[..t]) > 0
      invariant forall s :: j < s < t ==> acts[s] != Exercise && pred[s] < pred[k0]
      decreases k0 - t
    {
      StaysOpen(pred, acts, j, t, k0);
      t := t + 1;
    }
  }

  /** With contracts open, the step that reaches the suffix maximum seen at `j` exercises. */
  lemma ExercisesAtTop(pred: seq<int>, acts: seq<Action>, j: nat, t: nat)
    requires IsSchedule(pred, acts)
    requires j <= t < |pred| && pred[t] == SuffixMax(pred, j)
    requires OpenCount(acts[..t]) > 0
    ensures acts[t] == Exercise
  {
    SuffixMaxHolds(pred, j, t, t);
    assert Follows(pred, acts, t);
  }

  /**
   * With contracts open, a step before the suffix maximum seen at `j` is
   * reached neither exercises nor closes anything.
   */
  lemma StaysOpen(pred: seq<int>, acts: seq<Action>, j: nat, t: nat, k: nat)
    requires IsSchedule(pred, acts)
    requires j < t < k < |pred| && pred[k] == SuffixMax(pred, j) && pred[t] != pred[k]
    requires OpenCount(acts[..t]) > 0
    ensures acts[t] != Exercise && pred[t] < pred[k] && OpenCount(acts[..t + 1]) > 0
  {
    SuffixMaxHolds(pred, j, t, k);
    assert Follows(pred, acts, t);
    PrefixStep(acts, t);
  }

  /** The suffix maximum stays put until the step where it is reached. */
  lemma SuffixMaxHolds(pred: seq<int>, i: nat, t: nat, k: nat)
    requires i <= t <= k < |pred| && pred[k] == SuffixMax(pred, i)
    ensures SuffixMax(pred, t) == SuffixMax(pred, i)
  {
    var w :| t <= w < |pred| && pred[w] == SuffixMax(pred, t);
    assert pred[w] <= SuffixMax(pred, i);
  }

  /** With nothing open, no strike is on the book. */
  lemma {:induction false} NoOpenNoStrike(pred: seq<int>, acts: seq<Action>)
    requires |acts| <= |pred| && OpenCount(acts) == 0
    ensures OpenStrike(pred, acts) == 0
    decreases |acts|
  {
    if acts != [] && acts[|acts| - 1] == Hold {
      NoOpenNoStrike(pred, acts[..|acts| - 1]);
    }
  }

  /**
   * If every contract still open after `acts` was bought more than the premium
   * below `x`, exercising them all at `x` earns at least one unit per contract.
   */
  lemma {:induction false} OpenPositionsGain(pred: seq<int>, acts: seq<Action>, x: int)
    requires |acts| <= |pred|
    requires forall j :: OpenAt(acts, j) ==> pred[j] + Premium < x
    ensures ExerciseValue(pred, acts, x) >= OpenCount(acts)
    decreases |acts|
  {
    if acts != [] {
      var m := |acts| - 1;
      var prior := acts[..m];
      if acts[m] != Exercise {
        forall j | OpenAt(prior, j) ensures pred[j] + Premium < x {
          assert OpenAt(acts, j);
        }
        OpenPositionsGain(pred, prior, x);
        if acts[m] == BuyToOpen {
          assert OpenAt(acts, m);
          var c := OpenCount(prior);
          assert (c + 1) * x == c * x + x;
          assert (c + 1) * Premium == c * Premium + Premium;
        }
      }
    }
  }

  /**
   * The profit of an exercise, (open contracts) * price - total strike -
   * (open contracts) * premium, is positive: at least one unit per contract.
   */
  lemma ExerciseIsProfitable(pred: seq<int>, acts: seq<Action>, i: nat)
    requires IsSchedule(pred, acts) && i < |acts| && acts[i] == Exercise
    ensures OpenCount(acts[..i]) > 0
    ensures ExerciseValue(pred, acts[..i], pred[i]) >= OpenCount(acts[..i])
  {
    ExerciseNeedsOpen(pred, acts, i);
    forall j | OpenAt(acts[..i], j) ensures pred[j] + Premium < pred[i] {
      BuyExercisedAtProfit(pred, acts, j);
      var k :| j < k < |acts| && acts[k] == Exercise &&
        pred[k] == SuffixMax(pred, j) && pred[k] > pred[j] + Premium &&
        (forall t :: j < t < k ==> acts[t] != Exercise && pred[t] < pred[k]);
      forall t | j < t < i ensures acts[t] != Exercise {
        assert acts[..i][t] == acts[t];
      }
      assert k == i;
    }
    OpenPositionsGain(pred, acts[..i], pred[i]);
  }

  // ---------------------------------------------------------------------------
  // Profit and optimality
  // ---------------------------------------------------------------------------

  /**
   * The profit of any action sequence: every exercise earns the exercise value
   * of the contracts open before it. A contract never exercised earns nothing.
   */
  function Profit(pred: seq<int>, acts: seq<Action>): (p: int)
    requires |acts| <= |pred|
  {
    if acts == [] then 0
    else
      var m := |acts| - 1;
      Profit(pred, acts[..m]) +
        (if acts[m] == Exercise then ExerciseValue(pred, acts[..m], pred[m]) else 0)
  }

  /**
   * The most the contracts open after `acts` can still earn if each may be sold
   * at price `x`: each one's gain over strike and premium, when positive.
   */
  function OpenGain(pred: seq<int>, acts: seq<Action>, x: int): (g: int)
    requires |acts| <= |pred|
    ensures g >= 0
  {
    if acts == [] then 0
    else
      var m := |acts| - 1;
      var prior := OpenGain(pred, acts[..m], x);
      match acts[m]
      case BuyToOpen => prior + Max(0, x - pred[m] - Premium)
      case Exercise => 0
      case Hold => prior
  }

  /**
   * The gain available from the steps before `m`: buying at step `i` and
   * selling at the best later price pays when that price beats it by more
   * than the premium.
   */
  function BestGain(pred: seq<int>, m: nat): (g: int)
    requires m < |pred|
    ensures g >= 0
  {
    if m == 0 then 0
    else BestGain(pred, m - 1) + Max(0, SuffixMax(pred, m) - pred[m - 1] - Premium)
  }

  /** The largest profit any action sequence can make on `pred`. */
  function MaxProfit(pred: seq<int>): (g: int)
  {
    if pred == [] then 0 else BestGain(pred, |pred| - 1)
  }

  /** One more step of a prefix moves the profit, the exercise value and the open gain at `x`. */
  lemma BookStep(pred: seq<int>, acts: seq<Action>, m: nat, x: int)
    requires m < |acts| <= |pred|
    ensures acts[..m + 1][..m] == acts[..m]
    ensures Profit(pred, acts[..m + 1]) == Profit(pred, acts[..m]) +
      (if acts[m] == Exercise then ExerciseValue(pred, acts[..m], pred[m]) else 0)
    ensures ExerciseValue(pred, acts[..m + 1], x) ==
      match acts[m]
      case BuyToOpen => ExerciseValue(pred, acts[..m], x) + x - pred[m] - Premium
      case Exercise => 0
      case Hold => ExerciseValue(pred, acts[..m], x)
    ensures OpenGain(pred, acts[..m + 1], x) ==
      match acts[m]
      case BuyToOpen => OpenGain(pred, acts[..m], x) + Max(0, x - pred[m] - Premium)
      case Exercise => 0
      case Hold => OpenGain(pred, acts[..m], x)
  {
    assert acts[..m + 1][..m] == acts[..m];
    var c := OpenCount(acts[..m]);
    assert (c + 1) * x == c * x + x;
  }

  /**
   * Selling every open contract at `x` earns no more than their positive
   * gains at `x`, and those gains grow with `x`.
   */
  lemma {:induction false} OpenGainBounds(pred: seq<int>, acts: seq<Action>, x: int, y: int)
    requires |acts| <= |pred|
    ensures ExerciseValue(pred, acts, x) <= OpenGain(pred, acts, x)
    ensures x <= y ==> OpenGain(pred, acts, x) <= OpenGain(pred, acts, y)
    decreases |acts|
  {
    if acts != [] {
      var m := |acts| - 1;
      OpenGainBounds(pred, acts[..m], x, y);
      BookStep(pred, acts, m, x);
      BookStep(pred, acts, m, y);
      assert acts[..m + 1] == acts;
    }
  }

  /**
   * One step before the last adds to profit plus the open gain at the suffix
   * maximum no more than the gain available at that step, which BestGain adds.
   */
  lemma ProfitStepBound(pred: seq<int>, acts: seq<Action>, m: nat)
    requires |acts| == |pred| && m < |pred| - 1
    ensures Profit(pred, acts[..m + 1]) + OpenGain(pred, acts[..m + 1], SuffixMax(pred, m + 1)) - BestGain(pred, m + 1) <=
      Profit(pred, acts[..m]) + OpenGain(pred, acts[..m], SuffixMax(pred, m)) - BestGain(pred, m)
  {
    var mx, next := SuffixMax(pred, m), SuffixMax(pred, m + 1);
    assert next <= mx;
    BookStep(pred, acts, m, next);
    OpenGainBounds(pred, acts[..m], pred[m], mx);
    OpenGainBounds(pred, acts[..m], next, mx);
  }

  /** The last step adds to profit no more than the open gain at its price. */
  lemma ProfitLastBound(pred: seq<int>, acts: seq<Action>)
    requires |acts| == |pred| > 0
    ensures Profit(pred, acts) <=
      Profit(pred, acts[..|pred| - 1]) + OpenGain(pred, acts[..|pred| - 1], SuffixMax(pred, |pred| - 1))
  {
    var n := |pred|;
    BookStep(pred, acts, n - 1, pred[n - 1]);
    OpenGainBounds(pred, acts[..n - 1], pred[n - 1], pred[n - 1]);
    assert acts[..n] == acts;
  }

  /** No action sequence earns more than MaxProfit. */
  lemma {:induction false} ProfitAtMostMax(pred: seq<int>, acts: seq<Action>)
    requires |acts| == |pred|
    ensures Profit(pred, acts) <= MaxProfit(pred)
  {
    var n := |pred|;
    if n > 0 {
      assert acts[..0] == [];
      for m := 0 to n - 1
        invariant Profit(pred, acts[..m]) + OpenGain(pred, acts[..m], SuffixMax(pred, m)) <= BestGain(pred, m)
      {
        ProfitStepBound(pred, acts, m);
      }
      ProfitLastBound(pred, acts);
    }
  }

  /**
   * One step of the schedule before the last adds to profit plus the value of
   * the open contracts at the suffix maximum exactly the gain available at it,
   * which BestGain adds.
   */
  lemma ScheduleStepGain(pred: seq<int>, acts: seq<Action>, m: nat)
    requires IsSchedule(pred, acts) && m < |pred| - 1
    ensures Profit(pred, acts[..m + 1]) + ExerciseValue(pred, acts[..m + 1], SuffixMax(pred, m + 1)) - BestGain(pred, m + 1) ==
      Profit(pred, acts[..m]) + ExerciseValue(pred, acts[..m], SuffixMax(pred, m)) - BestGain(pred, m)
  {
    var mx, next := SuffixMax(pred, m), SuffixMax(pred, m + 1);
    assert mx == Max(pred[m], next);
    assert Follows(pred, acts, m);
    BookStep(pred, acts, m, next);
    if OpenCount(acts[..m]) == 0 {
      NoOpenNoStrike(pred, acts[..m]);
    }
    match acts[m]
    case BuyToOpen =>
      assert mx == next;
    case Exercise =>
      assert pred[m] == mx;
    case Hold =>
      assert next <= pred[m] + Premium;
      assert OpenCount(acts[..m]) > 0 ==> mx == next;
  }

  /** The schedule's last step realises the value of what is open at its price. */
  lemma ScheduleLastGain(pred: seq<int>, acts: seq<Action>)
    requires IsSchedule(pred, acts) && |pred| > 0
    ensures Profit(pred, acts) ==
      Profit(pred, acts[..|pred| - 1]) + ExerciseValue(pred, acts[..|pred| - 1], SuffixMax(pred, |pred| - 1))
  {
    var n := |pred|;
    assert Follows(pred, acts, n - 1);
    BookStep(pred, acts, n - 1, pred[n - 1]);
    if OpenCount(acts[..n - 1]) == 0 {
      NoOpenNoStrike(pred, acts[..n - 1]);
    }
    assert acts[..n] == acts;
  }

  /** The trader's schedule earns exactly MaxProfit. */
  lemma {:induction false} ScheduleEarnsMax(pred: seq<int>, acts: seq<Action>)
    requires IsSchedule(pred, acts)
    ensures Profit(pred, acts) == MaxProfit(pred)
  {
    var n := |pred|;
    if n > 0 {
      assert acts[..0] == [];
      for m := 0 to n - 1
        invariant Profit(pred, acts[..m]) + ExerciseValue(pred, acts[..m], SuffixMax(pred, m)) == BestGain(pred, m)
      {
        ScheduleStepGain(pred, acts, m);
      }
      ScheduleLastGain(pred, acts);
    }
  }

  /**
   * The schedule is optimal: no sequence of buys, exercises and holds over the
   * same prices earns more.
   */
  lemma ScheduleIsOptimal(pred: seq<int>, schedule: seq<Action>, acts: seq<Action>)
    requires IsSchedule(pred, schedule) && |acts| == |pred|
    ensures Profit(pred, acts) <= Profit(pred, schedule)
  {
    ProfitAtMostMax(pred, acts);
    ScheduleEarnsMax(pred, schedule);
  }
}
