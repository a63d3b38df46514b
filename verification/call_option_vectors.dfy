/**
 * The example series of the call-option trader's test suite, each with the
 * schedule expected of it. Each lemma says that the expected actions are the
 * one and only schedule of the series, so they are what CallOption.Trader
 * returns for it.
 */
module CallOptionVectors {
  import opened CallOption

  const BO := BuyToOpen
  const EX := Exercise
  const H := Hold

  /** A schedule of a series is its only one. */
  lemma OnlySchedule(pred: seq<int>, expected: seq<Action>)
    requires IsSchedule(pred, expected)
    ensures forall acts :: IsSchedule(pred, acts) <==> acts == expected
  {
    forall acts | IsSchedule(pred, acts) ensures acts == expected {
      ScheduleUnique(pred, acts, expected);
    }
  }

  /** Simple increasing prices: buy twice, exercise at the top. */
  lemma IncreasingThree()
    ensures forall acts :: IsSchedule([6, 7, 9], acts) <==> acts == [BO, BO, EX]
  {
    OnlySchedule([6, 7, 9], [BO, BO, EX]);
  }

  /** Two cycles: the first top at 9 is exercised, then the second 9 closes a new buy. */
  lemma TwoCycles()
    ensures forall acts :: IsSchedule([6, 7, 9, 6, 9, 9], acts) <==> acts == [BO, BO, EX, BO, EX, H]
  {
    OnlySchedule([6, 7, 9, 6, 9, 9], [BO, BO, EX, BO, EX, H]);
  }

  /** Flat prices give no opportunity. */
  lemma Flat()
    ensures forall acts :: IsSchedule([5, 5, 5], acts) <==> acts == [H, H, H]
  {
    assert Follows([5, 5, 5], [H, H, H], 0);
    assert Follows([5, 5, 5], [H, H, H], 1);
    assert Follows([5, 5, 5], [H, H, H], 2);
    OnlySchedule([5, 5, 5], [H, H, H]);
  }

  /** Decreasing prices give no opportunity. */
  lemma Decreasing()
    ensures forall acts :: IsSchedule([10, 8, 6, 4], acts) <==> acts == [H, H, H, H]
  {
    assert Follows([10, 8, 6, 4], [H, H, H, H], 0);
    assert Follows([10, 8, 6, 4], [H, H, H, H], 1);
    assert Follows([10, 8, 6, 4], [H, H, H, H], 2);
    assert OpenCount([H]) == 0;
    assert [H, H][..1] == [H] && OpenCount([H, H]) == 0;
    assert [H, H, H][..2] == [H, H] && OpenCount([H, H, H]) == 0;
    assert [H, H, H, H][..3] == [H, H, H];
    assert Follows([10, 8, 6, 4], [H, H, H, H], 3);
    OnlySchedule([10, 8, 6, 4], [H, H, H, H]);
  }

  /** Local maxima: 10 is not exercised at because 11 comes later. */
  lemma LocalMaxima()
    ensures forall acts :: IsSchedule([1, 10, 2, 11, 3], acts) <==> acts == [BO, H, BO, EX, H]
  {
    OnlySchedule([1, 10, 2, 11, 3], [BO, H, BO, EX, H]);
  }

  /** A single price can only be held. */
  lemma SinglePrice()
    ensures forall acts :: IsSchedule([5], acts) <==> acts == [H]
  {
    OnlySchedule([5], [H]);
  }

  /** Two prices three apart: buy, then exercise at the last step. */
  lemma TwoProfitable()
    ensures forall acts :: IsSchedule([5, 8], acts) <==> acts == [BO, EX]
  {
    OnlySchedule([5, 8], [BO, EX]);
  }

  /** Two prices one apart: a gain of 1 does not beat the premium of 1. */
  lemma TwoUnprofitable()
    ensures forall acts :: IsSchedule([5, 6], acts) <==> acts == [H, H]
  {
    assert Follows([5, 6], [H, H], 0);
    assert Follows([5, 6], [H, H], 1);
    OnlySchedule([5, 6], [H, H]);
  }

  /** A continuous increase. */
  lemma ContinuousIncrease()
    ensures forall acts :: IsSchedule([5, 10, 15], acts) <==> acts == [BO, BO, EX]
  {
    OnlySchedule([5, 10, 15], [BO, BO, EX]);
  }

  /** A large final jump: three buys, one exercise. */
  lemma LargeJump()
    ensures forall acts :: IsSchedule([1, 2, 3, 20], acts) <==> acts == [BO, BO, BO, EX]
  {
    OnlySchedule([1, 2, 3, 20], [BO, BO, BO, EX]);
  }
}
