/** The fallback view-id generator of the later revision: a shared counter that hands out ids
    1, 2, ..., 16777215 and then starts again at 1. */
module ViewIds {
  /** The largest id handed out before the counter starts again at 1. */
  const MaxId: int := 16777215

  /** The counter value after `x` is handed out. */
  function Advance(x: int): (r: int)
    requires 1 <= x <= MaxId
    ensures 1 <= r <= MaxId
    ensures x < MaxId ==> r == x + 1
    ensures x == MaxId ==> r == 1
  {
    if x + 1 > MaxId then 1 else x + 1
  }

  /** The counter value after `j` ids were handed out, starting from `x`. */
  function AdvanceBy(x: int, j: nat): (r: int)
    requires 1 <= x <= MaxId
    ensures 1 <= r <= MaxId
  {
    if j == 0 then x else Advance(AdvanceBy(x, j - 1))
  }

  /** Within one period the `j`-th id from `x` is `x + j`, wrapped once past MaxId. */
  lemma {:induction false} AdvanceByWraps(x: int, j: nat)
    requires 1 <= x <= MaxId && j < MaxId
    ensures AdvanceBy(x, j) == if x + j <= MaxId then x + j else x + j - MaxId
  {
    if j > 0 {
      AdvanceByWraps(x, j - 1);
    }
  }

  /** The counter comes back to where it started after exactly MaxId ids. */
  lemma {:induction false} PeriodIsMaxId(x: int)
    requires 1 <= x <= MaxId
    ensures AdvanceBy(x, MaxId) == x
  {
    AdvanceByWraps(x, MaxId - 1);
  }

  /** Any MaxId successive ids are pairwise distinct. */
  lemma {:induction false} DistinctWithinPeriod(x: int, i: nat, j: nat)
    requires 1 <= x <= MaxId && i < j < MaxId
    ensures AdvanceBy(x, i) != AdvanceBy(x, j)
  {
    AdvanceByWraps(x, i);
    AdvanceByWraps(x, j);
  }

  /** sNextGeneratedId and generateViewId on platforms without View.generateViewId. */
  class IdGenerator {
    var next: int

    ghost predicate Valid()
      reads this
    {
      1 <= next <= MaxId
    }

    constructor ()
      ensures Valid() && next == 1
    {
      next := 1;
    }

    /** Hands out the current counter value and advances the counter, wrapping past MaxId. */
    method Generate() returns (id: int)
      requires Valid()
      modifies this
      ensures Valid()
      ensures id == old(next) && next == Advance(id)
      ensures 1 <= id <= MaxId
    {
      var result := next;
      var newValue := result + 1;
      if newValue > MaxId {
        newValue := 1;
      }
      next := newValue;
      id := result;
    }
  }
}
