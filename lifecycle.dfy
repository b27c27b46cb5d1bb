/** The lifecycle states of the architecture-components library and the rule updateState uses to
    derive the state marked on a view's owner. */
module Lifecycle {

  /** Lifecycle.State in the library's declaration order: DESTROYED is the LOWEST state and
      RESUMED the highest, which is what isAtLeast compares. */
  datatype State = DESTROYED | INITIALIZED | CREATED | STARTED | RESUMED

  /** Position of a state in the declaration order (its ordinal). */
  function Rank(s: State): nat
  {
    match s
    case DESTROYED => 0
    case INITIALIZED => 1
    case CREATED => 2
    case STARTED => 3
    case RESUMED => 4
  }

  /** Lifecycle.State.isAtLeast: compares ordinals. */
  predicate IsAtLeast(s: State, threshold: State)
  {
    Rank(s) >= Rank(threshold)
  }

  /** isAtLeast is a total order on the states, with DESTROYED at the bottom and RESUMED at the
      top. */
  lemma {:induction false} IsAtLeastTotalOrder(a: State, b: State, c: State)
    ensures IsAtLeast(a, a)
    ensures IsAtLeast(a, b) && IsAtLeast(b, a) ==> a == b
    ensures IsAtLeast(a, b) && IsAtLeast(b, c) ==> IsAtLeast(a, c)
    ensures IsAtLeast(a, b) || IsAtLeast(b, a)
    ensures IsAtLeast(a, DESTROYED) && IsAtLeast(RESUMED, a)
  {
  }

  /** The state View.updateState marks on the view's owner when asked for `requested`, for a view
      at navigation level `level` that is or is not displayed. */
  function MarkedState(requested: State, level: int, displayed: bool): (r: State)
    // never above the requested state
    ensures Rank(r) <= Rank(requested)
    // states below STARTED pass through untouched
    ensures !IsAtLeast(requested, STARTED) ==> r == requested
    // a started or resumed request is either honoured or clamped to CREATED
    ensures IsAtLeast(requested, STARTED) ==> r == requested || r == CREATED
    // and it is honoured exactly for displayed views at the outermost level
    ensures IsAtLeast(requested, STARTED) ==> (r == requested <==> level == 0 && displayed)
  {
    if !IsAtLeast(requested, STARTED) || (level == 0 && displayed) then requested else CREATED
  }

  /** A view nested in a navigation container, or one that is not on screen, never observes
      STARTED or RESUMED, whatever its screen's state. */
  lemma {:induction false} NestedOrHiddenStaysCreated(requested: State, level: int, displayed: bool)
    requires IsAtLeast(requested, STARTED)
    requires level != 0 || !displayed
    ensures MarkedState(requested, level, displayed) == CREATED
    ensures !IsAtLeast(MarkedState(requested, level, displayed), STARTED)
  {
  }

  /** Once a screen is at least CREATED, every view it updates is at least CREATED too: the clamp
      never drops a view below CREATED. */
  lemma {:induction false} MarkedStateKeepsCreated(requested: State, level: int, displayed: bool)
    requires IsAtLeast(requested, CREATED)
    ensures IsAtLeast(MarkedState(requested, level, displayed), CREATED)
  {
  }
}
