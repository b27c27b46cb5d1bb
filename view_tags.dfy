/** The per-view tag slots kept on a view (its owner, navigator flag and dispatchers in both
    revisions; the level in the earlier one only; the destroyed marker and companion in the later
    one only), held in one side table beside the tree, and the readers of those slots. */
module ViewTags {
  import opened Results
  import opened Lifecycle
  import opened ViewTree

  /** A ViewLifecycleOwner: an identity and the current state of its lifecycle. */
  datatype Owner = Owner(id: nat, state: State)

  /** The ViewCompanionFragment of a view, reduced to its `destroyed` flag. */
  datatype Companion = Companion(destroyed: bool)

  datatype Tags = Tags(
    owner: Option<Owner>,            // rawLifecycleOwner
    level: Option<int>,              // R.id.level
    navigator: bool,                 // R.id.viewGroup_navigator holds ViewGroupNavigator
    groupDispatcher: bool,           // viewGroupLifecycleDispatcher != null
    hierarchyDispatcher: bool,       // hierarchyLifecycleDispatcher != null
    destroyed: bool,                 // R.id.view_destroyed holds ViewDestroyed
    companion: Option<Companion>)    // ViewCompanionFragment.get(view)

  datatype DispatcherKind = ViewGroupDispatcher | HierarchyDispatcher

  /** A call of clear() on the dispatcher of the given kind held by `view`. */
  datatype Cleared = Cleared(view: ViewId, kind: DispatcherKind)

  /** The tag storage of all views of one tree. */
  class Views {
    const tree: WellFormedTree
    var tags: map<ViewId, Tags>
    /** Owners created so far; the next ViewLifecycleOwner gets this id. */
    var nextOwner: nat
    /** Every dispatcher clear() call, in order. */
    var cleared: seq<Cleared>
    /** The views destroy has handled, in the order it handled them. */
    ghost var visits: seq<ViewId>

    ghost predicate Valid()
      reads this`tags, this`nextOwner
    {
      tags.Keys == tree.views.Keys
      && forall v :: v in tags && tags[v].owner.Some? ==> tags[v].owner.value.id < nextOwner
    }

    constructor (tree: WellFormedTree, tags: map<ViewId, Tags>, nextOwner: nat)
      requires tags.Keys == tree.views.Keys
      requires forall v :: v in tags && tags[v].owner.Some? ==> tags[v].owner.value.id < nextOwner
      ensures Valid()
      ensures this.tree == tree && this.tags == tags && this.nextOwner == nextOwner
      ensures cleared == [] && visits == []
    {
      this.tree := tree;
      this.tags := tags;
      this.nextOwner := nextOwner;
      cleared := [];
      visits := [];
    }

    /** A lifecycle owner not held by any view. */
    ghost predicate FreshOwnerId(id: nat)
      reads this
    {
      forall v :: v in tags && tags[v].owner.Some? ==> tags[v].owner.value.id != id
    }
  }

  /** The tags after `rawLifecycleOwner?.lifecycle?.markState(state)`: the owner, if there is
      one, is in `state`; nothing else changes. */
  function MarkedOwner(tags: Tags, state: State): (r: Tags)
    ensures r.owner.Some? <==> tags.owner.Some?
    ensures r.owner.Some? ==> r.owner.value == tags.owner.value.(state := state)
    ensures r.(owner := tags.owner) == tags
  {
    match tags.owner
    case Some(o) => tags.(owner := Some(o.(state := state)))
    case None => tags
  }

  /** View.level: the level tag, or 0 when it was never set. */
  function Level(tags: Tags): int
  {
    match tags.level
    case Some(l) => l
    case None => 0
  }

  /** ViewGroup.isTrackingNavigation. */
  predicate IsTrackingNavigation(tags: Tags)
  {
    tags.navigator
  }

  /** The level getter reads 0 when the tag was never set and reads back what the setter stored;
      marking the owner's state does not move it. */
  lemma {:induction false} LevelReadsTag(tags: Tags, l: int, s: State)
    ensures tags.level.None? ==> Level(tags) == 0
    ensures Level(tags.(level := Some(l))) == l
    ensures Level(MarkedOwner(tags, s)) == Level(tags)
  {
  }

  /** isTrackingNavigation reads the navigator slot alone: storing the navigator reads back, and
      marking the owner or changing the level leaves it as it was. */
  lemma {:induction false} TrackingNavigationReadsSlot(tags: Tags, b: bool, l: int, s: State)
    ensures IsTrackingNavigation(tags.(navigator := b)) == b
    ensures IsTrackingNavigation(MarkedOwner(tags, s)) == IsTrackingNavigation(tags)
    ensures IsTrackingNavigation(tags.(level := Some(l))) == IsTrackingNavigation(tags)
  {
  }

  /** The provider View.viewModelProvider hands out: the one of the view's companion. */
  datatype ViewModelProvider = CompanionProvider(view: ViewId)

  /** View.viewModelProvider: refused unless the view has an owner that is at least CREATED. */
  function ViewModelProviderOf(v: ViewId, tags: Tags): (r: Result<ViewModelProvider>)
    ensures r.Ok? <==> tags.owner.Some? && IsAtLeast(tags.owner.value.state, CREATED)
    ensures r.Ok? ==> r.value == CompanionProvider(v)
    ensures r.Err? ==> r.failure == ViewModelProviderBeforeCreated
    // in particular: never for a view without an owner, nor for a destroyed or new owner
    ensures tags.owner.None? || tags.owner.value.state in {DESTROYED, INITIALIZED} ==> r.Err?
  {
    if tags.owner.None? || !IsAtLeast(tags.owner.value.state, CREATED) then
      Err(ViewModelProviderBeforeCreated)
    else
      Ok(CompanionProvider(v))
  }

  /** A displayed view whose level was never set mirrors the state it is asked for. */
  lemma {:induction false} UnleveledDisplayedMirrors(tags: Tags, view: View, requested: State)
    requires tags.level.None? && IsDisplayed(view)
    ensures MarkedState(requested, Level(tags), IsDisplayed(view)) == requested
  {
  }

  /** A view that is detached from the window or GONE is at most CREATED after updateState. */
  lemma {:induction false} HiddenViewAtMostCreated(tags: Tags, view: View, requested: State)
    requires !view.attachedToWindow || view.visibility == GONE
    ensures !IsAtLeast(MarkedState(requested, Level(tags), IsDisplayed(view)), STARTED)
  {
  }

  /** `rawLifecycleOwner?.lifecycle?.markState(state)` (forceMarkState in the later revision):
      the owner, if any, takes `state`. */
  method MarkOwnerState(h: Views, v: ViewId, state: State)
    requires h.Valid() && v in h.tree.views
    modifies h
    ensures h.Valid()
    ensures h.tags == old(h.tags)[v := MarkedOwner(old(h.tags[v]), state)]
    ensures h.nextOwner == old(h.nextOwner) && h.cleared == old(h.cleared) && h.visits == old(h.visits)
  {
    h.tags := h.tags[v := MarkedOwner(h.tags[v], state)];
  }
}
