/** The later revision of the lifecycle extensions: owners are attached lazily, dispatchers are
    attached from a posted block, destroy is guarded by a destroyed marker, the stem is computed
    from root, and view ids come from a wrapping counter. */
module ViewExtensions {
  import opened Results
  import opened Lifecycle
  import opened ViewTree
  import opened ViewTags

  // ---------------------------------------------------------------------------------------------
  // Owners and dispatchers

  /** View.attachLifecycleOwner: the owner the view already has, unchanged, or else a new one that
      is stored on the view; only in that second case is the destroyed marker removed, so that
      the re-owned view can be destroyed again. */
  method AttachLifecycleOwner(h: Views, v: ViewId) returns (o: Owner)
    requires h.Valid() && v in h.tree.views
    modifies h
    ensures h.Valid()
    ensures h.tags[v].owner == Some(o)
    ensures old(h.tags[v].owner).Some? ==>
              o == old(h.tags[v].owner.value) && h.tags == old(h.tags) && h.nextOwner == old(h.nextOwner)
    ensures old(h.tags[v].owner).None? ==>
              o == Owner(old(h.nextOwner), INITIALIZED) && old(h.FreshOwnerId(o.id))
              && h.tags == old(h.tags)[v := old(h.tags[v]).(owner := Some(o), destroyed := false)]
              && h.nextOwner == old(h.nextOwner) + 1
    ensures h.cleared == old(h.cleared) && h.visits == old(h.visits)
    ensures old(MarkedDestroyed(h.tags)) ==> MarkedDestroyed(h.tags)
  {
    var current := h.tags[v].owner;
    if current.Some? {
      return current.value;
    }
    h.tags := h.tags[v := h.tags[v].(destroyed := false)];
    o := Owner(h.nextOwner, INITIALIZED);
    h.tags := h.tags[v := h.tags[v].(owner := Some(o))];
    h.nextOwner := h.nextOwner + 1;
  }

  /** ViewGroup.trackNavigation: sets the navigator flag exactly when `track` holds. */
  method TrackNavigation(h: Views, v: ViewId, track: bool)
    requires h.Valid() && v in h.tree.views && h.tree.views[v].isGroup
    modifies h
    ensures h.Valid()
    ensures IsTrackingNavigation(h.tags[v]) == track
    ensures h.tags == old(h.tags)[v := old(h.tags[v]).(navigator := track)]
    ensures h.nextOwner == old(h.nextOwner) && h.cleared == old(h.cleared) && h.visits == old(h.visits)
    ensures old(MarkedDestroyed(h.tags)) ==> MarkedDestroyed(h.tags)
  {
    h.tags := h.tags[v := h.tags[v].(navigator := track)];
  }

  /** The synchronous part of ViewGroup.attachLifecycleDispatcher: nothing happens now; the result
      says whether the block that attaches the dispatcher is posted, which is exactly when the
      group has no view-group dispatcher yet. */
  method AttachLifecycleDispatcher(h: Views, v: ViewId) returns (posted: bool)
    requires h.Valid() && v in h.tree.views && h.tree.views[v].isGroup
    ensures posted <==> !h.tags[v].groupDispatcher
  {
    if h.tags[v].groupDispatcher {
      return false;
    }
    return true;
  }

  /** The block ViewGroup.attachLifecycleDispatcher posts: it makes sure the group has an owner
      (clearing the destroyed marker when it creates one), then gives it a view-group
      dispatcher. */
  method RunPostedDispatcherAttach(h: Views, v: ViewId)
    requires h.Valid() && v in h.tree.views && h.tree.views[v].isGroup
    modifies h
    ensures h.Valid()
    ensures h.tags[v].groupDispatcher && h.tags[v].owner.Some?
    ensures old(h.tags[v].owner).Some? ==>
              h.tags == old(h.tags)[v := old(h.tags[v]).(groupDispatcher := true)]
              && h.nextOwner == old(h.nextOwner)
    ensures old(h.tags[v].owner).None? ==>
              h.tags == old(h.tags)[v := old(h.tags[v]).(owner := Some(Owner(old(h.nextOwner), INITIALIZED)),
                                                         destroyed := false, groupDispatcher := true)]
              && h.nextOwner == old(h.nextOwner) + 1
    ensures h.cleared == old(h.cleared) && h.visits == old(h.visits)
    ensures old(MarkedDestroyed(h.tags)) ==> MarkedDestroyed(h.tags)
  {
    var _ := AttachLifecycleOwner(h, v);
    ghost var before := h.tags;
    h.tags := h.tags[v := h.tags[v].(groupDispatcher := true)];
    if old(MarkedDestroyed(h.tags)) {
      UpdateKeepsMarkedDestroyed(before, v, h.tags[v]);
    }
  }

  /** ViewGroup.detachLifecycleDispatcher: clears whichever dispatchers the group has, view-group
      dispatcher first. The dispatchers stay in their slots, so no tag changes and a later
      attachLifecycleDispatcher still finds one and posts nothing. */
  method DetachLifecycleDispatcher(h: Views, v: ViewId)
    requires h.Valid() && v in h.tree.views && h.tree.views[v].isGroup
    modifies h
    ensures h.Valid()
    ensures h.cleared == old(h.cleared)
                         + (if old(h.tags[v].groupDispatcher) then [Cleared(v, ViewGroupDispatcher)] else [])
                         + (if old(h.tags[v].hierarchyDispatcher) then [Cleared(v, HierarchyDispatcher)] else [])
    ensures h.tags == old(h.tags) && h.nextOwner == old(h.nextOwner) && h.visits == old(h.visits)
  {
    if h.tags[v].groupDispatcher {
      h.cleared := h.cleared + [Cleared(v, ViewGroupDispatcher)];
    }
    if h.tags[v].hierarchyDispatcher {
      h.cleared := h.cleared + [Cleared(v, HierarchyDispatcher)];
    }
  }

  // ---------------------------------------------------------------------------------------------
  // root and stem

  /** The group View.root returns: the end of the climb from the ViewGroup parent, or the failure
      when the view has no ViewGroup parent. */
  function RootOf(t: Tree, v: ViewId): (r: Result<ViewId>)
    requires WellFormed(t) && v in t.views
    ensures r.Err? <==> ParentGroup(t, v).None?
    ensures r.Err? ==> r.failure == NotAttachedToParent
  {
    match ParentGroup(t, v)
    case Some(p) => Ok(ClimbRoot(t, p))
    case None => Err(NotAttachedToParent)
  }

  /** The root is a group ancestor of the view whose own parent is not a ViewGroup with an
      activity; every group the climb passes above the parent has an activity. */
  lemma {:induction false} RootIsFirstStop(t: Tree, v: ViewId)
    requires WellFormed(t) && v in t.views
    ensures RootOf(t, v).Ok? ==>
              var r := RootOf(t, v).value;
              r in Ancestors(t, v) && t.views[r].isGroup
              && var p := ParentGroup(t, r); !(p.Some? && HasActivity(t, p.value))
    ensures RootOf(t, v).Ok? ==>
              var p := ParentGroup(t, v).value;
              forall j :: 0 < j <= ClimbCount(t, p) ==> HasActivity(t, Lineage(t, p)[j])
  {
    var parent := ParentGroup(t, v);
    if parent.Some? {
      var p := parent.value;
      var c := ClimbCount(t, p);
      ClimbRootIsFirstStop(t, p);
      LineageAt(t, p, c);
      LineageNext(t, p, c);
      LineageAt(t, v, 0);
      assert Ancestors(t, v) == Lineage(t, p);
    }
  }

  /** View.root: from the ViewGroup parent, climbs while the parent is a ViewGroup that has an
      activity; a view without a ViewGroup parent is an IllegalStateException. */
  method Root(t: Tree, v: ViewId) returns (r: Result<ViewId>)
    requires WellFormed(t) && v in t.views
    ensures r == RootOf(t, v)
  {
    var parent := ParentGroup(t, v);
    if parent.None? {
      return Err(NotAttachedToParent);
    }
    var p := parent.value;
    while ParentGroup(t, p).Some? && HasActivity(t, ParentGroup(t, p).value)
      invariant p in t.views
      invariant ClimbRoot(t, p) == ClimbRoot(t, parent.value)
      decreases t.depth[p]
    {
      ClimbStep(t, p);
      p := ParentGroup(t, p).value;
    }
    ClimbStep(t, p);
    return Ok(p);
  }

  /** The groups View.stem lists: the group ancestors from the parent up to and including the
      root, or the failure of root. */
  function StemOf(t: Tree, v: ViewId): (r: Result<seq<ViewId>>)
    requires WellFormed(t) && v in t.views
    ensures r.Err? <==> RootOf(t, v).Err?
  {
    match ParentGroup(t, v)
    case Some(p) => Ok(Lineage(t, p)[..ClimbCount(t, p) + 1])
    case None => Err(NotAttachedToParent)
  }

  /** View.stem: asks for root first (failing as root does), then walks the ViewGroup parents,
      adding each one and stopping after the root. */
  method Stem(t: Tree, v: ViewId) returns (r: Result<seq<ViewId>>)
    requires WellFormed(t) && v in t.views
    ensures r == StemOf(t, v)
  {
    var parents: seq<ViewId> := [];
    var p := ParentGroup(t, v);
    var root := Root(t, v);
    if root.Err? {
      return Err(root.failure);
    }
    ghost var line, c := Lineage(t, p.value), ClimbCount(t, p.value);
    ghost var k := 0;
    while p.Some?
      invariant 0 <= k <= c < |line|
      invariant p == Some(line[k])
      invariant parents == line[..k]
      decreases c - k
    {
      PrefixSnoc(line, k);
      parents := parents + [p.value];
      if p.value == root.value {
        if k < c {
          LineageDistinct(t, line[0], k, c);
        }
        assert parents == line[..c + 1];
        break;
      }
      LineageNext(t, line[0], k);
      p := ParentGroup(t, p.value);
      k := k + 1;
    }
    return Ok(parents);
  }

  /** The stem is the chain of group ancestors from the parent, nearest first, each the parent of
      the one before it, each once, ending at the root. */
  lemma {:induction false} StemClimbs(t: Tree, v: ViewId)
    requires WellFormed(t) && v in t.views
    ensures StemOf(t, v).Ok? ==>
              var s := StemOf(t, v).value;
              0 < |s| && s[0] == ParentGroup(t, v).value && s[|s| - 1] == RootOf(t, v).value
              && s <= Ancestors(t, v) && Distinct(s)
              && forall i :: 0 <= i < |s| - 1 ==> ParentGroup(t, s[i]) == Some(s[i + 1])
  {
    var parent := ParentGroup(t, v);
    if parent.Some? {
      var p := parent.value;
      var line, c := Lineage(t, p), ClimbCount(t, p);
      var s := line[..c + 1];
      forall i | 0 <= i < |s| - 1
        ensures ParentGroup(t, s[i]) == Some(s[i + 1])
      {
        LineageNext(t, p, i);
      }
      LineageIsDistinct(t, p);
      DistinctPrefix(line, c + 1);
      LineageAt(t, v, 0);
      assert Ancestors(t, v) == line;
    }
  }

  // ---------------------------------------------------------------------------------------------
  // destroy

  /** The companion after `ViewCompanionFragment.get(this)?.destroyed = true`. */
  function CompanionDestroyed(c: Option<Companion>): (r: Option<Companion>)
    ensures r.Some? <==> c.Some?
    ensures r.Some? ==> r.value.destroyed
  {
    match c
    case Some(fragment) => Some(fragment.(destroyed := true))
    case None => None
  }

  /** The tags of a view the later destroy handles: its owner, if any, DESTROYED, its companion's
      destroyed bit set, and the destroyed marker set; nothing else changes. */
  function DestroyedTags(tags: Tags): (r: Tags)
    ensures r.destroyed
    ensures r.owner.Some? <==> tags.owner.Some?
    ensures r.owner.Some? ==> r.owner.value == tags.owner.value.(state := DESTROYED)
    ensures r.companion.Some? <==> tags.companion.Some?
    ensures r.companion.Some? ==> r.companion.value.destroyed
    ensures r.(owner := tags.owner, companion := tags.companion, destroyed := tags.destroyed) == tags
  {
    MarkedOwner(tags, DESTROYED).(companion := CompanionDestroyed(tags.companion), destroyed := true)
  }

  /** The tags after the views of `s` are handled by destroy. */
  function DestroyedMarked(m: map<ViewId, Tags>, s: seq<ViewId>): (r: map<ViewId, Tags>)
    ensures r.Keys == m.Keys
  {
    map u | u in m :: if u in s then DestroyedTags(m[u]) else m[u]
  }

  /** The views the later destroy of `v` handles, in the order it handles them: nothing when `v`
      carries the destroyed marker, otherwise the children's handled views in child order and
      then `v`. */
  ghost function Pruned(t: Tree, m: map<ViewId, Tags>, v: ViewId): seq<ViewId>
    requires WellFormed(t) && v in t.views && m.Keys == t.views.Keys
    decreases t.height - t.depth[v], 1, 0
  {
    if m[v].destroyed then [] else PrunedChildren(t, m, v, |t.views[v].children|) + [v]
  }

  ghost function PrunedChildren(t: Tree, m: map<ViewId, Tags>, v: ViewId, k: nat): seq<ViewId>
    requires WellFormed(t) && v in t.views && m.Keys == t.views.Keys && k <= |t.views[v].children|
    decreases t.height - t.depth[v], 0, k
  {
    if k == 0 then []
    else
      assert ViewLinked(t, v) && ViewLinked(t, t.views[v].children[k - 1]);
      PrunedChildren(t, m, v, k - 1) + Pruned(t, m, t.views[v].children[k - 1])
  }

  /** The tags after the later destroy of `v`. */
  ghost function AfterDestroy(t: Tree, m: map<ViewId, Tags>, v: ViewId): map<ViewId, Tags>
    requires WellFormed(t) && v in t.views && m.Keys == t.views.Keys
  {
    DestroyedMarked(m, Pruned(t, m, v))
  }

  /** Destroying the views of `a` and then those of `b` handles the views of `a + b`. */
  lemma {:induction false} DestroyedMarkedCompose(m: map<ViewId, Tags>, a: seq<ViewId>, b: seq<ViewId>)
    ensures DestroyedMarked(DestroyedMarked(m, a), b) == DestroyedMarked(m, a + b)
  {
    forall u | u in m
      ensures DestroyedMarked(DestroyedMarked(m, a), b)[u] == DestroyedMarked(m, a + b)[u]
    {
      if u in a && u in b {
        assert DestroyedTags(DestroyedTags(m[u])) == DestroyedTags(m[u]);
      }
    }
  }

  /** destroy handles only views of the subtree. */
  lemma {:induction false} PrunedWithin(t: Tree, m: map<ViewId, Tags>, v: ViewId, u: ViewId)
    requires WellFormed(t) && v in t.views && m.Keys == t.views.Keys
    requires u in Pruned(t, m, v)
    ensures u in PostOrder(t, v)
    decreases t.height - t.depth[v], 1, 0
  {
    if u != v {
      PrunedChildrenWithin(t, m, v, |t.views[v].children|, u);
    }
  }

  lemma {:induction false} PrunedChildrenWithin(t: Tree, m: map<ViewId, Tags>, v: ViewId, k: nat, u: ViewId)
    requires WellFormed(t) && v in t.views && m.Keys == t.views.Keys && k <= |t.views[v].children|
    requires u in PrunedChildren(t, m, v, k)
    ensures u in ChildrenPostOrder(t, v, k)
    decreases t.height - t.depth[v], 0, k
  {
    var c := t.views[v].children[k - 1];
    assert ViewLinked(t, v) && ViewLinked(t, c);
    if u in PrunedChildren(t, m, v, k - 1) {
      PrunedChildrenWithin(t, m, v, k - 1, u);
    } else {
      PrunedWithin(t, m, c, u);
    }
  }

  /** The later destroy handles each view of the subtree at most once. */
  lemma {:induction false} PrunedDistinct(t: Tree, m: map<ViewId, Tags>, v: ViewId)
    requires WellFormed(t) && v in t.views && m.Keys == t.views.Keys
    ensures Distinct(Pruned(t, m, v))
    decreases t.height - t.depth[v], 1, 0
  {
    if !m[v].destroyed {
      var n := |t.views[v].children|;
      PrunedChildrenDistinct(t, m, v, n);
      forall x | x in [v]
        ensures x !in PrunedChildren(t, m, v, n)
      {
        if x in PrunedChildren(t, m, v, n) {
          PrunedChildrenWithin(t, m, v, n, x);
          ChildrenPostOrderBelow(t, v, n, x);
        }
      }
      DistinctConcat(PrunedChildren(t, m, v, n), [v]);
    }
  }

  lemma {:induction false} PrunedChildrenDistinct(t: Tree, m: map<ViewId, Tags>, v: ViewId, k: nat)
    requires WellFormed(t) && v in t.views && m.Keys == t.views.Keys && k <= |t.views[v].children|
    ensures Distinct(PrunedChildren(t, m, v, k))
    decreases t.height - t.depth[v], 0, k
  {
    if k > 0 {
      var c := t.views[v].children[k - 1];
      assert ViewLinked(t, v) && ViewLinked(t, c);
      PrunedChildrenDistinct(t, m, v, k - 1);
      PrunedDistinct(t, m, c);
      forall x | x in Pruned(t, m, c)
        ensures x !in PrunedChildren(t, m, v, k - 1)
      {
        PrunedWithin(t, m, c, x);
        SiblingsDisjoint(t, v, k - 1, x);
        if x in PrunedChildren(t, m, v, k - 1) {
          PrunedChildrenWithin(t, m, v, k - 1, x);
        }
      }
      DistinctConcat(PrunedChildren(t, m, v, k - 1), Pruned(t, m, c));
    }
  }

  /** What destroy handles in a subtree depends only on the markers inside that subtree. */
  lemma {:induction false} PrunedFrame(t: Tree, m0: map<ViewId, Tags>, m1: map<ViewId, Tags>, v: ViewId)
    requires WellFormed(t) && v in t.views && m0.Keys == t.views.Keys && m1.Keys == t.views.Keys
    requires forall u :: u in PostOrder(t, v) && u in m0 && u in m1 ==> m0[u].destroyed == m1[u].destroyed
    ensures Pruned(t, m0, v) == Pruned(t, m1, v)
    decreases t.height - t.depth[v], 1, 0
  {
    PrunedChildrenFrame(t, m0, m1, v, |t.views[v].children|);
  }

  lemma {:induction false} PrunedChildrenFrame(t: Tree, m0: map<ViewId, Tags>, m1: map<ViewId, Tags>, v: ViewId, k: nat)
    requires WellFormed(t) && v in t.views && m0.Keys == t.views.Keys && m1.Keys == t.views.Keys
    requires k <= |t.views[v].children|
    requires forall u :: u in ChildrenPostOrder(t, v, k) && u in m0 && u in m1 ==> m0[u].destroyed == m1[u].destroyed
    ensures PrunedChildren(t, m0, v, k) == PrunedChildren(t, m1, v, k)
    decreases t.height - t.depth[v], 0, k
  {
    if k > 0 {
      var c := t.views[v].children[k - 1];
      assert ViewLinked(t, v) && ViewLinked(t, c);
      PrunedChildrenFrame(t, m0, m1, v, k - 1);
      PrunedFrame(t, m0, m1, c);
    }
  }

  /** Handling the first `k` children's subtrees leaves the markers of child `k`'s subtree alone,
      so what destroy then handles below child `k` is what it would have handled up front. */
  lemma {:induction false} PrunedSiblingUntouched(t: Tree, m: map<ViewId, Tags>, v: ViewId, k: nat)
    requires WellFormed(t) && v in t.views && m.Keys == t.views.Keys && k < |t.views[v].children|
    ensures t.views[v].children[k] in t.views
    ensures Pruned(t, DestroyedMarked(m, PrunedChildren(t, m, v, k)), t.views[v].children[k])
         == Pruned(t, m, t.views[v].children[k])
  {
    var c := t.views[v].children[k];
    assert ViewLinked(t, v) && ViewLinked(t, c);
    var m1 := DestroyedMarked(m, PrunedChildren(t, m, v, k));
    forall u | u in PostOrder(t, c) && u in m && u in m1
      ensures m1[u].destroyed == m[u].destroyed
    {
      SiblingsDisjoint(t, v, k, u);
      if u in PrunedChildren(t, m, v, k) {
        PrunedChildrenWithin(t, m, v, k, u);
      }
    }
    PrunedFrame(t, m1, m, c);
  }

  /** Destroying an unmarked view handles its children's subtrees and then the view itself. */
  lemma {:induction false} AfterDestroyUnmarked(t: Tree, m: map<ViewId, Tags>, v: ViewId)
    requires WellFormed(t) && v in t.views && m.Keys == t.views.Keys && !m[v].destroyed
    ensures Pruned(t, m, v) == PrunedChildren(t, m, v, |t.views[v].children|) + [v]
    ensures AfterDestroy(t, m, v)
         == var m1 := DestroyedMarked(m, PrunedChildren(t, m, v, |t.views[v].children|));
            m1[v := DestroyedTags(m1[v])]
  {
    var m1 := DestroyedMarked(m, PrunedChildren(t, m, v, |t.views[v].children|));
    assert DestroyedMarked(m1, [v]) == m1[v := DestroyedTags(m1[v])];
    DestroyedMarkedCompose(m, PrunedChildren(t, m, v, |t.views[v].children|), [v]);
  }

  /** View.destroy in the later revision: a view that already carries the destroyed marker is
      left as it is, together with its whole subtree; otherwise the children's subtrees are
      destroyed in child order, then the view's owner is forced to DESTROYED, its companion
      fragment is flagged destroyed and the view takes the destroyed marker. The views handled
      are those of Pruned, each of the subtree (PrunedWithin) and each once (PrunedDistinct);
      the new tags keep MarkedDestroyed (DestroyKeepsMarkedDestroyed). */
  method Destroy(h: Views, v: ViewId)
    requires h.Valid() && v in h.tree.views
    modifies h
    ensures h.Valid()
    ensures h.tags == AfterDestroy(h.tree, old(h.tags), v)
    ensures h.visits == old(h.visits) + Pruned(h.tree, old(h.tags), v)
    ensures h.nextOwner == old(h.nextOwner) && h.cleared == old(h.cleared)
    decreases h.tree.height - h.tree.depth[v], 1
  {
    if h.tags[v].destroyed {
      assert DestroyedMarked(h.tags, []) == h.tags;
      return;
    }
    ChildrenOf(h.tree, v);
    if h.tree.views[v].isGroup {
      DestroyChildren(h, v);
    } else {
      assert DestroyedMarked(h.tags, []) == h.tags;
    }
    ghost var childrenDone := PrunedChildren(h.tree, old(h.tags), v, |h.tree.views[v].children|);
    AfterDestroyUnmarked(h.tree, old(h.tags), v);
    // forceMarkState(DESTROYED), the companion's destroyed flag and the destroyed marker
    h.tags := h.tags[v := DestroyedTags(h.tags[v])];
    AppendAssoc(old(h.visits), childrenDone, [v]);
    h.visits := h.visits + [v];
  }

  /** The loop of the later View.destroy over the children of a view group. */
  method DestroyChildren(h: Views, v: ViewId)
    requires h.Valid() && v in h.tree.views
    modifies h
    ensures h.Valid()
    ensures h.visits == old(h.visits) + PrunedChildren(h.tree, old(h.tags), v, |h.tree.views[v].children|)
    ensures h.tags == DestroyedMarked(old(h.tags), PrunedChildren(h.tree, old(h.tags), v, |h.tree.views[v].children|))
    ensures h.nextOwner == old(h.nextOwner) && h.cleared == old(h.cleared)
    decreases h.tree.height - h.tree.depth[v], 0
  {
    var children := h.tree.views[v].children;
    ChildrenOf(h.tree, v);
    assert DestroyedMarked(h.tags, []) == h.tags;
    var i := 0;
    while i < |children|
      invariant 0 <= i <= |children|
      invariant h.Valid()
      invariant h.visits == old(h.visits) + PrunedChildren(h.tree, old(h.tags), v, i)
      invariant h.tags == DestroyedMarked(old(h.tags), PrunedChildren(h.tree, old(h.tags), v, i))
      invariant h.nextOwner == old(h.nextOwner) && h.cleared == old(h.cleared)
    {
      ghost var done, next := PrunedChildren(h.tree, old(h.tags), v, i), Pruned(h.tree, old(h.tags), children[i]);
      DestroyChildStep(h.tree, old(h.tags), v, i);
      Destroy(h, children[i]);
      AppendAssoc(old(h.visits), done, next);
      i := i + 1;
    }
  }

  // ---------------------------------------------------------------------------------------------
  // What the later destroy guarantees

  /** A destroyed marker on a view is also on each of its children: what destroy leaves behind,
      since it marks every view it handles after the view's children. */
  ghost predicate MarkClosed(t: Tree, m: map<ViewId, Tags>)
    requires WellFormed(t) && m.Keys == t.views.Keys
  {
    forall p, c :: p in m && c in m && m[p].destroyed && c in t.views[p].children ==> m[c].destroyed
  }

  /** Under closed markers, every view of a marked view's subtree is marked. */
  lemma {:induction false} MarkedBelow(t: Tree, m: map<ViewId, Tags>, v: ViewId, u: ViewId)
    requires WellFormed(t) && v in t.views && m.Keys == t.views.Keys && MarkClosed(t, m)
    requires m[v].destroyed && u in PostOrder(t, v)
    ensures u in m && m[u].destroyed
    decreases t.height - t.depth[v], 1, 0
  {
    if u != v {
      ChildrenMarkedBelow(t, m, v, |t.views[v].children|, u);
    }
  }

  lemma {:induction false} ChildrenMarkedBelow(t: Tree, m: map<ViewId, Tags>, v: ViewId, k: nat, u: ViewId)
    requires WellFormed(t) && v in t.views && m.Keys == t.views.Keys && MarkClosed(t, m)
    requires m[v].destroyed && k <= |t.views[v].children| && u in ChildrenPostOrder(t, v, k)
    ensures u in m && m[u].destroyed
    decreases t.height - t.depth[v], 0, k
  {
    var c := t.views[v].children[k - 1];
    assert ViewLinked(t, v) && ViewLinked(t, c);
    if u in ChildrenPostOrder(t, v, k - 1) {
      ChildrenMarkedBelow(t, m, v, k - 1, u);
    } else {
      MarkedBelow(t, m, c, u);
    }
  }

  /** Under closed markers, each view of the subtree either carries the marker already or is
      handled by destroy. */
  lemma {:induction false} PrunedCovers(t: Tree, m: map<ViewId, Tags>, v: ViewId, u: ViewId)
    requires WellFormed(t) && v in t.views && m.Keys == t.views.Keys && MarkClosed(t, m)
    requires u in PostOrder(t, v)
    ensures u in m && (m[u].destroyed || u in Pruned(t, m, v))
    decreases t.height - t.depth[v], 1, 0
  {
    if m[v].destroyed {
      MarkedBelow(t, m, v, u);
    } else if u != v {
      ChildrenPrunedCovers(t, m, v, |t.views[v].children|, u);
    }
  }

  lemma {:induction false} ChildrenPrunedCovers(t: Tree, m: map<ViewId, Tags>, v: ViewId, k: nat, u: ViewId)
    requires WellFormed(t) && v in t.views && m.Keys == t.views.Keys && MarkClosed(t, m)
    requires k <= |t.views[v].children| && u in ChildrenPostOrder(t, v, k)
    ensures u in m && (m[u].destroyed || u in PrunedChildren(t, m, v, k))
    decreases t.height - t.depth[v], 0, k
  {
    var c := t.views[v].children[k - 1];
    assert ViewLinked(t, v) && ViewLinked(t, c);
    if u in ChildrenPostOrder(t, v, k - 1) {
      ChildrenPrunedCovers(t, m, v, k - 1, u);
    } else {
      PrunedCovers(t, m, c, u);
    }
  }

  /** After the later destroy of `v` with closed markers, every view of the subtree carries the
      destroyed marker; every view destroy handled has a DESTROYED owner (if any) and a
      destroyed companion (if any); every other view keeps its tags. */
  lemma {:induction false} DestroyMarksSubtree(t: Tree, m: map<ViewId, Tags>, v: ViewId)
    requires WellFormed(t) && v in t.views && m.Keys == t.views.Keys && MarkClosed(t, m)
    ensures forall u :: u in PostOrder(t, v) ==> u in AfterDestroy(t, m, v) && AfterDestroy(t, m, v)[u].destroyed
    ensures forall u :: u in Pruned(t, m, v) ==> u in m && AfterDestroy(t, m, v)[u] == DestroyedTags(m[u])
    ensures forall u :: u in m && u !in Pruned(t, m, v) ==> AfterDestroy(t, m, v)[u] == m[u]
    ensures forall u :: u in m && u !in PostOrder(t, v) ==> AfterDestroy(t, m, v)[u] == m[u]
  {
    forall u | u in PostOrder(t, v)
      ensures u in AfterDestroy(t, m, v) && AfterDestroy(t, m, v)[u].destroyed
    {
      PrunedCovers(t, m, v, u);
    }
    forall u | u in Pruned(t, m, v)
      ensures u in PostOrder(t, v)
    {
      PrunedWithin(t, m, v, u);
    }
  }

  /** A second destroy of the same view changes nothing and handles nothing: the view carries the
      destroyed marker after the first. */
  lemma {:induction false} DestroyIdempotent(t: Tree, m: map<ViewId, Tags>, v: ViewId)
    requires WellFormed(t) && v in t.views && m.Keys == t.views.Keys
    ensures AfterDestroy(t, m, v)[v].destroyed
    ensures Pruned(t, AfterDestroy(t, m, v), v) == []
    ensures AfterDestroy(t, AfterDestroy(t, m, v), v) == AfterDestroy(t, m, v)
  {
    if !m[v].destroyed {
      AfterDestroyUnmarked(t, m, v);
    }
    assert DestroyedMarked(AfterDestroy(t, m, v), []) == AfterDestroy(t, m, v);
  }

  /** Destroy keeps the markers closed downward. */
  lemma {:induction false} DestroyKeepsMarkClosed(t: Tree, m: map<ViewId, Tags>, v: ViewId)
    requires WellFormed(t) && v in t.views && m.Keys == t.views.Keys && MarkClosed(t, m)
    ensures MarkClosed(t, AfterDestroy(t, m, v))
  {
    var m1 := AfterDestroy(t, m, v);
    DestroyMarksSubtree(t, m, v);
    forall p, c | p in m1 && c in m1 && m1[p].destroyed && c in t.views[p].children
      ensures m1[c].destroyed
    {
      if !m[p].destroyed {
        // p was handled, so it lies in the subtree of v, and so does its child c
        PrunedWithin(t, m, v, p);
        PostOrderChild(t, v, p, c);
      }
    }
  }

  // ---------------------------------------------------------------------------------------------
  // Destroyed views refuse view models

  /** Every view carrying the destroyed marker has no owner or a DESTROYED one: the marker is set
      only together with forceMarkState(DESTROYED), and attaching a new owner removes it. */
  ghost predicate MarkedDestroyed(m: map<ViewId, Tags>)
  {
    forall u :: u in m && m[u].destroyed ==> m[u].owner.None? || m[u].owner.value.state == DESTROYED
  }

  /** Replacing one view's tags keeps the property when the new tags satisfy it themselves. */
  lemma {:induction false} UpdateKeepsMarkedDestroyed(m: map<ViewId, Tags>, v: ViewId, tags: Tags)
    requires MarkedDestroyed(m)
    requires tags.destroyed ==> tags.owner.None? || tags.owner.value.state == DESTROYED
    ensures MarkedDestroyed(m[v := tags])
  {
    var m1 := m[v := tags];
    forall u | u in m1 && m1[u].destroyed
      ensures m1[u].owner.None? || m1[u].owner.value.state == DESTROYED
    {
      if u != v {
        assert m1[u] == m[u];
      }
    }
  }

  /** One iteration of the child loop: destroying child `k` after its earlier siblings handles
      exactly the views PrunedChildren adds for it. */
  lemma {:induction false} DestroyChildStep(t: Tree, m: map<ViewId, Tags>, v: ViewId, k: nat)
    requires WellFormed(t) && v in t.views && m.Keys == t.views.Keys && k < |t.views[v].children|
    ensures t.views[v].children[k] in t.views
    ensures PrunedChildren(t, m, v, k + 1) == PrunedChildren(t, m, v, k) + Pruned(t, m, t.views[v].children[k])
    ensures var c := t.views[v].children[k];
            var m1 := DestroyedMarked(m, PrunedChildren(t, m, v, k));
            Pruned(t, m1, c) == Pruned(t, m, c)
            && AfterDestroy(t, m1, c) == DestroyedMarked(m, PrunedChildren(t, m, v, k + 1))
  {
    var c := t.views[v].children[k];
    assert ViewLinked(t, v) && ViewLinked(t, c);
    PrunedSiblingUntouched(t, m, v, k);
    DestroyedMarkedCompose(m, PrunedChildren(t, m, v, k), Pruned(t, m, c));
  }

  /** The later destroy keeps marked views' owners DESTROYED. */
  lemma {:induction false} DestroyKeepsMarkedDestroyed(t: Tree, m: map<ViewId, Tags>, v: ViewId)
    requires WellFormed(t) && v in t.views && m.Keys == t.views.Keys && MarkedDestroyed(m)
    ensures MarkedDestroyed(AfterDestroy(t, m, v))
  {
    var m1 := AfterDestroy(t, m, v);
    forall u | u in m1 && m1[u].destroyed
      ensures m1[u].owner.None? || m1[u].owner.value.state == DESTROYED
    {
      if u in Pruned(t, m, v) {
        assert m1[u] == DestroyedTags(m[u]);
      } else {
        assert m1[u] == m[u];
      }
    }
  }

  /** After the later destroy of `v`, with closed markers whose owners are DESTROYED, no view of
      the subtree hands out a ViewModelProvider, and the markers stay as they were promised. */
  lemma {:induction false} DestroyRefusesViewModels(t: Tree, m: map<ViewId, Tags>, v: ViewId)
    requires WellFormed(t) && v in t.views && m.Keys == t.views.Keys
    requires MarkClosed(t, m) && MarkedDestroyed(m)
    ensures forall u :: u in PostOrder(t, v) ==>
              u in AfterDestroy(t, m, v) && ViewModelProviderOf(u, AfterDestroy(t, m, v)[u]).Err?
    ensures MarkClosed(t, AfterDestroy(t, m, v)) && MarkedDestroyed(AfterDestroy(t, m, v))
  {
    DestroyMarksSubtree(t, m, v);
    DestroyKeepsMarkedDestroyed(t, m, v);
    DestroyKeepsMarkClosed(t, m, v);
  }
}
