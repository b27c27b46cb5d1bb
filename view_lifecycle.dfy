/** The earlier revision of the lifecycle extensions: owners and dispatchers are attached eagerly,
    destroy walks the whole subtree every time, and stems are computed from safeRoot. */
module ViewLifecycle {
  import opened Results
  import opened Lifecycle
  import opened ViewTree
  import opened ViewTags

  /** The tags of a view once it holds an owner: the one it had, or a new INITIALIZED owner with
      id `next`. */
  function WithOwner(tags: Tags, next: nat): (r: Tags)
    ensures r.owner.Some?
    ensures tags.owner.Some? ==> r == tags
    ensures tags.owner.None? ==> r == tags.(owner := Some(Owner(next, INITIALIZED)))
  {
    if tags.owner.Some? then tags else tags.(owner := Some(Owner(next, INITIALIZED)))
  }

  /** View.attachLifecycleOwner: the owner the view already has, unchanged, or else a new one that
      is stored on the view and that every later call returns. */
  method AttachLifecycleOwner(h: Views, v: ViewId) returns (o: Owner)
    requires h.Valid() && v in h.tree.views
    modifies h
    ensures h.Valid()
    ensures h.tags[v].owner == Some(o)
    ensures old(h.tags[v].owner).Some? ==>
              o == old(h.tags[v].owner.value) && h.tags == old(h.tags) && h.nextOwner == old(h.nextOwner)
    ensures old(h.tags[v].owner).None? ==>
              o == Owner(old(h.nextOwner), INITIALIZED) && old(h.FreshOwnerId(o.id))
              && h.tags == old(h.tags)[v := old(h.tags[v]).(owner := Some(o))]
              && h.nextOwner == old(h.nextOwner) + 1
    ensures h.cleared == old(h.cleared) && h.visits == old(h.visits)
  {
    var current := h.tags[v].owner;
    if current.Some? {
      return current.value;
    }
    o := Owner(h.nextOwner, INITIALIZED);
    h.tags := h.tags[v := h.tags[v].(owner := Some(o))];
    h.nextOwner := h.nextOwner + 1;
  }

  /** View.detachLifecycleOwner: the view no longer holds an owner. */
  method DetachLifecycleOwner(h: Views, v: ViewId)
    requires h.Valid() && v in h.tree.views
    modifies h
    ensures h.Valid()
    ensures h.tags == old(h.tags)[v := old(h.tags[v]).(owner := None)]
    ensures h.nextOwner == old(h.nextOwner) && h.cleared == old(h.cleared) && h.visits == old(h.visits)
  {
    h.tags := h.tags[v := h.tags[v].(owner := None)];
  }

  /** ViewGroup.attachViewGroupLifecycleDispatcher: nothing when the group already has a
      dispatcher; otherwise it makes sure the group has an owner, then gives it a dispatcher. */
  method AttachViewGroupLifecycleDispatcher(h: Views, v: ViewId)
    requires h.Valid() && v in h.tree.views && h.tree.views[v].isGroup
    modifies h
    ensures h.Valid()
    ensures h.tags[v].groupDispatcher
    ensures !old(h.tags[v].groupDispatcher) ==> h.tags[v].owner.Some?
    ensures old(h.tags[v].groupDispatcher) ==> h.tags == old(h.tags) && h.nextOwner == old(h.nextOwner)
    ensures !old(h.tags[v].groupDispatcher) ==>
              h.tags == old(h.tags)[v := WithOwner(old(h.tags[v]), old(h.nextOwner)).(groupDispatcher := true)]
              && h.nextOwner == old(h.nextOwner) + (if old(h.tags[v].owner).None? then 1 else 0)
    ensures h.cleared == old(h.cleared) && h.visits == old(h.visits)
  {
    if h.tags[v].groupDispatcher {
      return;
    }
    var _ := AttachLifecycleOwner(h, v);
    h.tags := h.tags[v := h.tags[v].(groupDispatcher := true)];
  }

  /** ViewGroup.detachViewGroupLifecycleDispatcher: clears the group's dispatcher, if it has one,
      and drops it. */
  method DetachViewGroupLifecycleDispatcher(h: Views, v: ViewId)
    requires h.Valid() && v in h.tree.views && h.tree.views[v].isGroup
    modifies h
    ensures h.Valid()
    ensures !h.tags[v].groupDispatcher
    ensures old(h.tags[v].groupDispatcher) ==>
              h.cleared == old(h.cleared) + [Cleared(v, ViewGroupDispatcher)]
              && h.tags == old(h.tags)[v := old(h.tags[v]).(groupDispatcher := false)]
    ensures !old(h.tags[v].groupDispatcher) ==> h.cleared == old(h.cleared) && h.tags == old(h.tags)
    ensures h.nextOwner == old(h.nextOwner) && h.visits == old(h.visits)
  {
    if h.tags[v].groupDispatcher {
      h.cleared := h.cleared + [Cleared(v, ViewGroupDispatcher)];
      h.tags := h.tags[v := h.tags[v].(groupDispatcher := false)];
    }
  }

  /** ViewGroup.attachHierarchyLifecycleDispatcher: as for the view-group dispatcher, with the
      hierarchy dispatcher slot. */
  method AttachHierarchyLifecycleDispatcher(h: Views, v: ViewId)
    requires h.Valid() && v in h.tree.views && h.tree.views[v].isGroup
    modifies h
    ensures h.Valid()
    ensures h.tags[v].hierarchyDispatcher
    ensures !old(h.tags[v].hierarchyDispatcher) ==> h.tags[v].owner.Some?
    ensures old(h.tags[v].hierarchyDispatcher) ==> h.tags == old(h.tags) && h.nextOwner == old(h.nextOwner)
    ensures !old(h.tags[v].hierarchyDispatcher) ==>
              h.tags == old(h.tags)[v := WithOwner(old(h.tags[v]), old(h.nextOwner)).(hierarchyDispatcher := true)]
              && h.nextOwner == old(h.nextOwner) + (if old(h.tags[v].owner).None? then 1 else 0)
    ensures h.cleared == old(h.cleared) && h.visits == old(h.visits)
  {
    if h.tags[v].hierarchyDispatcher {
      return;
    }
    var _ := AttachLifecycleOwner(h, v);
    h.tags := h.tags[v := h.tags[v].(hierarchyDispatcher := true)];
  }

  /** ViewGroup.detachHierarchyLifecycleDispatcher. */
  method DetachHierarchyLifecycleDispatcher(h: Views, v: ViewId)
    requires h.Valid() && v in h.tree.views && h.tree.views[v].isGroup
    modifies h
    ensures h.Valid()
    ensures !h.tags[v].hierarchyDispatcher
    ensures old(h.tags[v].hierarchyDispatcher) ==>
              h.cleared == old(h.cleared) + [Cleared(v, HierarchyDispatcher)]
              && h.tags == old(h.tags)[v := old(h.tags[v]).(hierarchyDispatcher := false)]
    ensures !old(h.tags[v].hierarchyDispatcher) ==> h.cleared == old(h.cleared) && h.tags == old(h.tags)
    ensures h.nextOwner == old(h.nextOwner) && h.visits == old(h.visits)
  {
    if h.tags[v].hierarchyDispatcher {
      h.cleared := h.cleared + [Cleared(v, HierarchyDispatcher)];
      h.tags := h.tags[v := h.tags[v].(hierarchyDispatcher := false)];
    }
  }

  /** The synchronous part of View.ensureParentLifecycleDispatcherAttached: a view that has a
      parent gives a ViewGroup parent a view-group dispatcher. A view without a parent defers the
      same step to its first layout, which is not modelled here. */
  method EnsureParentLifecycleDispatcherAttached(h: Views, v: ViewId)
    requires h.Valid() && v in h.tree.views
    modifies h
    ensures h.Valid()
    ensures ParentGroup(h.tree, v).None? ==> h.tags == old(h.tags) && h.nextOwner == old(h.nextOwner)
    ensures ParentGroup(h.tree, v).Some? ==>
              var p := ParentGroup(h.tree, v).value;
              h.tags[p].groupDispatcher
              && (old(h.tags[p].groupDispatcher) ==> h.tags == old(h.tags) && h.nextOwner == old(h.nextOwner))
              && (!old(h.tags[p].groupDispatcher) ==>
                    h.tags[p].owner.Some? && h.tags == old(h.tags)[p := WithOwner(old(h.tags[p]), old(h.nextOwner)).(groupDispatcher := true)])
    ensures h.cleared == old(h.cleared) && h.visits == old(h.visits)
  {
    var parent := ParentGroup(h.tree, v);
    if parent.Some? {
      AttachViewGroupLifecycleDispatcher(h, parent.value);
    }
  }

  /** ViewGroup.trackNavigation: sets the navigator flag exactly when `track` holds, and when it
      does, makes sure a ViewGroup parent dispatches lifecycle to its children. */
  method TrackNavigation(h: Views, v: ViewId, track: bool)
    requires h.Valid() && v in h.tree.views && h.tree.views[v].isGroup
    modifies h
    ensures h.Valid()
    ensures IsTrackingNavigation(h.tags[v]) == track
    ensures !track ==> h.tags == old(h.tags)[v := old(h.tags[v]).(navigator := false)]
                       && h.nextOwner == old(h.nextOwner)
    ensures track && ParentGroup(h.tree, v).None? ==>
              h.tags == old(h.tags)[v := old(h.tags[v]).(navigator := true)] && h.nextOwner == old(h.nextOwner)
    ensures track && ParentGroup(h.tree, v).Some? ==>
              var p := ParentGroup(h.tree, v).value;
              h.tags[p].groupDispatcher
              && (old(h.tags[p].groupDispatcher) ==>
                    h.tags == old(h.tags)[v := old(h.tags[v]).(navigator := true)] && h.nextOwner == old(h.nextOwner))
              && (!old(h.tags[p].groupDispatcher) ==>
                    h.tags[p].owner.Some? && h.tags == old(h.tags)[v := old(h.tags[v]).(navigator := true)]
                                         [p := WithOwner(old(h.tags[p]), old(h.nextOwner)).(groupDispatcher := true)])
    ensures h.cleared == old(h.cleared) && h.visits == old(h.visits)
  {
    h.tags := h.tags[v := h.tags[v].(navigator := track)];
    if track {
      EnsureParentLifecycleDispatcherAttached(h, v);
    }
  }

  /** The View.level setter. */
  method SetLevel(h: Views, v: ViewId, level: int)
    requires h.Valid() && v in h.tree.views
    modifies h
    ensures h.Valid()
    ensures Level(h.tags[v]) == level
    ensures h.tags == old(h.tags)[v := old(h.tags[v]).(level := Some(level))]
    ensures h.nextOwner == old(h.nextOwner) && h.cleared == old(h.cleared) && h.visits == old(h.visits)
  {
    h.tags := h.tags[v := h.tags[v].(level := Some(level))];
  }

  /** View.updateState: marks MarkedState(state, level, isDisplayed) on the view's owner; a view
      without an owner is left alone. */
  method UpdateState(h: Views, v: ViewId, state: State)
    requires h.Valid() && v in h.tree.views
    modifies h
    ensures h.Valid()
    ensures h.tags == old(h.tags)[v := MarkedOwner(old(h.tags[v]),
                                     MarkedState(state, Level(old(h.tags[v])), IsDisplayed(h.tree.views[v])))]
    ensures h.nextOwner == old(h.nextOwner) && h.cleared == old(h.cleared) && h.visits == old(h.visits)
  {
    var tags := h.tags[v];
    if !IsAtLeast(state, STARTED) || (Level(tags) == 0 && IsDisplayed(h.tree.views[v])) {
      MarkOwnerState(h, v, state);
    } else {
      MarkOwnerState(h, v, CREATED);
    }
  }

  /** The tags after the owners of the views in `s` are marked DESTROYED. */
  function DestroyedAll(tags: map<ViewId, Tags>, s: seq<ViewId>): (r: map<ViewId, Tags>)
    ensures r.Keys == tags.Keys
  {
    map u | u in tags :: if u in s then MarkedOwner(tags[u], DESTROYED) else tags[u]
  }

  /** Marking the views of `a` and then those of `b` destroyed marks the views of `a + b`. */
  lemma {:induction false} DestroyedCompose(m: map<ViewId, Tags>, a: seq<ViewId>, b: seq<ViewId>)
    ensures DestroyedAll(DestroyedAll(m, a), b) == DestroyedAll(m, a + b)
  {
    forall u | u in m
      ensures DestroyedAll(DestroyedAll(m, a), b)[u] == DestroyedAll(m, a + b)[u]
    {
      if u in a && u in b {
        assert MarkedOwner(MarkedOwner(m[u], DESTROYED), DESTROYED) == MarkedOwner(m[u], DESTROYED);
      }
    }
  }

  /** View.destroy: destroys the children's subtrees in child order, then marks the view's own
      owner DESTROYED, so the views are handled in post-order, each exactly once
      (ViewTree.PostOrderDistinct), and afterwards no view of the subtree hands out a
      ViewModelProvider. */
  method Destroy(h: Views, v: ViewId)
    requires h.Valid() && v in h.tree.views
    modifies h
    ensures h.Valid()
    ensures h.visits == old(h.visits) + PostOrder(h.tree, v)
    ensures h.tags == DestroyedAll(old(h.tags), PostOrder(h.tree, v))
    ensures h.nextOwner == old(h.nextOwner) && h.cleared == old(h.cleared)
    decreases h.tree.height - h.tree.depth[v], 1
  {
    ChildrenOf(h.tree, v);
    if h.tree.views[v].isGroup {
      DestroyChildren(h, v);
    } else {
      assert DestroyedAll(h.tags, []) == h.tags;
    }
    ghost var childrenDone := ChildrenPostOrder(h.tree, v, |h.tree.views[v].children|);
    ghost var before := h.tags;
    MarkOwnerState(h, v, DESTROYED);
    assert DestroyedAll(before, [v]) == before[v := MarkedOwner(before[v], DESTROYED)];
    DestroyedCompose(old(h.tags), childrenDone, [v]);
    AppendAssoc(old(h.visits), childrenDone, [v]);
    h.visits := h.visits + [v];
  }

  /** The loop of View.destroy over the children of a view group. */
  method DestroyChildren(h: Views, v: ViewId)
    requires h.Valid() && v in h.tree.views
    modifies h
    ensures h.Valid()
    ensures h.visits == old(h.visits) + ChildrenPostOrder(h.tree, v, |h.tree.views[v].children|)
    ensures h.tags == DestroyedAll(old(h.tags), ChildrenPostOrder(h.tree, v, |h.tree.views[v].children|))
    ensures h.nextOwner == old(h.nextOwner) && h.cleared == old(h.cleared)
    decreases h.tree.height - h.tree.depth[v], 0
  {
    var children := h.tree.views[v].children;
    ChildrenOf(h.tree, v);
    var i := 0;
    while i < |children|
      invariant 0 <= i <= |children|
      invariant h.Valid()
      invariant h.visits == old(h.visits) + ChildrenPostOrder(h.tree, v, i)
      invariant h.tags == DestroyedAll(old(h.tags), ChildrenPostOrder(h.tree, v, i))
      invariant h.nextOwner == old(h.nextOwner) && h.cleared == old(h.cleared)
    {
      ghost var done, next := ChildrenPostOrder(h.tree, v, i), PostOrder(h.tree, children[i]);
      Destroy(h, children[i]);
      DestroyedCompose(old(h.tags), done, next);
      AppendAssoc(old(h.visits), done, next);
      i := i + 1;
    }
  }

  /** Once the views of a subtree are destroyed, none of them hands out a ViewModelProvider. */
  lemma {:induction false} DestroyedRefuseViewModels(t: Tree, t0: map<ViewId, Tags>, t1: map<ViewId, Tags>, v: ViewId)
    requires WellFormed(t) && v in t.views && t0.Keys == t.views.Keys && t1.Keys == t0.Keys
    requires t1 == DestroyedAll(t0, PostOrder(t, v))
    ensures forall u :: u in PostOrder(t, v) ==> u in t1 && ViewModelProviderOf(u, t1[u]).Err?
  {
    forall u | u in PostOrder(t, v)
      ensures u in t1 && ViewModelProviderOf(u, t1[u]).Err?
    {
      PostOrderBelow(t, v, u);
    }
  }

  // ---------------------------------------------------------------------------------------------
  // safeRoot, innerStem, fullStem

  /** Where safeRoot starts climbing: the view itself when it is a ViewGroup with a parent of any
      kind, otherwise its ViewGroup parent, if any. */
  function SafeRootStart(t: Tree, v: ViewId): (r: Option<ViewId>)
    requires WellFormed(t) && v in t.views
    ensures r.Some? ==> r.value in t.views && t.views[r.value].isGroup
    ensures r.Some? ==> r.value == v || t.views[v].parent == GroupParent(r.value)
    ensures r.None? <==> t.views[v].parent.NoParent? || (t.views[v].parent.ViewRoot? && !t.views[v].isGroup)
  {
    if t.views[v].isGroup && !t.views[v].parent.NoParent? then Some(v)
    else ParentGroup(t, v)
  }

  /** The view group safeRoot returns: the end of the climb from SafeRootStart. */
  function SafeRootOf(t: Tree, v: ViewId): (r: Option<ViewId>)
    requires WellFormed(t) && v in t.views
  {
    match SafeRootStart(t, v)
    case Some(s) => Some(ClimbRoot(t, s))
    case None => None
  }

  /** The safe root is a group on the lineage of the view whose own parent is not a ViewGroup with
      an activity, and every group the climb passes above the start has an activity. */
  lemma {:induction false} SafeRootIsFirstStop(t: Tree, v: ViewId)
    requires WellFormed(t) && v in t.views
    ensures SafeRootOf(t, v).None? <==> SafeRootStart(t, v).None?
    ensures SafeRootOf(t, v).Some? ==>
              var r := SafeRootOf(t, v).value;
              r in Lineage(t, v) && t.views[r].isGroup
              && var p := ParentGroup(t, r); !(p.Some? && HasActivity(t, p.value))
    ensures SafeRootOf(t, v).Some? ==>
              var s := SafeRootStart(t, v).value;
              forall j :: 0 < j <= ClimbCount(t, s) ==> HasActivity(t, Lineage(t, s)[j])
  {
    var start := SafeRootStart(t, v);
    if start.Some? {
      var s := start.value;
      var c := ClimbCount(t, s);
      ClimbRootIsFirstStop(t, s);
      LineageAt(t, s, c);
      LineageNext(t, s, c);
      if s != v {
        LineageAt(t, v, 0);
        assert Lineage(t, v) == [v] + Lineage(t, s);
      }
      assert Lineage(t, s)[c] in Lineage(t, v);
    }
  }

  /** View.safeRoot: climbs from SafeRootStart while the parent is a ViewGroup that has an
      activity. */
  method SafeRoot(t: Tree, v: ViewId) returns (r: Option<ViewId>)
    requires WellFormed(t) && v in t.views
    ensures r == SafeRootOf(t, v)
  {
    var start := SafeRootStart(t, v);
    r := start;
    while r.Some? && ParentGroup(t, r.value).Some? && HasActivity(t, ParentGroup(t, r.value).value)
      invariant r.Some? <==> start.Some?
      invariant r.Some? ==> r.value in t.views
      invariant r.Some? ==> ClimbRoot(t, r.value) == ClimbRoot(t, start.value)
      decreases if r.Some? then t.depth[r.value] else 0
    {
      ClimbStep(t, r.value);
      r := ParentGroup(t, r.value);
    }
    if r.Some? {
      ClimbStep(t, r.value);
    }
  }

  /** The groups innerStem lists, as written: the view when it is a group, then the group
      ancestors up to, not including, the safe root. */
  function InnerStemOf(t: Tree, v: ViewId): seq<ViewId>
    requires WellFormed(t) && v in t.views
  {
    (if t.views[v].isGroup then [v] else []) + TakeBefore(Ancestors(t, v), SafeRootOf(t, v))
  }

  /** The groups fullStem lists, as written: innerStem followed by the safe root. */
  function FullStemOf(t: Tree, v: ViewId): seq<ViewId>
    requires WellFormed(t) && v in t.views
  {
    InnerStemOf(t, v) + (match SafeRootOf(t, v) case Some(r) => [r] case None => [])
  }

  /** View.innerStem: adds the view when it is a group, then walks the ViewGroup parents and stops
      at the safe root or when the parent is not a group. */
  method InnerStem(t: Tree, v: ViewId) returns (parents: seq<ViewId>)
    requires WellFormed(t) && v in t.views
    ensures parents == InnerStemOf(t, v)
  {
    var head := if t.views[v].isGroup then [v] else [];
    parents := head;
    var p := ParentGroup(t, v);
    var r := SafeRoot(t, v);
    ghost var line := Lineage(t, v);
    ghost var k := 1;
    LineageNext(t, v, 0);
    while p.Some?
      invariant 1 <= k <= |line|
      invariant p == if k < |line| then Some(line[k]) else None
      invariant parents == head + line[1..k]
      invariant r.None? || r.value !in line[1..k]
      decreases |line| - k
    {
      if p == r {
        break;
      }
      assert line[1..k + 1] == line[1..k] + [line[k]];
      LineageNext(t, v, k);
      parents := parents + [p.value];
      p := ParentGroup(t, p.value);
      k := k + 1;
    }
    assert line[1..][..k - 1] == line[1..k];
    TakeBeforeUpTo(line[1..], k - 1, r);
    assert line[1..][..k - 1] == line[1..k];
    assert Ancestors(t, v) == line[1..];
  }

  /** View.fullStem: innerStem, then the safe root if there is one. */
  method FullStem(t: Tree, v: ViewId) returns (parents: seq<ViewId>)
    requires WellFormed(t) && v in t.views
    ensures parents == FullStemOf(t, v)
  {
    parents := InnerStem(t, v);
    var r := SafeRoot(t, v);
    if r.Some? {
      parents := parents + [r.value];
    }
  }

  /** The view when it is a group, then its group ancestors: the walk both stems make. From the
      start of the safe-root climb, it is that start's lineage. */
  lemma {:induction false} StemWalk(t: Tree, v: ViewId)
    requires WellFormed(t) && v in t.views
    ensures SafeRootStart(t, v).Some? ==>
              (if t.views[v].isGroup then [v] else []) + Ancestors(t, v) == Lineage(t, SafeRootStart(t, v).value)
    ensures SafeRootStart(t, v).None? ==> Ancestors(t, v) == []
  {
    LineageAt(t, v, 0);
    var start := SafeRootStart(t, v);
    if start.Some? && start.value != v {
      assert Lineage(t, v) == [v] + Lineage(t, start.value);
    }
  }

  /** What innerStem is evidently meant to list: the walk of StemWalk up to, not including, the
      safe root; the view itself is checked against the safe root like every parent. */
  function FixedInnerStemOf(t: Tree, v: ViewId): seq<ViewId>
    requires WellFormed(t) && v in t.views
  {
    TakeBefore((if t.views[v].isGroup then [v] else []) + Ancestors(t, v), SafeRootOf(t, v))
  }

  /** fullStem over FixedInnerStemOf. */
  function FixedFullStemOf(t: Tree, v: ViewId): seq<ViewId>
    requires WellFormed(t) && v in t.views
  {
    FixedInnerStemOf(t, v) + (match SafeRootOf(t, v) case Some(r) => [r] case None => [])
  }

  /** The corrected full stem lists the groups from where the safe-root climb starts up to and
      including the safe root, each once; without a safe root it is the view when it is a group. */
  lemma {:induction false} FixedFullStemClimbs(t: Tree, v: ViewId)
    requires WellFormed(t) && v in t.views
    ensures SafeRootOf(t, v).Some? ==>
              var s := SafeRootStart(t, v).value;
              FixedFullStemOf(t, v) == Lineage(t, s)[..ClimbCount(t, s) + 1]
              && FixedFullStemOf(t, v)[|FixedFullStemOf(t, v)| - 1] == SafeRootOf(t, v).value
    ensures SafeRootOf(t, v).None? ==> FixedFullStemOf(t, v) == if t.views[v].isGroup then [v] else []
    ensures Distinct(FixedFullStemOf(t, v))
  {
    StemWalk(t, v);
    var walk := (if t.views[v].isGroup then [v] else []) + Ancestors(t, v);
    var start := SafeRootStart(t, v);
    if start.Some? {
      var s := start.value;
      var line, c := Lineage(t, s), ClimbCount(t, s);
      assert walk == line;
      assert SafeRootOf(t, v) == Some(line[c]);
      ClimbPrefix(t, s);
      assert FixedInnerStemOf(t, v) == line[..c];
      PrefixSnoc(line, c);
      LineageIsDistinct(t, s);
      DistinctPrefix(line, c + 1);
    }
  }

  /** Outside the case of the finding the stem as written is the corrected one. */
  lemma {:induction false} FullStemAsIntended(t: Tree, v: ViewId)
    requires WellFormed(t) && v in t.views && SafeRootOf(t, v) != Some(v)
    ensures FullStemOf(t, v) == FixedFullStemOf(t, v)
  {
    var walk := Ancestors(t, v);
    var r := SafeRootOf(t, v);
    if t.views[v].isGroup {
      TakeBeforeCons(v, walk, r);
    } else {
      assert [] + walk == walk;
    }
    assert InnerStemOf(t, v) == FixedInnerStemOf(t, v);
  }

  /** As written, a group that is its own safe root (a group whose parent is not a ViewGroup with
      an activity, a top-level group under the window among them) gets all its group ancestors and
      then itself a second time. */
  lemma {:induction false} FullStemRepeatsView(t: Tree, v: ViewId)
    requires WellFormed(t) && v in t.views && SafeRootOf(t, v) == Some(v)
    ensures FullStemOf(t, v) == [v] + Ancestors(t, v) + [v]
    ensures !Distinct(FullStemOf(t, v))
  {
    SafeRootIsFirstStop(t, v);
    LineageIsDistinct(t, v);
    assert v !in Ancestors(t, v) by {
      forall j | 0 <= j < |Ancestors(t, v)|
        ensures Ancestors(t, v)[j] != v
      {
        assert Ancestors(t, v)[j] == Lineage(t, v)[j + 1];
      }
    }
    var stem := FullStemOf(t, v);
    assert stem[0] == v && stem[|stem| - 1] == v;
  }

  /** A top-level group under the window: its full stem, as written, is the group twice. */
  lemma {:induction false} FullStemTwiceAtTop()
    ensures var t := Tree(map[7 := View(ViewRoot, [], true, true, VISIBLE, [])], map[7 := 0], 0);
            WellFormed(t) && FullStemOf(t, 7) == [7, 7]
  {
    var t := Tree(map[7 := View(ViewRoot, [], true, true, VISIBLE, [])], map[7 := 0], 0);
    assert ViewLinked(t, 7);
    assert WellFormed(t);
    assert SafeRootOf(t, 7) == Some(7);
    FullStemRepeatsView(t, 7);
  }
}
