/** The view hierarchy the lifecycle extensions walk: parent links, ordered children, attachment,
    visibility and each view's context chain. The extensions never change this structure, so it is
    a value; the per-view tag slots they do change live in ViewTags.Views. */
module ViewTree {
  import opened Results

  type ViewId = nat

  /** View.getParent(): no parent, a ViewGroup of the tree, or the window's view root (a
      ViewParent that is not a ViewGroup). */
  datatype ParentLink = NoParent | GroupParent(group: ViewId) | ViewRoot

  datatype Visibility = VISIBLE | INVISIBLE | GONE

  /** One link of a context chain. A ContextWrapper's base context is the next link of the chain;
      a wrapper at the end of the chain has a null base context. */
  datatype Context = FragmentActivity(activity: nat) | ContextWrapper | OtherContext

  datatype View = View(
    parent: ParentLink,
    children: seq<ViewId>,
    isGroup: bool,
    attachedToWindow: bool,
    visibility: Visibility,
    context: seq<Context>)

  /** The views by id, with each view's depth (one more than its group parent's), bounded by
      `height`; the depths are what makes every walk over parent or child links terminate. */
  datatype Tree = Tree(views: map<ViewId, View>, depth: map<ViewId, nat>, height: nat)

  ghost predicate ParentLinked(t: Tree, v: ViewId)
    requires v in t.views && v in t.depth
  {
    match t.views[v].parent
    case GroupParent(p) =>
      p in t.views && p in t.depth && t.views[p].isGroup
      && t.depth[v] == t.depth[p] + 1 && v in t.views[p].children
    case _ => true
  }

  ghost predicate ChildrenLinked(t: Tree, v: ViewId)
    requires v in t.views
  {
    var children := t.views[v].children;
    (!t.views[v].isGroup ==> children == [])
    && (forall i :: 0 <= i < |children| ==>
          children[i] in t.views && t.views[children[i]].parent == GroupParent(v))
    && (forall i, j :: 0 <= i < j < |children| ==> children[i] != children[j])
  }

  /** The links of one view agree with those of its parent and children. */
  ghost predicate ViewLinked(t: Tree, v: ViewId)
    requires v in t.views && v in t.depth
  {
    ParentLinked(t, v) && ChildrenLinked(t, v)
  }

  /** Every view has a depth within `height`; parent and child links agree, only groups have
      children, and depths grow by one per level. (The link facts about a view are brought in by
      mentioning ViewLinked(t, v), so that they do not spread over the whole tree on their own.) */
  ghost predicate WellFormed(t: Tree)
  {
    (forall v :: v in t.views ==> v in t.depth && t.depth[v] <= t.height)
    && forall v {:trigger ViewLinked(t, v)} :: v in t.views ==> ViewLinked(t, v)
  }

  /** A view hierarchy whose links agree. */
  type WellFormedTree = t: Tree | WellFormed(t) witness Tree(map[], map[], 0)

  /** The children of a view: none unless it is a group, and each one a view one level deeper
      whose parent is the view. */
  lemma {:induction false} ChildrenOf(t: Tree, v: ViewId)
    requires WellFormed(t) && v in t.views
    ensures !t.views[v].isGroup ==> t.views[v].children == []
    ensures forall c :: c in t.views[v].children ==>
              c in t.views && t.views[c].parent == GroupParent(v) && t.depth[c] == t.depth[v] + 1
  {
    assert ViewLinked(t, v);
    forall c | c in t.views[v].children
      ensures c in t.views && t.views[c].parent == GroupParent(v) && t.depth[c] == t.depth[v] + 1
    {
      assert ViewLinked(t, c);
    }
  }

  /** `parent as? ViewGroup`: the view group the view hangs in, if it hangs in one. */
  function ParentGroup(t: Tree, v: ViewId): (r: Option<ViewId>)
    requires WellFormed(t) && v in t.views
    ensures r.None? <==> !t.views[v].parent.GroupParent?
    ensures r.Some? ==> t.views[v].parent == GroupParent(r.value) && r.value in t.views
                        && t.views[r.value].isGroup && v in t.views[r.value].children
                        && t.depth[v] == t.depth[r.value] + 1
  {
    assert ViewLinked(t, v);
    match t.views[v].parent
    case GroupParent(p) => Some(p)
    case _ => None
  }

  /** View.isDisplayed: attached to a window and not GONE. */
  predicate IsDisplayed(view: View)
  {
    view.attachedToWindow && view.visibility != GONE
  }

  /** A view is displayed exactly when it is attached and VISIBLE or INVISIBLE; a detached or GONE
      view never is. */
  lemma {:induction false} DisplayedIff(view: View)
    ensures IsDisplayed(view) <==> view.attachedToWindow && (view.visibility == VISIBLE || view.visibility == INVISIBLE)
    ensures !view.attachedToWindow ==> !IsDisplayed(view)
    ensures view.visibility == GONE ==> !IsDisplayed(view)
  {
  }

  // ---------------------------------------------------------------------------------------------
  // Context chains (safeActivity)

  /** The activity safeActivity finds in a context chain: it skips wrappers and stops at the first
      link that is not a wrapper. */
  function FirstActivity(chain: seq<Context>): (r: Option<nat>)
    ensures r.Some? ==> FragmentActivity(r.value) in chain
  {
    if chain == [] then None
    else match chain[0]
      case FragmentActivity(a) => Some(a)
      case ContextWrapper => FirstActivity(chain[1..])
      case OtherContext => None
  }

  ghost predicate AllWrappers(s: seq<Context>)
  {
    forall j :: 0 <= j < |s| ==> s[j] == ContextWrapper
  }

  /** FirstActivity finds `a` exactly when the chain is a run of wrappers followed by activity `a`. */
  lemma {:induction false} FirstActivityIff(chain: seq<Context>, a: nat)
    ensures FirstActivity(chain) == Some(a) <==>
            exists k :: 0 <= k < |chain| && chain[k] == FragmentActivity(a) && AllWrappers(chain[..k])
  {
    if chain != [] {
      FirstActivityIff(chain[1..], a);
      if FirstActivity(chain) == Some(a) {
        if chain[0] != FragmentActivity(a) {
          var k :| 0 <= k < |chain[1..]| && chain[1..][k] == FragmentActivity(a) && AllWrappers(chain[1..][..k]);
          assert chain[..k + 1] == [chain[0]] + chain[1..][..k];
          assert chain[k + 1] == FragmentActivity(a) && AllWrappers(chain[..k + 1]);
        } else {
          assert chain[0] == FragmentActivity(a) && AllWrappers(chain[..0]);
        }
      }
      if exists k :: 0 <= k < |chain| && chain[k] == FragmentActivity(a) && AllWrappers(chain[..k]) {
        var k :| 0 <= k < |chain| && chain[k] == FragmentActivity(a) && AllWrappers(chain[..k]);
        if k > 0 {
          assert chain[0] == chain[..k][0];
          assert chain[1..][k - 1] == FragmentActivity(a);
          assert chain[1..][..k - 1] == chain[..k][1..];
          assert AllWrappers(chain[1..][..k - 1]);
        }
      }
    }
  }

  predicate HasActivity(t: Tree, v: ViewId)
    requires v in t.views
  {
    FirstActivity(t.views[v].context).Some?
  }

  /** View.safeActivity: follows base-context links while the context is a wrapper that is not an
      activity, and returns the activity it stops at, if any. */
  method SafeActivity(t: Tree, v: ViewId) returns (a: Option<nat>)
    requires v in t.views
    ensures a == FirstActivity(t.views[v].context)
  {
    var chain := t.views[v].context;
    var i := 0;
    while i < |chain| && chain[i] == ContextWrapper
      invariant i <= |chain|
      invariant FirstActivity(chain[i..]) == FirstActivity(chain)
    {
      assert chain[i..][1..] == chain[i + 1..];
      i := i + 1;
    }
    if i < |chain| && chain[i].FragmentActivity? {
      a := Some(chain[i].activity);
    } else {
      a := None;
    }
  }

  /** View.activity: safeActivity, or an IllegalStateException when there is none. */
  method Activity(t: Tree, v: ViewId) returns (r: Result<nat>)
    requires v in t.views
    ensures r.Err? <==> FirstActivity(t.views[v].context).None?
    ensures r.Err? ==> r.failure == NoFragmentActivity
    ensures r.Ok? ==> FirstActivity(t.views[v].context) == Some(r.value)
  {
    var a := SafeActivity(t, v);
    if a.None? {
      r := Err(NoFragmentActivity);
    } else {
      r := Ok(a.value);
    }
  }

  // ---------------------------------------------------------------------------------------------
  // Parent chains (safeRoot, root, innerStem, fullStem, stem)

  /** `v` followed by its group ancestors, nearest first: the views `p = p.parent as? ViewGroup`
      visits starting from `v`. */
  function Lineage(t: Tree, v: ViewId): (s: seq<ViewId>)
    requires WellFormed(t) && v in t.views
    ensures 0 < |s| && s[0] == v
    ensures forall i :: 0 <= i < |s| ==> s[i] in t.views
    decreases t.depth[v]
  {
    assert ViewLinked(t, v);
    match t.views[v].parent
    case GroupParent(p) => [v] + Lineage(t, p)
    case _ => [v]
  }

  /** The group ancestors of `v`, nearest first. */
  function Ancestors(t: Tree, v: ViewId): seq<ViewId>
    requires WellFormed(t) && v in t.views
  {
    Lineage(t, v)[1..]
  }

  /** Each link of a lineage is the group parent of the one before it, one level up; the lineage
      ends exactly at the first view whose parent is not a group. */
  lemma {:induction false} LineageAt(t: Tree, v: ViewId, i: nat)
    requires WellFormed(t) && v in t.views && i < |Lineage(t, v)|
    ensures Lineage(t, v)[i] in t.views && Lineage(t, v)[i] in t.depth
    ensures t.depth[Lineage(t, v)[i]] + i == t.depth[v]
    ensures i + 1 < |Lineage(t, v)| <==> t.views[Lineage(t, v)[i]].parent.GroupParent?
    ensures i + 1 < |Lineage(t, v)| ==> t.views[Lineage(t, v)[i]].parent == GroupParent(Lineage(t, v)[i + 1])
    ensures 0 < i ==> t.views[Lineage(t, v)[i]].isGroup
    decreases t.depth[v]
  {
    assert ViewLinked(t, v);
    if i > 0 {
      LineageAt(t, t.views[v].parent.group, i - 1);
    }
  }

  /** No view occurs twice in a lineage. */
  lemma {:induction false} LineageDistinct(t: Tree, v: ViewId, i: nat, j: nat)
    requires WellFormed(t) && v in t.views && i < j < |Lineage(t, v)|
    ensures Lineage(t, v)[i] != Lineage(t, v)[j]
  {
    LineageAt(t, v, i);
    LineageAt(t, v, j);
  }

  /** The group parent of the `k`-th view of a lineage is the next view of the lineage, if any. */
  lemma {:induction false} LineageNext(t: Tree, v: ViewId, k: nat)
    requires WellFormed(t) && v in t.views && k < |Lineage(t, v)|
    ensures Lineage(t, v)[k] in t.views
    ensures ParentGroup(t, Lineage(t, v)[k]) ==
              if k + 1 < |Lineage(t, v)| then Some(Lineage(t, v)[k + 1]) else None
  {
    LineageAt(t, v, k);
  }

  /** How many group parents safeRoot and root climb from `x`: they keep climbing while the
      parent is a ViewGroup whose safeActivity is not null. */
  function ClimbCount(t: Tree, x: ViewId): (n: nat)
    requires WellFormed(t) && x in t.views
    ensures n < |Lineage(t, x)|
    decreases t.depth[x]
  {
    assert ViewLinked(t, x);
    match t.views[x].parent
    case GroupParent(y) => if HasActivity(t, y) then 1 + ClimbCount(t, y) else 0
    case _ => 0
  }

  /** The view at which the climb from `x` stops. */
  function ClimbRoot(t: Tree, x: ViewId): ViewId
    requires WellFormed(t) && x in t.views
  {
    Lineage(t, x)[ClimbCount(t, x)]
  }

  /** The climb from `x` stops at the first view of its lineage whose parent is not a group with
      an activity: every view it climbs to has an activity, and the next one up has none. */
  lemma {:induction false} ClimbRootIsFirstStop(t: Tree, x: ViewId)
    requires WellFormed(t) && x in t.views
    ensures forall j :: 0 < j <= ClimbCount(t, x) ==> HasActivity(t, Lineage(t, x)[j])
    ensures ClimbCount(t, x) + 1 < |Lineage(t, x)| ==>
              !HasActivity(t, Lineage(t, x)[ClimbCount(t, x) + 1])
    decreases t.depth[x]
  {
    assert ViewLinked(t, x);
    LineageAt(t, x, 0);
    match t.views[x].parent
    case GroupParent(y) =>
      if HasActivity(t, y) {
        ClimbRootIsFirstStop(t, y);
        assert Lineage(t, x)[1..] == Lineage(t, y);
      }
    case _ =>
  }

  /** The views a collecting walk along the lineage of `x` gathers before it meets the end of the
      climb are the lineage up to that point. */
  lemma {:induction false} ClimbPrefix(t: Tree, x: ViewId)
    requires WellFormed(t) && x in t.views
    ensures TakeBefore(Lineage(t, x), Some(ClimbRoot(t, x))) == Lineage(t, x)[..ClimbCount(t, x)]
  {
    var line, c := Lineage(t, x), ClimbCount(t, x);
    forall i | 0 <= i < c
      ensures line[i] != line[c]
    {
      LineageDistinct(t, x, i, c);
    }
    TakeBeforeUpTo(line, c, Some(line[c]));
  }

  /** No view occurs twice in a lineage. */
  lemma {:induction false} LineageIsDistinct(t: Tree, x: ViewId)
    requires WellFormed(t) && x in t.views
    ensures Distinct(Lineage(t, x))
  {
    forall i, j | 0 <= i < j < |Lineage(t, x)|
      ensures Lineage(t, x)[i] != Lineage(t, x)[j]
    {
      LineageDistinct(t, x, i, j);
    }
  }

  /** One step of the climb: from a view whose parent is a group with an activity the climb ends
      where it ends from that parent; from any other view it ends at the view itself. */
  lemma {:induction false} ClimbStep(t: Tree, p: ViewId)
    requires WellFormed(t) && p in t.views
    ensures ViewLinked(t, p)
    ensures t.views[p].parent.GroupParent? && HasActivity(t, t.views[p].parent.group) ==>
              ClimbRoot(t, p) == ClimbRoot(t, t.views[p].parent.group)
    ensures !(t.views[p].parent.GroupParent? && HasActivity(t, t.views[p].parent.group)) ==>
              ClimbRoot(t, p) == p
  {
    assert ViewLinked(t, p);
    if t.views[p].parent.GroupParent? {
      var y := t.views[p].parent.group;
      assert Lineage(t, p) == [p] + Lineage(t, y);
    }
  }

  /** The prefix of `s` before the first occurrence of `r` (all of `s` when `r` is None or absent):
      what a loop collecting `s` keeps when it breaks on reaching `r`. */
  function TakeBefore(s: seq<ViewId>, r: Option<ViewId>): (p: seq<ViewId>)
    ensures p <= s
    ensures r.Some? ==> r.value !in p
    ensures r.Some? && r.value in s ==> |p| < |s| && s[|p|] == r.value
    ensures r.None? || r.value !in s ==> p == s
  {
    if s == [] || Some(s[0]) == r then []
    else [s[0]] + TakeBefore(s[1..], r)
  }

  /** TakeBefore keeps exactly the first `k` elements when `r` is not among them and `r` comes
      next, or nothing comes next. */
  lemma {:induction false} TakeBeforeUpTo(s: seq<ViewId>, k: nat, r: Option<ViewId>)
    requires k <= |s| && (k == |s| || Some(s[k]) == r)
    requires r.None? || r.value !in s[..k]
    ensures TakeBefore(s, r) == s[..k]
  {
    if k > 0 {
      TakeBeforeUpTo(s[1..], k - 1, r);
      assert s[..k] == [s[0]] + s[1..][..k - 1];
    }
  }

  /** A first element other than `r` is kept. */
  lemma {:induction false} TakeBeforeCons(x: ViewId, s: seq<ViewId>, r: Option<ViewId>)
    requires Some(x) != r
    ensures TakeBefore([x] + s, r) == [x] + TakeBefore(s, r)
  {
    assert ([x] + s)[1..] == s;
  }

  // ---------------------------------------------------------------------------------------------
  // Subtrees (destroy)

  /** The views of the subtree of `v` in post-order: the subtrees of the children in child order,
      then `v` itself. */
  ghost function PostOrder(t: Tree, v: ViewId): (s: seq<ViewId>)
    requires WellFormed(t) && v in t.views
    ensures 0 < |s| && s[|s| - 1] == v
    decreases t.height - t.depth[v], 1, 0
  {
    ChildrenPostOrder(t, v, |t.views[v].children|) + [v]
  }

  /** The post-orders of the first `k` children of `v`, concatenated. */
  ghost function ChildrenPostOrder(t: Tree, v: ViewId, k: nat): seq<ViewId>
    requires WellFormed(t) && v in t.views && k <= |t.views[v].children|
    decreases t.height - t.depth[v], 0, k
  {
    if k == 0 then []
    else
      assert ViewLinked(t, v) && ViewLinked(t, t.views[v].children[k - 1]);
      ChildrenPostOrder(t, v, k - 1) + PostOrder(t, t.views[v].children[k - 1])
  }

  /** `v` is on the lineage of `u`, `depth(u) - depth(v)` steps up. */
  ghost predicate Below(t: Tree, u: ViewId, v: ViewId)
    requires WellFormed(t)
  {
    u in t.views && v in t.views && t.depth[v] <= t.depth[u]
    && t.depth[u] - t.depth[v] < |Lineage(t, u)| && Lineage(t, u)[t.depth[u] - t.depth[v]] == v
  }

  /** Every view of the subtree of `v` has `v` on its lineage. */
  lemma {:induction false} PostOrderBelow(t: Tree, v: ViewId, u: ViewId)
    requires WellFormed(t) && v in t.views && u in PostOrder(t, v)
    ensures Below(t, u, v)
    decreases t.height - t.depth[v], 1, 0
  {
    if u != v {
      ChildrenPostOrderBelow(t, v, |t.views[v].children|, u);
    } else {
      LineageAt(t, u, 0);
    }
  }

  /** Every view in the first `k` children's subtrees lies strictly below `v`, under one of those
      `k` children. */
  lemma {:induction false} ChildrenPostOrderBelow(t: Tree, v: ViewId, k: nat, u: ViewId)
    requires WellFormed(t) && v in t.views && k <= |t.views[v].children|
    requires u in ChildrenPostOrder(t, v, k)
    ensures Below(t, u, v) && t.depth[v] < t.depth[u]
    ensures Lineage(t, u)[t.depth[u] - t.depth[v] - 1] in t.views[v].children[..k]
    decreases t.height - t.depth[v], 0, k
  {
    var children := t.views[v].children;
    if u in ChildrenPostOrder(t, v, k - 1) {
      ChildrenPostOrderBelow(t, v, k - 1, u);
    } else {
      var c := children[k - 1];
      assert ViewLinked(t, v) && ViewLinked(t, c);
      PostOrderBelow(t, c, u);
      var i := t.depth[u] - t.depth[c];
      LineageAt(t, u, i);
    }
  }

  /** The subtree of a child is disjoint from the subtrees of the children before it. */
  lemma {:induction false} SiblingsDisjoint(t: Tree, v: ViewId, k: nat, u: ViewId)
    requires WellFormed(t) && v in t.views && ViewLinked(t, v) && k < |t.views[v].children|
    requires u in PostOrder(t, t.views[v].children[k])
    ensures u !in ChildrenPostOrder(t, v, k)
  {
    var children := t.views[v].children;
    assert ViewLinked(t, children[k]);
    PostOrderBelow(t, children[k], u);
    if u in ChildrenPostOrder(t, v, k) {
      // u would lie under children[k] and under one of the children before it
      ChildrenPostOrderBelow(t, v, k, u);
      assert false;
    }
  }

  /** The subtree of a child lies within the subtrees of any first `k` children that include it. */
  lemma {:induction false} ChildSubtreeWithin(t: Tree, v: ViewId, k: nat, i: nat, u: ViewId)
    requires WellFormed(t) && v in t.views && ViewLinked(t, v) && i < k <= |t.views[v].children|
    requires t.views[v].children[i] in t.views && u in PostOrder(t, t.views[v].children[i])
    ensures u in ChildrenPostOrder(t, v, k)
  {
    if i < k - 1 {
      ChildSubtreeWithin(t, v, k - 1, i, u);
    }
  }

  /** A child of a view of the subtree of `v` is in that subtree as well. */
  lemma {:induction false} PostOrderChild(t: Tree, v: ViewId, p: ViewId, c: ViewId)
    requires WellFormed(t) && v in t.views && p in PostOrder(t, v)
    requires p in t.views && c in t.views[p].children
    ensures c in PostOrder(t, v)
    decreases t.height - t.depth[v], 1, 0
  {
    var n := |t.views[v].children|;
    assert ViewLinked(t, v);
    if p == v {
      var i :| 0 <= i < n && t.views[v].children[i] == c;
      ChildSubtreeWithin(t, v, n, i, c);
    } else {
      ChildrenPostOrderChild(t, v, n, p, c);
    }
  }

  lemma {:induction false} ChildrenPostOrderChild(t: Tree, v: ViewId, k: nat, p: ViewId, c: ViewId)
    requires WellFormed(t) && v in t.views && k <= |t.views[v].children| && p in ChildrenPostOrder(t, v, k)
    requires p in t.views && c in t.views[p].children
    ensures c in ChildrenPostOrder(t, v, k)
    decreases t.height - t.depth[v], 0, k
  {
    var d := t.views[v].children[k - 1];
    assert ViewLinked(t, v) && ViewLinked(t, d);
    if p in ChildrenPostOrder(t, v, k - 1) {
      ChildrenPostOrderChild(t, v, k - 1, p, c);
    } else {
      PostOrderChild(t, d, p, c);
    }
  }

  /** Regrouping a concatenation, kept as a lemma so that the loops of destroy use it outside
      their own proof context. */
  lemma {:induction false} AppendAssoc(a: seq<ViewId>, b: seq<ViewId>, c: seq<ViewId>)
    ensures (a + b) + c == a + (b + c)
  {
  }

  ghost predicate Distinct(s: seq<ViewId>)
  {
    forall i, j :: 0 <= i < j < |s| ==> s[i] != s[j]
  }

  /** Extending a prefix by one element, kept as a lemma for the same reason as AppendAssoc. */
  lemma {:induction false} PrefixSnoc(s: seq<ViewId>, n: nat)
    requires n < |s|
    ensures s[..n + 1] == s[..n] + [s[n]]
  {
  }

  lemma {:induction false} DistinctPrefix(s: seq<ViewId>, n: nat)
    requires Distinct(s) && n <= |s|
    ensures Distinct(s[..n])
  {
    assert forall i :: 0 <= i < n ==> s[..n][i] == s[i];
  }

  lemma {:induction false} DistinctConcat(a: seq<ViewId>, b: seq<ViewId>)
    requires Distinct(a) && Distinct(b)
    requires forall x :: x in b ==> x !in a
    ensures Distinct(a + b)
  {
    forall i, j | 0 <= i < j < |a + b|
      ensures (a + b)[i] != (a + b)[j]
    {
      if i < |a| && |a| <= j {
        assert (a + b)[j] in b;
      }
    }
  }

  /** destroy reaches every view of the subtree exactly once. */
  lemma {:induction false} PostOrderDistinct(t: Tree, v: ViewId)
    requires WellFormed(t) && v in t.views
    ensures Distinct(PostOrder(t, v))
    decreases t.height - t.depth[v], 1, 0
  {
    var n := |t.views[v].children|;
    ChildrenPostOrderDistinct(t, v, n);
    forall x | x in [v]
      ensures x !in ChildrenPostOrder(t, v, n)
    {
      if x in ChildrenPostOrder(t, v, n) {
        ChildrenPostOrderBelow(t, v, n, x);
      }
    }
    DistinctConcat(ChildrenPostOrder(t, v, n), [v]);
  }

  lemma {:induction false} ChildrenPostOrderDistinct(t: Tree, v: ViewId, k: nat)
    requires WellFormed(t) && v in t.views && k <= |t.views[v].children|
    ensures Distinct(ChildrenPostOrder(t, v, k))
    decreases t.height - t.depth[v], 0, k
  {
    if k > 0 {
      var c := t.views[v].children[k - 1];
      assert ViewLinked(t, v) && ViewLinked(t, c);
      ChildrenPostOrderDistinct(t, v, k - 1);
      PostOrderDistinct(t, c);
      forall x | x in PostOrder(t, c)
        ensures x !in ChildrenPostOrder(t, v, k - 1)
      {
        SiblingsDisjoint(t, v, k - 1, x);
      }
      DistinctConcat(ChildrenPostOrder(t, v, k - 1), PostOrder(t, c));
    }
  }
}
