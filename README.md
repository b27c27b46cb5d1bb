# SmartViews view lifecycle, modelled in Dafny

SmartViews gives every Android `View` its own `LifecycleOwner`. The lifecycle logic is a set of
Kotlin extension functions on `View` and `ViewGroup`, and it exists in two revisions,
`ViewLifecycle.kt` (earlier) and `ViewExtensions.kt` (later). Both keep their state in tag slots on
the views:

- the view's `ViewLifecycleOwner`;
- in the earlier revision only, its navigation `level`, which `updateState` reads;
- the navigator flag of a navigation container;
- the view-group and hierarchy lifecycle dispatchers;
- in the later revision, a `ViewDestroyed` marker and the `destroyed` bit of the view's companion
  fragment.

Through those slots they do the following:

- derive the state a view's owner should take from its screen's state;
- attach owners and dispatchers lazily and idempotently;
- destroy a view's subtree in post-order;
- find a view's activity through its context wrappers;
- climb to the `safeRoot`/`root` container and list the containers in between (the stems);
- in the later revision, hand out view ids from a wrapping counter.

This project models both revisions side by side over one shared view hierarchy and proves what
they promise.

- `Lifecycle` (`lifecycle.dfy`) holds the states in the library's order and the `updateState`
  rule as a function.
- `ViewTree` (`view_tree.dfy`) holds the view hierarchy as an immutable value (`Tree`). The
  extensions never change the hierarchy. It carries parent links, ordered children, attachment,
  visibility and each view's context chain. A depth map bounds every walk. It also holds the pure
  walks: `safeActivity`, the parent climb, and post-order subtrees.
- `ViewTags` (`view_tags.dfy`) holds the mutable side table of tag slots. This is the class
  `Views`, whose `tags` map the methods reassign. It also holds the tag readers and writers:
  `isTrackingNavigation` and `viewModelProvider`, which the two revisions share; `level`, which
  only the earlier `updateState` reads; and `markState`/`forceMarkState` on the owner, which
  `updateState` and both revisions' `destroy` use.
- `ViewLifecycle` (`view_lifecycle.dfy`) is the earlier revision. Its operations are methods
  over `Views` with `modifies`, and loops with invariants for `safeRoot` and `innerStem`. Each is
  proved against a specification function.
- `ViewExtensions` (`view_extensions.dfy`) is the later revision: the marker-guarded destroy,
  `root` and `stem`.
- `ViewIds` (`view_ids.dfy`) is the later revision's `generateViewId` counter.

The lifecycle states are ordered as the library declares them and as `isAtLeast` compares them:
DESTROYED < INITIALIZED < CREATED < STARTED < RESUMED. DESTROYED is the lowest state, not the
highest.

Throughout, `VL` stands for `viewlifecycle/src/main/java/com/ea/viewlifecycle/ViewLifecycle.kt`
and `VE` for `viewlifecycle/src/main/java/com/ea/viewlifecycle/ViewExtensions.kt`. The table
spells both paths out.

## Model

| member | source | states |
|---|---|---|
| Lifecycle.IsAtLeastTotalOrder | viewlifecycle/src/main/java/com/ea/viewlifecycle/ViewLifecycle.kt:123 | `isAtLeast` is a total order: reflexive, antisymmetric, transitive and total, with DESTROYED lowest and RESUMED highest. |
| Lifecycle.MarkedState | viewlifecycle/src/main/java/com/ea/viewlifecycle/ViewLifecycle.kt:180-186 | The marked state is never above the requested one. A request below STARTED is marked unchanged. A STARTED or RESUMED request is honoured exactly when the level is 0 and the view is displayed, and is otherwise CREATED. |
| Lifecycle.NestedOrHiddenStaysCreated | viewlifecycle/src/main/java/com/ea/viewlifecycle/ViewLifecycle.kt:181-185 | A nested (level ≠ 0) or undisplayed view asked for STARTED or RESUMED is marked CREATED, so it never observes STARTED. |
| Lifecycle.MarkedStateKeepsCreated | viewlifecycle/src/main/java/com/ea/viewlifecycle/ViewLifecycle.kt:180-186 | A request that is at least CREATED is marked as at least CREATED: the clamp never drops below CREATED. |
| ViewTree.DisplayedIff | viewlifecycle/src/main/java/com/ea/viewlifecycle/ViewLifecycle.kt:188-189 | A view is displayed exactly when it is attached to a window and VISIBLE or INVISIBLE. A detached view or a GONE view is never displayed. The later revision's getter (ViewExtensions.kt:176-177) is the same. |
| ViewTree.ParentGroup | viewlifecycle/src/main/java/com/ea/viewlifecycle/ViewLifecycle.kt:199-206 | `parent as? ViewGroup` is none exactly when the parent is not a group. Otherwise it is the group parent, which lists the view among its children one level up. |
| ViewTree.FirstActivity | viewlifecycle/src/main/java/com/ea/viewlifecycle/ViewLifecycle.kt:142-150 | The activity found occurs in the context chain. |
| ViewTree.FirstActivityIff | viewlifecycle/src/main/java/com/ea/viewlifecycle/ViewLifecycle.kt:142-150 | safeActivity finds activity `a` exactly when the chain is a run of ContextWrappers followed by `a`. Both directions are proved. |
| ViewTree.SafeActivity | viewlifecycle/src/main/java/com/ea/viewlifecycle/ViewLifecycle.kt:142-150 | The loop that unwraps base contexts returns FirstActivity of the view's context chain. |
| ViewTree.Activity | viewlifecycle/src/main/java/com/ea/viewlifecycle/ViewLifecycle.kt:152-154 | `activity` fails with the no-activity error exactly when safeActivity is none. Otherwise it returns that activity. |
| ViewTree.Lineage | viewlifecycle/src/main/java/com/ea/viewlifecycle/ViewLifecycle.kt:199-206 | The views `p = p.parent as? ViewGroup` visits start with the view, and all of them are views of the tree. |
| ViewTree.LineageAt | viewlifecycle/src/main/java/com/ea/viewlifecycle/ViewLifecycle.kt:199-206 | Each link is the group parent of the one before it, one level up. The walk ends exactly at the first view whose parent is not a group. |
| ViewTree.LineageNext | viewlifecycle/src/main/java/com/ea/viewlifecycle/ViewLifecycle.kt:199-206 | The group parent of the k-th visited view is the (k+1)-th, or none at the end. |
| ViewTree.LineageIsDistinct | viewlifecycle/src/main/java/com/ea/viewlifecycle/ViewLifecycle.kt:199-206 | No view is visited twice by the parent walk. |
| ViewTree.ClimbCount | viewlifecycle/src/main/java/com/ea/viewlifecycle/ViewLifecycle.kt:163-165 | The number of steps the safeRoot/root climb takes stays within the parent walk. |
| ViewTree.ClimbRootIsFirstStop | viewlifecycle/src/main/java/com/ea/viewlifecycle/ViewLifecycle.kt:163-165 | Every group the climb moves to has an activity, and the climb stops at the first view whose parent is not a group with an activity. |
| ViewTree.ClimbStep | viewlifecycle/src/main/java/com/ea/viewlifecycle/ViewLifecycle.kt:163-165 | One loop step does not change where the climb ends. At a stop, the climb ends at the current view. |
| ViewTree.ClimbPrefix | viewlifecycle/src/main/java/com/ea/viewlifecycle/ViewLifecycle.kt:201-205 | Collecting the walk until the end of the climb gives exactly the walk's prefix before that point. |
| ViewTree.TakeBefore | viewlifecycle/src/main/java/com/ea/viewlifecycle/ViewLifecycle.kt:201-205 | A walk that breaks on meeting `r` keeps a prefix that does not contain `r`, and the element that follows that prefix is `r`. |
| ViewTree.PostOrder | viewlifecycle/src/main/java/com/ea/viewlifecycle/ViewLifecycle.kt:132-140 | The order destroy handles a subtree in ends with the view itself. |
| ViewTree.PostOrderBelow | viewlifecycle/src/main/java/com/ea/viewlifecycle/ViewLifecycle.kt:132-140 | Every view destroy reaches from `v` has `v` on its parent walk. |
| ViewTree.SiblingsDisjoint | viewlifecycle/src/main/java/com/ea/viewlifecycle/ViewLifecycle.kt:133-137 | A child's subtree shares no view with the subtrees of the children before it. |
| ViewTree.PostOrderDistinct | viewlifecycle/src/main/java/com/ea/viewlifecycle/ViewLifecycle.kt:132-140 | destroy reaches each view of the subtree exactly once. |
| ViewTree.PostOrderChild | viewlifecycle/src/main/java/com/ea/viewlifecycle/ViewLifecycle.kt:133-136 | The subtree destroy reaches is closed under children. |
| ViewTags.MarkedOwner | viewlifecycle/src/main/java/com/ea/viewlifecycle/ViewLifecycle.kt:182-184 | `rawLifecycleOwner?.lifecycle?.markState(s)` puts an existing owner in state `s`, keeps its identity, and changes nothing else. Without an owner it changes nothing. |
| ViewTags.MarkOwnerState | viewlifecycle/src/main/java/com/ea/viewlifecycle/ViewLifecycle.kt:182 | In place, only the view's owner state changes. |
| ViewTags.ViewModelProviderOf | viewlifecycle/src/main/java/com/ea/viewlifecycle/ViewLifecycle.kt:121-128 | The provider is handed out exactly when the view has an owner that is at least CREATED, and it belongs to the view's companion. Otherwise the call fails with the "until created" error, so it always fails for a DESTROYED or INITIALIZED owner. VE:118-124 is identical. |
| ViewTags.LevelReadsTag | viewlifecycle/src/main/java/com/ea/viewlifecycle/ViewLifecycle.kt:176-178 | `level` reads 0 when the tag was never set and reads back the stored value otherwise. Marking the owner's state does not change it. |
| ViewTags.TrackingNavigationReadsSlot | viewlifecycle/src/main/java/com/ea/viewlifecycle/ViewLifecycle.kt:77-78 | `isTrackingNavigation` reads the navigator slot alone. Storing the flag reads back, and marking the owner or setting the level leaves it unchanged. The later revision's getter (ViewExtensions.kt:80-81) is the same. |
| ViewTags.UnleveledDisplayedMirrors | viewlifecycle/src/main/java/com/ea/viewlifecycle/ViewLifecycle.kt:176-189 | A view whose level was never set (so it reads 0) and that is displayed is marked exactly the requested state. |
| ViewTags.HiddenViewAtMostCreated | viewlifecycle/src/main/java/com/ea/viewlifecycle/ViewLifecycle.kt:180-189 | A view that is detached from the window or GONE is never marked STARTED or above. |
| ViewLifecycle.WithOwner | viewlifecycle/src/main/java/com/ea/viewlifecycle/ViewLifecycle.kt:44-53 | After attaching, a view always holds an owner. It is the existing one untouched, or a new INITIALIZED one. |
| ViewLifecycle.AttachLifecycleOwner | viewlifecycle/src/main/java/com/ea/viewlifecycle/ViewLifecycle.kt:44-53 | An existing owner is returned and nothing changes. Otherwise a new owner with an id no view holds is stored and returned. |
| ViewLifecycle.DetachLifecycleOwner | viewlifecycle/src/main/java/com/ea/viewlifecycle/ViewLifecycle.kt:55-58 | The view no longer holds an owner, and no other slot changes. |
| ViewLifecycle.AttachViewGroupLifecycleDispatcher | viewlifecycle/src/main/java/com/ea/viewlifecycle/ViewLifecycle.kt:80-87 | It is a no-op when a dispatcher exists. Otherwise both an owner (via attachLifecycleOwner) and the dispatcher are present afterwards. |
| ViewLifecycle.DetachViewGroupLifecycleDispatcher | viewlifecycle/src/main/java/com/ea/viewlifecycle/ViewLifecycle.kt:92-98 | An existing dispatcher is cleared once and then dropped. It is a no-op when absent. |
| ViewLifecycle.AttachHierarchyLifecycleDispatcher | viewlifecycle/src/main/java/com/ea/viewlifecycle/ViewLifecycle.kt:100-107 | The same as for the view-group dispatcher, on the hierarchy slot. |
| ViewLifecycle.DetachHierarchyLifecycleDispatcher | viewlifecycle/src/main/java/com/ea/viewlifecycle/ViewLifecycle.kt:109-115 | The same as for the view-group dispatcher, on the hierarchy slot. |
| ViewLifecycle.EnsureParentLifecycleDispatcherAttached | viewlifecycle/src/main/java/com/ea/viewlifecycle/ViewLifecycle.kt:34-42 | With a ViewGroup parent, the parent has a view-group dispatcher afterwards. A parent that already had one is left exactly as it was, so it may still have no owner. A parent that had none also gets an owner if it lacked one. Without a ViewGroup parent, nothing changes. |
| ViewLifecycle.TrackNavigation | viewlifecycle/src/main/java/com/ea/viewlifecycle/ViewLifecycle.kt:66-78 | isTrackingNavigation reads back `track`. When tracking, a ViewGroup parent dispatches lifecycle afterwards. Every other slot is unchanged. |
| ViewLifecycle.SetLevel | viewlifecycle/src/main/java/com/ea/viewlifecycle/ViewLifecycle.kt:176-178 | The level getter reads back what the setter stored. |
| ViewLifecycle.UpdateState | viewlifecycle/src/main/java/com/ea/viewlifecycle/ViewLifecycle.kt:180-186 | Only the view's owner changes, to MarkedState of the request, the view's level and isDisplayed. Without an owner nothing changes. |
| ViewLifecycle.DestroyedCompose | viewlifecycle/src/main/java/com/ea/viewlifecycle/ViewLifecycle.kt:132-140 | Destroying the views of `a` and then of `b` equals destroying those of `a + b`. |
| ViewLifecycle.Destroy | viewlifecycle/src/main/java/com/ea/viewlifecycle/ViewLifecycle.kt:132-140 | The views are handled in post-order, each once. Afterwards every view of the subtree that has an owner has it DESTROYED, and every other view is unchanged. |
| ViewLifecycle.DestroyChildren | viewlifecycle/src/main/java/com/ea/viewlifecycle/ViewLifecycle.kt:133-137 | The loop over the children destroys their subtrees in child order. |
| ViewLifecycle.DestroyedRefuseViewModels | viewlifecycle/src/main/java/com/ea/viewlifecycle/ViewLifecycle.kt:121-140 | After destroy, no view of the subtree hands out a ViewModelProvider. |
| ViewLifecycle.SafeRootStart | viewlifecycle/src/main/java/com/ea/viewlifecycle/ViewLifecycle.kt:158-162 | The climb starts at the view when it is a group with any parent (the window's root counts), otherwise at its group parent. There is no start exactly when the view has no parent, or is a non-group under the window root. |
| ViewLifecycle.SafeRootIsFirstStop | viewlifecycle/src/main/java/com/ea/viewlifecycle/ViewLifecycle.kt:156-167 | The safe root is a group on the view's parent walk whose parent is not a group with an activity. Every group climbed to has an activity. |
| ViewLifecycle.SafeRoot | viewlifecycle/src/main/java/com/ea/viewlifecycle/ViewLifecycle.kt:156-167 | The loop returns SafeRootOf: the end of the climb from SafeRootStart. |
| ViewLifecycle.InnerStem | viewlifecycle/src/main/java/com/ea/viewlifecycle/ViewLifecycle.kt:193-209 | The loop returns the view when it is a group, then its group ancestors nearest first, up to but not including the safe root. |
| ViewLifecycle.FullStem | viewlifecycle/src/main/java/com/ea/viewlifecycle/ViewLifecycle.kt:211-219 | The result is innerStem followed by the safe root when there is one. |
| ViewLifecycle.StemWalk | viewlifecycle/src/main/java/com/ea/viewlifecycle/ViewLifecycle.kt:193-209 | The walk innerStem makes (the view when it is a group, then its ancestors) is the parent walk from where the safe-root climb starts. |
| ViewLifecycle.FixedFullStemClimbs | viewlifecycle/src/main/java/com/ea/viewlifecycle/ViewLifecycle.kt:211-219 | The corrected full stem is the walk from the climb's start up to and including the safe root, ends at the safe root and lists each group once. |
| ViewLifecycle.FullStemAsIntended | viewlifecycle/src/main/java/com/ea/viewlifecycle/ViewLifecycle.kt:193-219 | Whenever the safe root is not the view itself, the full stem as written equals the corrected one. |
| ViewLifecycle.FullStemRepeatsView | viewlifecycle/src/main/java/com/ea/viewlifecycle/ViewLifecycle.kt:193-219 | As written, a group that is its own safe root gets the view, all its group ancestors, then the view again, so the list has a duplicate. |
| ViewLifecycle.FullStemTwiceAtTop | viewlifecycle/src/main/java/com/ea/viewlifecycle/ViewLifecycle.kt:193-219 | A top-level group hanging from the window's view root has the full stem `[g, g]`. |
| ViewExtensions.AttachLifecycleOwner | viewlifecycle/src/main/java/com/ea/viewlifecycle/ViewExtensions.kt:57-68 | An existing owner is returned and nothing changes, and the marker stays. Otherwise the destroyed marker is cleared and a new owner is stored and returned. Either way, marked views keep owners that are absent or DESTROYED (MarkedDestroyed). |
| ViewExtensions.TrackNavigation | viewlifecycle/src/main/java/com/ea/viewlifecycle/ViewExtensions.kt:70-81 | isTrackingNavigation reads back `track`. No other slot changes, so MarkedDestroyed is kept. |
| ViewExtensions.AttachLifecycleDispatcher | viewlifecycle/src/main/java/com/ea/viewlifecycle/ViewExtensions.kt:89-104 | The attaching block is posted exactly when the group has no view-group dispatcher yet. |
| ViewExtensions.RunPostedDispatcherAttach | viewlifecycle/src/main/java/com/ea/viewlifecycle/ViewExtensions.kt:95-103 | The posted block leaves the group with an owner (new ones clear the marker) and a view-group dispatcher, and keeps MarkedDestroyed. |
| ViewExtensions.DetachLifecycleDispatcher | viewlifecycle/src/main/java/com/ea/viewlifecycle/ViewExtensions.kt:109-112 | The view-group dispatcher, then the hierarchy dispatcher, are cleared when present. The slots keep them. |
| ViewExtensions.RootOf | viewlifecycle/src/main/java/com/ea/viewlifecycle/ViewExtensions.kt:160-168 | root fails ("not attached to a parent") exactly when the view has no ViewGroup parent. |
| ViewExtensions.RootIsFirstStop | viewlifecycle/src/main/java/com/ea/viewlifecycle/ViewExtensions.kt:160-168 | The root is a group ancestor whose parent is not a group with an activity. Every group climbed to above the parent has an activity. |
| ViewExtensions.Root | viewlifecycle/src/main/java/com/ea/viewlifecycle/ViewExtensions.kt:160-168 | The loop returns RootOf. |
| ViewExtensions.StemOf | viewlifecycle/src/main/java/com/ea/viewlifecycle/ViewExtensions.kt:204-217 | stem fails exactly when root does. |
| ViewExtensions.Stem | viewlifecycle/src/main/java/com/ea/viewlifecycle/ViewExtensions.kt:204-217 | The loop returns StemOf: the group ancestors from the parent through the root. |
| ViewExtensions.StemClimbs | viewlifecycle/src/main/java/com/ea/viewlifecycle/ViewExtensions.kt:204-217 | The stem starts at the parent and ends at the root. It is a prefix of the ancestors, lists each group once, and each entry's group parent is the next entry. |
| ViewExtensions.CompanionDestroyed | viewlifecycle/src/main/java/com/ea/viewlifecycle/ViewExtensions.kt:141 | An existing companion has its destroyed bit set. A missing one stays missing. |
| ViewExtensions.DestroyedTags | viewlifecycle/src/main/java/com/ea/viewlifecycle/ViewExtensions.kt:139-143 | A handled view has the marker set, its owner (if any) DESTROYED and its companion (if any) flagged destroyed. No other slot changes. |
| ViewExtensions.DestroyedMarked | viewlifecycle/src/main/java/com/ea/viewlifecycle/ViewExtensions.kt:128-144 | Handling views keeps the set of views. |
| ViewExtensions.DestroyedMarkedCompose | viewlifecycle/src/main/java/com/ea/viewlifecycle/ViewExtensions.kt:133-143 | Handling `a` and then `b` equals handling `a + b`. |
| ViewExtensions.PrunedDistinct | viewlifecycle/src/main/java/com/ea/viewlifecycle/ViewExtensions.kt:128-144 | destroy handles each view of the subtree at most once. |
| ViewExtensions.PrunedWithin | viewlifecycle/src/main/java/com/ea/viewlifecycle/ViewExtensions.kt:128-144 | destroy handles only views of the subtree. |
| ViewExtensions.PrunedFrame | viewlifecycle/src/main/java/com/ea/viewlifecycle/ViewExtensions.kt:129-137 | What destroy handles in a subtree depends only on the markers inside it. |
| ViewExtensions.PrunedSiblingUntouched | viewlifecycle/src/main/java/com/ea/viewlifecycle/ViewExtensions.kt:133-137 | Destroying earlier siblings does not change what destroy handles below a later child. |
| ViewExtensions.AfterDestroyUnmarked | viewlifecycle/src/main/java/com/ea/viewlifecycle/ViewExtensions.kt:133-143 | For an unmarked view, destroy handles the children's subtrees, then the view. |
| ViewExtensions.Destroy | viewlifecycle/src/main/java/com/ea/viewlifecycle/ViewExtensions.kt:128-144 | A marked view is left as it is, with its subtree. Otherwise the unmarked parts of the subtree are handled in post-order, and the tags become AfterDestroy. The visits are exactly `Pruned`, which handles only views of the subtree (PrunedWithin) and each at most once (PrunedDistinct). The new tags keep MarkedDestroyed (DestroyKeepsMarkedDestroyed). |
| ViewExtensions.DestroyChildren | viewlifecycle/src/main/java/com/ea/viewlifecycle/ViewExtensions.kt:133-137 | The loop handles the children's subtrees in child order. |
| ViewExtensions.DestroyChildStep | viewlifecycle/src/main/java/com/ea/viewlifecycle/ViewExtensions.kt:133-137 | Destroying child `k` after its earlier siblings sees the same markers as before them, and handles exactly the views `PrunedChildren` adds for that child. |
| ViewExtensions.MarkedBelow | viewlifecycle/src/main/java/com/ea/viewlifecycle/ViewExtensions.kt:129-131 | Under downward-closed markers, every view below a marked view is marked. |
| ViewExtensions.PrunedCovers | viewlifecycle/src/main/java/com/ea/viewlifecycle/ViewExtensions.kt:128-144 | Under downward-closed markers, each view of the subtree is either already marked or handled. |
| ViewExtensions.DestroyMarksSubtree | viewlifecycle/src/main/java/com/ea/viewlifecycle/ViewExtensions.kt:128-144 | Afterwards every view of the subtree carries the marker. Each handled view has a DESTROYED owner and a destroyed companion. Every other view keeps its tags. |
| ViewExtensions.DestroyIdempotent | viewlifecycle/src/main/java/com/ea/viewlifecycle/ViewExtensions.kt:128-131 | After destroy the view is marked. A second destroy handles nothing and changes nothing. |
| ViewExtensions.DestroyKeepsMarkClosed | viewlifecycle/src/main/java/com/ea/viewlifecycle/ViewExtensions.kt:128-144 | destroy keeps the markers downward closed. |
| ViewExtensions.DestroyKeepsMarkedDestroyed | viewlifecycle/src/main/java/com/ea/viewlifecycle/ViewExtensions.kt:128-144 | A marked view has no owner or a DESTROYED one, and destroy keeps this: it sets the marker only together with forceMarkState(DESTROYED). |
| ViewExtensions.UpdateKeepsMarkedDestroyed | viewlifecycle/src/main/java/com/ea/viewlifecycle/ViewExtensions.kt:57-68 | Replacing one view's tags keeps MarkedDestroyed when the new tags keep it. This covers the owner attach, which clears the marker, and the dispatcher slot. |
| ViewExtensions.DestroyRefusesViewModels | viewlifecycle/src/main/java/com/ea/viewlifecycle/ViewExtensions.kt:116-144 | With closed markers whose owners are DESTROYED, after destroy no view of the subtree hands out a ViewModelProvider. Both properties still hold afterwards. |
| ViewIds.Advance | viewlifecycle/src/main/java/com/ea/viewlifecycle/ViewExtensions.kt:193-197 | The next counter value is one more, or 1 past 16777215, and stays in 1..16777215. |
| ViewIds.AdvanceByWraps | viewlifecycle/src/main/java/com/ea/viewlifecycle/ViewExtensions.kt:183-200 | Within one period, the j-th id from x is x + j, wrapped once past 16777215. |
| ViewIds.PeriodIsMaxId | viewlifecycle/src/main/java/com/ea/viewlifecycle/ViewExtensions.kt:183-200 | After 16777215 ids the counter is back where it started. |
| ViewIds.DistinctWithinPeriod | viewlifecycle/src/main/java/com/ea/viewlifecycle/ViewExtensions.kt:183-200 | Any 16777215 successive ids are pairwise distinct. |
| ViewIds.IdGenerator.constructor | viewlifecycle/src/main/java/com/ea/viewlifecycle/ViewExtensions.kt:183 | The counter starts at 1. |
| ViewIds.IdGenerator.Generate | viewlifecycle/src/main/java/com/ea/viewlifecycle/ViewExtensions.kt:190-200 | Returns the current counter value, which lies in 1..16777215, and advances the counter with wrap-around. |

## Left out

- Asynchronous platform event delivery is not modelled: `afterMeasured`, the global-layout
  listeners and `post { }` (VL:34-42 and 221-236; VE:37-55 and 95-103). For
  `ensureParentLifecycleDispatcherAttached`, the earlier revision's synchronous branch is
  modelled. The later revision's version only registers a listener, so nothing of it is
  modelled. The later `attachLifecycleDispatcher` is split into its synchronous guard and the
  posted block, and the model does not say when the block runs. `requestLayout()` is not
  modelled.
- The `lifecycleOwner` delegate properties (VL:28-32, VE:31-35) are not modelled. Neither are
  `ViewLifecycleOwnerDelegate`, `LazyLifecycleOwnerDelegate`, `HolderDelegate` and
  `DispatcherHolderDelegate`. Their code is not part of this model.
- `ViewLifecycleOwner`, `ViewGroupLifecycleDispatcher` and `HierarchyLifecycleDispatcher` are
  not part of this model. An owner is an identity plus a state. A new owner is taken to start
  INITIALIZED. `markState`/`forceMarkState` are plain assignments of the state. A dispatcher is
  a present/absent slot, and `clear()` is recorded in a log without its effect. Listener
  behaviour, and what the owner does with states after DESTROYED, are not modelled.
- `ViewModelProviders.of`, `ViewCompanionFragment.getOrCreate` and `Bundle` arguments are
  library calls. `viewModelProvider` returns a token naming the view's companion. The
  `getOrCreate` call in both `trackNavigation`s is left out. The companion is kept only as its
  `destroyed` bit.
- ViewLifecycle.TrackNavigation: does not model that tracking creates the companion fragment,
  because that is a library call.
- ViewExtensions.TrackNavigation: states only the navigator flag. The listener that
  `ensureParentLifecycleDispatcherAttached` registers is asynchronous.
- ViewIds.IdGenerator.Generate: the compare-and-set retry loop is modelled single-threaded.
  There, the first compare-and-set always succeeds, so the method is straight-line. The
  `Build.VERSION` branch that calls the platform's `View.generateViewId()` is not modelled.
- Views are identified by a natural number. Java object identity (`===`) is identity of these
  ids. Activities are reduced to an identifier and are never compared.
- Reconciliation of subtrees across configuration changes is not in these files.
- ViewExtensions.DestroyMarksSubtree: "every view of the subtree carries the marker afterwards"
  is proved only when markers are closed downward (a marked view's children are marked).
  destroy keeps that property (ViewExtensions.DestroyKeepsMarkClosed). Any unmarked view under a
  marked group breaks it: a view re-owned under an already destroyed container (attaching an owner
  clears only that view's marker), or a child added after its group was destroyed, which in the
  model is simply a starting tag map that is not closed.
- ViewExtensions.DestroyRefusesViewModels: the refusal is proved only under closed markers whose
  owners are absent or DESTROYED. destroy, attaching an owner, tracking navigation and the posted
  dispatcher attach keep the second property. A view destroy skips because it is already marked
  keeps its tags, so without the first property a skipped subtree view could still hand out a
  provider. destroy then skips the re-owned view, which is what the code does.

## Findings

| source | as written | input that shows it | evidently intended | confidence | as-written member | corrected member |
|---|---|---|---|---|---|---|
| viewlifecycle/src/main/java/com/ea/viewlifecycle/ViewLifecycle.kt:193-219 | innerStem adds the view itself when it is a group, without checking it against safeRoot. When the group is its own safeRoot, the parent walk never meets the safe root: it lists every group ancestor, past the safe root. fullStem then appends the view a second time. | A ViewGroup whose parent is the window's view root, i.e. a top-level group: safeRoot is the group, and fullStem is `[g, g]`. Another case is a group whose parent group has no FragmentActivity. | The stem runs from where the safe-root climb starts up to the safe root, each group once. This is the shape the later revision's `stem` has. | not executed | ViewLifecycle.FullStemRepeatsView (with ViewLifecycle.FullStemTwiceAtTop) | ViewLifecycle.FixedFullStemClimbs (with ViewLifecycle.FullStemAsIntended) |
