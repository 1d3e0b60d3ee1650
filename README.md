# Popup bookkeeping of a Wayland compositor toolkit

This project models the popup manager of smithay's desktop layer
(`src/desktop/popup/manager.rs`) and proves properties of that model in Dafny.

The manager keeps three pieces of state:
- the popups that are tracked but not yet mapped;
- the list of popup trees;
- the seats whose grab chain it must clean up.

Every root (non-popup) surface can carry one popup tree in its data map. The
tree is an ordered forest: each node holds one popup and its children, in
creation order.

The model has five modules, one per file:

- `Base` (`base.dfy`): surface ids as natural numbers, `Option`/`Result`, integer points, and the sequence vocabulary.
  - The vocabulary covers `Vec::retain` as `Filter` (by a test) and `Retain` (by a set, a `Filter` application), `Iterator::position` as `FirstIndex`, `Reverse`, `Distinct` and `Subsequence`.
- `Surfaces` (`surfaces.dfy`): what the protocol layer knows about surfaces, as a `SurfaceTable` value.
  - The table is the live set, the popup-role set, each popup's declared parent, the committed set, and each popup's location.
  - The module also holds root resolution, `find_popup_root_surface`, as a method with a `while` loop.
- `PopupForest` (`popup_forest.dfy`): the node datatype and two pre-order views of a forest.
  - `Ids(f)` lists every popup in pre-order.
  - `Chains(f, pre)` gives, for every node, the popups on the path from its root down to it.
  - The module also defines iteration with offsets, and reference definitions of insert (`Inserted`), dismiss (`Dismissed`) and cleanup (`Pruned`).
  - Properties are stated in terms of the chains. Insert splices exactly one chain in. Dismiss filters out the chains through the popup. Cleanup keeps exactly the chains that are live all the way down.
- `PopupTree` (`popup_tree.dfy`): `PopupTree`/`PopupNode` `insert`, `send_done`, `dismiss_popup` and `cleanup`, each a loop over a list of children, as in the source. Each is proved equal to its reference definition.
  - `insert` walks the children front to back and stops at the first child that takes the popup. The source uses an iterator loop here (`for child in children.iter_mut()`); the model counts an index.
  - `send_done` walks the children back to front and changes nothing.
  - `dismiss_popup` is an index loop. It updates each searched child in place, and it removes the first child that matches and stops there.
  - `cleanup` cleans every child in place, never stopping early, and then retains the live ones.
- `Manager` (`popup_manager.dfy`): the `PopupManager` class.
  - Fields:
    - `unmapped`, `trees` and `grabs`, which are the manager's three `Vec`s;
    - `attached`, the per-root-surface tree in the data map;
    - `sent`, the log of `popup_done` and protocol errors, in order.
  - Methods: `track_popup`, `commit`, `grab_popup`, `add_popup`, `dismiss_popup` and `cleanup`.
  - Functions: `find_popup` and `popups_for_surface`.

A `PopupTree` is an `Arc<Mutex<…>>` shared by the root surface's data map and
the manager's list. The model therefore stores each tree once, in `attached`,
keyed by its root. `trees` lists root ids, and an id can occur several times.
`add_popup` pushes a new tree twice, once on creation and once because it is
empty. A tree emptied by `dismiss_popup` also stays listed until `cleanup`, and
each later `add_popup` to it pushes it again. The class invariant
`Valid()` (`Registry`) states two things:
- every listed root has a stored tree;
- every stored non-empty tree is listed.

Surfaces other than the manager's own are inputs. The `SurfaceTable` fixes the protocol facts at the moment of a call. A seat's grab chain is an oracle:
- `chainActive` is its `active()`;
- `outcome` is its answer to `grab`;
- `chainAlive` is the seats still alive after their own `cleanup`.

`unwrap()` on the popup's `XdgPopupSurfaceData` panics when the data is missing. The model states this as a precondition: `Resolvable` holds when the climb from a popup's parent reaches a non-popup surface.

## Model

| member | source | states |
|---|---|---|
| Surfaces.FindPopupRootSurface | src/desktop/popup/manager.rs:232-249 | returns `DeadResource` exactly when the popup has no declared parent; otherwise returns the root reached by climbing parents while the surface has the popup role |
| Surfaces.RootIsFirstNonPopupAncestor | src/desktop/popup/manager.rs:234-247 | the resolved root does not have the popup role and is reached from the parent by a climb through popup-role surfaces only |
| Surfaces.ClimbDeterministic | src/desktop/popup/manager.rs:234-247 | two such climbs that both stop at a non-popup surface stop at the same surface after the same number of steps, so the root is unique |
| Surfaces.RootStep | src/desktop/popup/manager.rs:234-246 | one step of the climb from a popup keeps the climb resolvable and does not change the root (the loop invariant) |
| Surfaces.RootWithinAnyFuel | src/desktop/popup/manager.rs:234-247 | the root found does not depend on how many steps were allowed |
| PopupForest.IterPopupsOffsets | src/desktop/popup/manager.rs:261-269 | iter_popups yields one item per node in pre-order; the offset of each item is the sum of location() over the popups from its root down to and including it, starting from (0, 0) |
| PopupForest.IterPopupsVisitsIds | src/desktop/popup/manager.rs:261-269 | the popups iter_popups yields are exactly the tree's popups in pre-order |
| PopupForest.IterFollowsChains | src/desktop/popup/manager.rs:318-327 | iter_popups_relative_to from the offset of a prefix chain yields each node's chain with its summed offset, in pre-order |
| PopupForest.LastsOfChains | src/desktop/popup/manager.rs:318-327 | the pre-order listing of chains ends, entry by entry, in the nodes' own popups |
| PopupForest.InsertedPlacesPopup | src/desktop/popup/manager.rs:271-279 | if some node holds the parent, the new chain extends the chain of the first such node in pre-order and is spliced in right after that node's subtree (so it is the last child); otherwise the chain `[p]` becomes the last root; all other chains keep their place and the node count grows by one |
| PopupForest.InsertedIds | src/desktop/popup/manager.rs:271-279 | insert adds exactly `p` to the pre-order list of popups, at one position, and the position is the end when no node holds the parent |
| PopupForest.AttachedSplice | src/desktop/popup/manager.rs:329-342 | PopupNode::insert on a forest that holds the parent splices the new chain after the subtree of the first node holding the parent |
| PopupForest.AttachedAbsent | src/desktop/popup/manager.rs:329-342 | PopupNode::insert changes nothing when no node holds the parent |
| PopupTree.NodeInsert | src/desktop/popup/manager.rs:329-342 | reports success exactly when the parent is in the node's subtree; the result is the reference attachment, and the node is unchanged on failure |
| PopupTree.TreeInsert | src/desktop/popup/manager.rs:271-279 | the loop over the roots computes the reference insert |
| PopupTree.SendDone | src/desktop/popup/manager.rs:344-350 | the notifications are the subtree in reverse pre-order: children last to first, each subtree bottom-up, the node itself last |
| PopupForest.DismissedAbsent | src/desktop/popup/manager.rs:352-371 | dismissing a popup that is in no node changes nothing and sends nothing |
| PopupForest.DismissedRemovesSubtree | src/desktop/popup/manager.rs:352-371 | with distinct popups, the remaining chains are exactly the old chains that do not pass through `p`, in their order; the notifications are the removed popups in reverse pre-order, `p` last |
| PopupForest.DismissPopupEffect | src/desktop/popup/manager.rs:281-295 | PopupTree::dismiss_popup on a tree with distinct popups removes `p` and its descendants and keeps every other node with its chain and order; `p` is gone afterwards; done is the removed subtree in reverse pre-order with `p` last |
| PopupTree.NodeDismiss | src/desktop/popup/manager.rs:352-371 | reports a match exactly when the node is the popup (unchanged, notified as a subtree); otherwise returns the node with its children dismissed; the result and notifications equal the reference dismissal |
| PopupTree.DismissAmong | src/desktop/popup/manager.rs:284-294 | the loop that searches siblings in order, removes the first that matches and stops, computes the reference dismissal and its notifications |
| PopupTree.TreeDismiss | src/desktop/popup/manager.rs:281-295 | the loop over the roots computes the reference dismissal and its notifications |
| PopupForest.PrunedKeepsLiveChains | src/desktop/popup/manager.rs:373-387 | after cleanup a node remains exactly when it and all its ancestors are alive, and the remaining chains keep their order; a dead node goes with its live children |
| PopupForest.PrunedLeavesNoDead | src/desktop/popup/manager.rs:297-303 | after cleanup no popup of the tree is dead |
| PopupForest.PrunedIdempotent | src/desktop/popup/manager.rs:297-303 | cleaning an already cleaned tree changes nothing |
| PopupForest.KeepLiveCleaned | src/desktop/popup/manager.rs:384-386 | retaining the live nodes among children that have each been cleaned gives the reference cleanup |
| PopupTree.NodeCleanup | src/desktop/popup/manager.rs:373-387 | the node keeps its popup and its children become the reference cleanup of the old children |
| PopupTree.CleanupAmong | src/desktop/popup/manager.rs:299-302 | cleaning every sibling in place and then retaining the live ones computes the reference cleanup |
| PopupTree.TreeCleanup | src/desktop/popup/manager.rs:297-303 | the loop over the roots computes the reference cleanup |
| PopupTree.TreeAlive | src/desktop/popup/manager.rs:305-307 | a tree is alive exactly when it holds at least one popup |
| PopupForest.Leaf | src/desktop/popup/manager.rs:311-316 | PopupNode::new: a node that holds exactly the one popup |
| PopupForest.IterRelativeTo | src/desktop/popup/manager.rs:318-327 | iter_popups_relative_to: one item per node of the forest (its full behaviour is IterFollowsChains) |
| PopupForest.IterPopups | src/desktop/popup/manager.rs:261-269 | iter_popups: one item per node of the tree (its full behaviour is IterPopupsOffsets) |
| PopupForest.Attached | src/desktop/popup/manager.rs:329-342 | PopupNode::insert over a list of nodes never adds a sibling at that level (its full behaviour is AttachedSplice and AttachedAbsent) |
| PopupForest.Inserted | src/desktop/popup/manager.rs:271-279 | PopupTree::insert adds a root exactly when no node holds the parent (its full behaviour is InsertedPlacesPopup) |
| PopupForest.Dismissed | src/desktop/popup/manager.rs:352-371 | the dismissal loop removes at most one sibling at each level, and none when no sibling is the popup (its full behaviour is DismissedRemovesSubtree) |
| PopupForest.KeepLive | src/desktop/popup/manager.rs:386 | the retain of live children in PopupNode::cleanup: each live node is kept with its multiplicity and no dead node is kept |
| PopupForest.Pruned | src/desktop/popup/manager.rs:297-303 | cleanup never adds a node at any level (its full behaviour is PrunedKeepsLiveChains) |
| Manager.Register | src/desktop/popup/manager.rs:162-171 | add_popup keeps the listed trees as a prefix and pushes only the root, at most twice, and always when the root's tree is missing or empty |
| Manager.DismissedIn | src/desktop/popup/manager.rs:210-216 | dismissing keeps the set of roots that have a tree and every other root's tree, and only appends popup_done events to the log |
| Base.Retain | src/desktop/popup/manager.rs:225-228 | an element is in the retained list exactly when it is in the list and passes the test |
| Base.RetainCounts | src/desktop/popup/manager.rs:225-228 | each element that passes the test survives as many times as it occurs, so a root listed twice stays listed twice; no other element survives |
| Base.FilterCounts | src/desktop/popup/manager.rs:302 | the same for retain with an arbitrary test: each passing element is kept with its multiplicity and no other is kept |
| Base.FilterIsSubsequence | src/desktop/popup/manager.rs:225-228 | Vec::retain keeps the surviving elements in their order |
| Base.FirstIndex | src/desktop/popup/manager.rs:63-66 | position finds an index holding the element with no earlier occurrence |
| Manager.SwapRemove | src/desktop/popup/manager.rs:69 | swap_remove shortens the list by one and moves the last element into the removed slot, everything else in place |
| Manager.SwapRemovePermutes | src/desktop/popup/manager.rs:69 | swap_remove removes exactly the one element and keeps all others (as a multiset) |
| Manager.FindIn | src/desktop/popup/manager.rs:181-184 | the search of a listing finds the surface exactly when the surface is listed, and finds nothing otherwise |
| Manager.FindInTrees | src/desktop/popup/manager.rs:185-191 | the search through the listed trees finds the surface exactly when it is in one of those trees |
| Manager.LiveRoots | src/desktop/popup/manager.rs:227 | the roots that pass the `tree.alive()` test of that retain are exactly those whose stored tree holds at least one popup |
| Manager.DoneEvents | src/desktop/popup/manager.rs:344-350 | one popup_done per notified popup, in order |
| Manager.RegisterKeepsRegistry | src/desktop/popup/manager.rs:162-171 | after add_popup has made sure the root's tree is listed (pushed on creation, pushed again while empty), the root is listed and the registry invariant holds with the new tree stored |
| Manager.DismissKeepsRegistry | src/desktop/popup/manager.rs:210-216 | dismissing in a stored tree keeps the registry invariant |
| Manager.CleanListed | src/desktop/popup/manager.rs:226 | the loop over the listed trees cleans each listed root's tree (a root listed twice gives the same result) and leaves the other stored trees alone |
| Manager.CleanListedStep | src/desktop/popup/manager.rs:226 | one step of that loop keeps its invariant, also when the root was already cleaned |
| Manager.CleanupKeepsRegistry | src/desktop/popup/manager.rs:226-227 | after cleaning the listed trees and unlisting empty ones, every stored tree is cleaned, the registry invariant holds, every listed tree holds a popup, and no stored tree holds a dead popup |
| Manager.PopupManager.constructor | src/desktop/popup/manager.rs:40-47 | a new manager tracks, lists and grabs nothing, and is valid |
| Manager.PopupManager.FindPopup | src/desktop/popup/manager.rs:180-192 | finds the surface exactly when it is among the unmapped popups or in one of the listed trees |
| Manager.PopupManager.FoundWhenAttached | src/desktop/popup/manager.rs:180-192 | in a valid manager every popup of every stored tree is found |
| Manager.PopupManager.PopupsForSurface | src/desktop/popup/manager.rs:195-204 | nothing for a surface without a tree; otherwise its tree's popups in pre-order, each with the summed offset of its chain |
| Manager.PopupManager.AddPopup | src/desktop/popup/manager.rs:159-177 | DeadResource and no change without a parent; otherwise Ok, the root's tree is listed (twice when new), the popup is inserted into the tree stored at its resolved root, and find_popup finds it |
| Manager.PopupManager.TrackPopup | src/desktop/popup/manager.rs:50-58 | always Ok; without a parent the popup is appended to the unmapped list; with one it is added to its root's tree; find_popup finds it either way |
| Manager.PopupManager.Commit | src/desktop/popup/manager.rs:61-75 | a popup-role surface among the unmapped popups is swap-removed from them and added to its root's tree; any other commit changes nothing |
| Manager.PopupManager.DismissPopup | src/desktop/popup/manager.rs:206-218 | DeadResource and no change when the root is dead; Ok and no change when it has no tree; otherwise the reference dismissal in its tree with popup_done sent to the removed popups, and with distinct popups the popup is gone |
| Manager.PopupManager.GrabPopup | src/desktop/popup/manager.rs:92-147 | the checks in order: NoPopup, then DeadResource, then InvalidGrab (posted, nothing else changes); then an inactive chain is listed; a granted grab returns the grab; ParentDismissed dismisses the target in its root's tree; NotTheTopmostPopup is posted and nothing else changes; any refusal is returned |
| Manager.PopupManager.Cleanup | src/desktop/popup/manager.rs:222-229 | dead grab chains and dead unmapped popups are dropped, keeping order; every stored tree is cleaned; exactly the trees still alive stay listed, in order; afterwards every listed tree holds a popup and no tree holds a dead popup |

## Left out

- Logging and the `Debug` implementation (lines 27-36) produce diagnostics only.
- The `Arc<Mutex<…>>` around a tree is not modelled, and there is no concurrency. The shared tree is one entry of `attached`, keyed by its root surface. The list of trees holds root ids.
- The internals of the per-seat grab chain (`PopupGrabInner`: `grab`, `active`, `cleanup`, `alive`) are defined elsewhere. They are inputs to `GrabPopup` and `Cleanup`.
- Creating the chain in the seat's user data, the keyboard, the display handle and the construction of `PopupGrab` belong to the seat subsystem. A granted grab is a `Grab` value holding the seat, popup and serials.
- The `with_states` data-map machinery and the wire transport of `post_error` and `send_done` are not modelled. They become the `SurfaceTable`, the `attached` map and the `sent` log.
- Manager.PopupManager.GrabPopup takes the target as a surface id. The conversion of the keyboard focus into a popup (lines 92-93) is reduced to the popup-role test.
- Panics from `unwrap()` are preconditions (`Resolvable`), not modelled behaviour.
- The `i32` arithmetic of `Point` is modelled as unbounded integers, so overflow of offsets is not modelled.
- Manager.PopupManager.Cleanup:
  - states the surviving lists through `Retain`. Their order is the separate lemma `Base.FilterIsSubsequence`, and their multiplicity is `Base.RetainCounts`;
  - the ensures does not repeat those lemmas.
- PopupForest.DismissedRemovesSubtree, PopupForest.DismissPopupEffect and Manager.PopupManager.DismissPopup state what is removed only for trees whose popups are distinct.
  - Each popup enters a tree once: when it is tracked with a parent, or at its first commit.
  - With duplicates, the code would also dismiss a later occurrence in a later sibling. The model computes that faithfully, but no property is proved about it.
- The "dead node with live children" protocol error in `PopupNode::cleanup` (lines 378-384) is not modelled. The source reports nothing there either.

## Behaviour of the code worth noting

- `dismiss_popup` on a dead root surface returns `DeadResource` and changes nothing (lines 207-209).
- On `ParentDismissed`, `grab_popup` dismisses the popup being grabbed, in its root surface's tree (line 134).
- When the chain refuses a grab, its registration for cleanup (lines 125-127) stays, so a failed grab can still change `popup_grabs`.
- `commit` ignores the result of `add_popup` (line 72). A popup-role surface committed without a parent is removed from the unmapped list and is no longer tracked.
