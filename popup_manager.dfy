/**
 * PopupManager: the compositor-wide registry of popups. It keeps the popups
 * that are not yet mapped, the trees of mapped popups (one per root
 * surface), and the grab chains of the seats that hold a popup grab.
 *
 * The popup tree of a root surface lives in that surface's data map and is
 * shared with the manager's own list of trees; here the data maps are the
 * field `attached` (root surface to its tree) and the manager's list holds
 * root identities, so both views always see the same tree. Notifications
 * the manager sends to clients are appended to the field `sent`.
 */
module Manager {
  import opened Base
  import opened Surfaces
  import opened PopupForest
  import opened PopupTree

  /** The grab errors the manager produces or passes on from a grab chain. */
  datatype PopupGrabError =
    | DeadResource
    | NoPopup
    | InvalidGrab
    | ParentDismissed
    | NotTheTopmostPopup
    | OtherChainError

  /** The two protocol errors the manager posts to a client. */
  datatype WireError = XdgPopupInvalidGrab | XdgWmBaseNotTheTopmostPopup

  /** A message to a client: popup_done, or a protocol error on a surface. */
  datatype Event = Done(popup: SurfaceId) | ProtocolError(surface: SurfaceId, error: WireError)

  /**
   * What the seat's grab chain answers when asked to grab a popup: the
   * serial of the grab it replaces, or the error it refuses with.
   */
  datatype ChainOutcome = Granted(previous: Option<Serial>) | Refused(error: PopupGrabError)

  /** A granted grab (PopupGrab): the seat, the popup, and the serials. */
  datatype Grab = Grab(seat: SeatId, popup: SurfaceId, serial: Serial, previous: Option<Serial>)

  /** popup_done, sent to each popup in turn. */
  function DoneEvents(ps: seq<SurfaceId>): (es: seq<Event>)
    ensures |es| == |ps| && forall k :: 0 <= k < |ps| ==> es[k] == Done(ps[k])
  {
    if ps == [] then [] else [Done(ps[0])] + DoneEvents(ps[1..])
  }

  /** The tree in a surface's data map; a surface without one has none. */
  function TreeOf(attached: map<SurfaceId, seq<Node>>, root: SurfaceId): seq<Node>
  {
    if root in attached then attached[root] else []
  }

  /** The roots whose stored tree passes PopupTree::alive: exactly those whose tree holds a popup. */
  function LiveRoots(attached: map<SurfaceId, seq<Node>>): (r: set<SurfaceId>)
    ensures forall x :: x in r <==> x in attached && Ids(attached[x]) != []
  {
    set x | x in attached.Keys && TreeAlive(attached[x])
  }

  /**
   * Vec::swap_remove: the element at `i` is removed and the last element
   * takes its place.
   */
  function SwapRemove<T>(s: seq<T>, i: nat): (r: seq<T>)
    requires i < |s|
    ensures |r| == |s| - 1
    ensures forall j :: 0 <= j < |r| ==> r[j] == (if j == i then s[|s| - 1] else s[j])
  {
    if i == |s| - 1 then s[..i] else s[..i] + [s[|s| - 1]] + s[i + 1..|s| - 1]
  }

  /** swap_remove takes out exactly the one element and keeps all the others. */
  lemma SwapRemovePermutes<T>(s: seq<T>, i: nat)
    requires i < |s|
    ensures multiset(SwapRemove(s, i)) + multiset{s[i]} == multiset(s)
  {
    var n := |s| - 1;
    if i == n {
      assert s == s[..i] + [s[i]];
    } else {
      var a, b := s[..i], s[i + 1..n];
      assert s == a + [s[i]] + b + [s[n]];
      assert SwapRemove(s, i) == a + [s[n]] + b;
    }
  }

  /** The first placement of `surface` in a listing (Iterator::find). */
  function FindIn(items: seq<Placed>, surface: SurfaceId): (r: Option<SurfaceId>)
    ensures r == Some(surface) <==> surface in PopupsOf(items)
    ensures r != Some(surface) ==> r == None
  {
    if items == [] then None
    else if items[0].popup == surface then Some(items[0].popup)
    else
      assert PopupsOf(items) == [items[0].popup] + PopupsOf(items[1..]);
      FindIn(items[1..], surface)
  }

  /** The search of find_popup through the listed trees, one tree after the other. */
  function FindInTrees(roots: seq<SurfaceId>, attached: map<SurfaceId, seq<Node>>, t: SurfaceTable, surface: SurfaceId)
    : (r: Option<SurfaceId>)
    ensures r == Some(surface) <==> exists i :: 0 <= i < |roots| && surface in Ids(TreeOf(attached, roots[i]))
    ensures r != Some(surface) ==> r == None
  {
    if roots == [] then None
    else
      IterPopupsVisitsIds(TreeOf(attached, roots[0]), t);
      var here := FindIn(IterPopups(TreeOf(attached, roots[0]), t), surface);
      var later := FindInTrees(roots[1..], attached, t, surface);
      assert (exists i :: 1 <= i < |roots| && surface in Ids(TreeOf(attached, roots[i])))
         <==> (exists i :: 0 <= i < |roots[1..]| && surface in Ids(TreeOf(attached, roots[1..][i])));
      if here.Some? then here else later
  }

  /**
   * Every listed tree is stored at its root, and every stored tree that
   * holds a popup is listed, so that find_popup and cleanup reach it.
   */
  predicate Registry(trees: seq<SurfaceId>, attached: map<SurfaceId, seq<Node>>)
  {
    && (forall r :: r in trees ==> r in attached)
    && (forall r :: r in attached && attached[r] != [] ==> r in trees)
  }

  /**
   * The listed trees after add_popup has made sure `root` has a tree: a new
   * tree is listed when it is created, and listed (again) while it is empty,
   * since cleanup unlists empty trees.
   */
  function Register(trees: seq<SurfaceId>, attached: map<SurfaceId, seq<Node>>, root: SurfaceId): (r: seq<SurfaceId>)
    ensures |trees| <= |r| <= |trees| + 2 && r[..|trees|] == trees
    ensures forall k :: |trees| <= k < |r| ==> r[k] == root
    ensures (root !in attached || attached[root] == []) ==> r != [] && Last(r) == root
  {
    trees + (if root in attached then [] else [root])
          + (if root in attached && attached[root] != [] then [] else [root])
  }

  /** Registering a root and storing a non-empty tree there keeps the registry whole. */
  lemma RegisterKeepsRegistry(trees: seq<SurfaceId>, attached: map<SurfaceId, seq<Node>>, root: SurfaceId,
                              tree: seq<Node>)
    requires Registry(trees, attached)
    ensures root in Register(trees, attached, root)
    ensures Registry(Register(trees, attached, root), attached[root := tree])
  {
    var trees' := Register(trees, attached, root);
    assert forall r :: r in trees ==> r in trees';
    if !(root in attached && attached[root] != []) {
      assert trees'[|trees'| - 1] == root;
    }
  }

  /** The manager's state after add_popup has put `popup` into the tree of its root. */
  ghost predicate Added(t: SurfaceTable, popup: SurfaceId,
                        trees0: seq<SurfaceId>, attached0: map<SurfaceId, seq<Node>>,
                        trees1: seq<SurfaceId>, attached1: map<SurfaceId, seq<Node>>)
    requires popup in t.parent && Resolvable(t, t.parent[popup])
  {
    var root := Root(t, t.parent[popup]);
    && trees1 == Register(trees0, attached0, root)
    && attached1 == attached0[root := Inserted(TreeOf(attached0, root), popup, t.parent[popup])]
  }

  /** Dismissing in a stored tree keeps the registry whole (a tree only shrinks). */
  lemma DismissKeepsRegistry(trees: seq<SurfaceId>, attached: map<SurfaceId, seq<Node>>, root: SurfaceId,
                             popup: SurfaceId)
    requires Registry(trees, attached) && root in attached
    ensures Registry(trees, attached[root := Dismissed(attached[root], popup).nodes])
  {
  }

  /**
   * The loop of cleanup over the listed trees: each listed tree is cleaned in
   * place; a root listed twice is cleaned twice, to the same result.
   */
  method CleanListed(trees: seq<SurfaceId>, attached: map<SurfaceId, seq<Node>>, live: set<SurfaceId>)
    returns (cleaned: map<SurfaceId, seq<Node>>)
    requires forall r :: r in trees ==> r in attached
    ensures cleaned.Keys == attached.Keys
    ensures forall r :: r in cleaned ==>
      cleaned[r] == if r in trees then Pruned(attached[r], live) else attached[r]
  {
    cleaned := attached;
    var i := 0;
    while i < |trees|
      invariant i <= |trees|
      invariant cleaned.Keys == attached.Keys
      invariant forall r :: r in cleaned ==>
        cleaned[r] == if r in trees[..i] then Pruned(attached[r], live) else attached[r]
    {
      var tree := TreeCleanup(cleaned[trees[i]], live);
      CleanListedStep(trees, attached, cleaned, live, i);
      cleaned := cleaned[trees[i] := tree];
      i := i + 1;
    }
    assert trees[..i] == trees;
  }

  /** One step of the cleanup loop: the next listed root's tree is cleaned. */
  lemma CleanListedStep(trees: seq<SurfaceId>, attached: map<SurfaceId, seq<Node>>,
                        cleaned: map<SurfaceId, seq<Node>>, live: set<SurfaceId>, i: nat)
    requires i < |trees| && trees[i] in cleaned && cleaned.Keys == attached.Keys
    requires forall r :: r in cleaned ==>
      cleaned[r] == if r in trees[..i] then Pruned(attached[r], live) else attached[r]
    ensures var cleaned' := cleaned[trees[i] := Pruned(cleaned[trees[i]], live)];
      forall r :: r in cleaned' ==>
        cleaned'[r] == if r in trees[..i + 1] then Pruned(attached[r], live) else attached[r]
  {
    var root := trees[i];
    if root in trees[..i] {
      PrunedIdempotent(attached[root], live);
    }
    assert trees[..i + 1] == trees[..i] + [root];
  }

  /**
   * After every listed tree is cleaned and the empty ones are unlisted, the
   * registry is whole, every tree still listed holds a popup, and no stored
   * tree holds a dead popup.
   */
  lemma CleanupKeepsRegistry(trees: seq<SurfaceId>, attached: map<SurfaceId, seq<Node>>,
                             cleaned: map<SurfaceId, seq<Node>>, live: set<SurfaceId>)
    requires Registry(trees, attached)
    requires cleaned.Keys == attached.Keys
    requires forall r :: r in cleaned ==> cleaned[r] == if r in trees then Pruned(attached[r], live) else attached[r]
    ensures forall r :: r in cleaned ==> cleaned[r] == Pruned(attached[r], live)
    ensures Registry(Retain(trees, LiveRoots(cleaned)), cleaned)
    ensures forall r :: r in Retain(trees, LiveRoots(cleaned)) ==> cleaned[r] != []
    ensures forall r, x :: r in cleaned && x in Ids(cleaned[r]) ==> x in live
  {
    forall r | r in cleaned
      ensures cleaned[r] == Pruned(attached[r], live)
    {
      if r !in trees {
        assert attached[r] == [];
      }
    }
    forall r, x | r in cleaned && x in Ids(cleaned[r])
      ensures x in live
    {
      PrunedLeavesNoDead(attached[r], live);
    }
  }

  /**
   * The effect of dismissing `popup` in the tree of `root`: the tree loses
   * the popup's subtree and every popup of that subtree is sent popup_done;
   * nothing happens when the root has no tree.
   */
  predicate DismissedIn(attached0: map<SurfaceId, seq<Node>>, sent0: seq<Event>, root: SurfaceId, popup: SurfaceId,
                        attached1: map<SurfaceId, seq<Node>>, sent1: seq<Event>): (r: bool)
    ensures r ==> attached1.Keys == attached0.Keys && |sent0| <= |sent1| && sent1[..|sent0|] == sent0
    ensures r ==> forall k :: |sent0| <= k < |sent1| ==> sent1[k].Done?
    ensures r ==> forall x :: x in attached1 && x != root ==> attached1[x] == attached0[x]
  {
    if root in attached0 then
      var d := Dismissed(attached0[root], popup);
      attached1 == attached0[root := d.nodes] && sent1 == sent0 + DoneEvents(d.done)
    else
      attached1 == attached0 && sent1 == sent0
  }

  class PopupManager {
    /** Popups tracked before they have a parent, or before their first commit. */
    var unmapped: seq<SurfaceId>
    /** The listed popup trees, by root surface (a root may be listed twice). */
    var trees: seq<SurfaceId>
    /** The seats whose grab chain the manager cleans up. */
    var grabs: seq<SeatId>
    /** The popup tree stored in each root surface's data map. */
    var attached: map<SurfaceId, seq<Node>>
    /** Every message sent to clients, oldest first. */
    var sent: seq<Event>

    /** The listed trees and the stored trees agree (see Registry). */
    predicate Valid()
      reads this
    {
      Registry(trees, attached)
    }

    /** PopupManager::new: nothing tracked, listed or grabbed. */
    constructor ()
      ensures Valid()
      ensures unmapped == [] && trees == [] && grabs == [] && attached == map[] && sent == []
    {
      unmapped := [];
      trees := [];
      grabs := [];
      attached := map[];
      sent := [];
    }

    /**
     * find_popup: the unmapped popups first, then the listed trees in order;
     * the popup is found exactly when it is in one of them.
     */
    function FindPopup(t: SurfaceTable, surface: SurfaceId): (r: Option<SurfaceId>)
      reads this
      ensures r == Some(surface) <==>
        surface in unmapped || exists i :: 0 <= i < |trees| && surface in Ids(TreeOf(attached, trees[i]))
      ensures r != Some(surface) ==> r == None
    {
      if surface in unmapped then Some(surface) else FindInTrees(trees, attached, t, surface)
    }

    /** In a valid manager every popup of every stored tree is found. */
    lemma FoundWhenAttached(t: SurfaceTable, root: SurfaceId, surface: SurfaceId)
      requires Valid() && root in attached && surface in Ids(attached[root])
      ensures FindPopup(t, surface) == Some(surface)
    {
      assert attached[root] != [];
      var i := FirstIndex(trees, root);
      assert surface in Ids(TreeOf(attached, trees[i]));
    }

    /**
     * popups_for_surface: the popups of the tree stored at `surface` with
     * their offsets relative to it, none when it has no tree.
     */
    function PopupsForSurface(t: SurfaceTable, surface: SurfaceId): (r: seq<Placed>)
      reads this
      ensures surface !in attached ==> r == []
      ensures surface in attached ==>
        var cs := Chains(attached[surface], []);
        && PopupsOf(r) == Ids(attached[surface])
        && |r| == |cs|
        && forall k :: 0 <= k < |cs| ==> r[k].offset == Offset(cs[k], t)
    {
      if surface in attached then
        IterPopupsVisitsIds(attached[surface], t);
        IterPopupsOffsets(attached[surface], t);
        IterPopups(attached[surface], t)
      else []
    }

    /**
     * add_popup: resolve the popup's root (DeadResource, and no change, when
     * it has no parent), make sure the root has a listed tree, and insert the
     * popup into it. The popup is then found.
     */
    method AddPopup(t: SurfaceTable, popup: SurfaceId) returns (r: Result<(), DeadResource>)
      requires Valid()
      requires popup in t.parent ==> Resolvable(t, t.parent[popup])
      modifies this
      ensures Valid()
      ensures popup !in t.parent ==> r == Err(Surfaces.DeadResource) && trees == old(trees) && attached == old(attached)
      ensures popup in t.parent ==>
        && r == Ok(())
        && Added(t, popup, old(trees), old(attached), trees, attached)
        && FindPopup(t, popup) == Some(popup)
      ensures unmapped == old(unmapped) && grabs == old(grabs) && sent == old(sent)
    {
      var found := FindPopupRootSurface(t, popup);
      if found.Err? {
        return Err(found.error);
      }
      var root := found.value;
      var before := TreeOf(attached, root);
      RegisterKeepsRegistry(trees, attached, root, Inserted(before, popup, t.parent[popup]));
      trees := Register(trees, attached, root);
      var tree := TreeInsert(before, popup, t.parent[popup]);
      var e := InsertedIds(before, popup, t.parent[popup]);
      assert Ids(tree)[e] == popup;
      attached := attached[root := tree];
      FoundWhenAttached(t, root, popup);
      r := Ok(());
    }

    /**
     * track_popup: a popup that already has a parent goes straight into its
     * root's tree; one without a parent waits among the unmapped popups.
     * Either way it is tracked and find_popup finds it.
     */
    method TrackPopup(t: SurfaceTable, popup: SurfaceId) returns (r: Result<(), DeadResource>)
      requires Valid()
      requires popup in t.parent ==> Resolvable(t, t.parent[popup])
      modifies this
      ensures Valid()
      ensures r == Ok(())
      ensures popup !in t.parent ==>
        unmapped == old(unmapped) + [popup] && trees == old(trees) && attached == old(attached)
      ensures popup in t.parent ==>
        unmapped == old(unmapped) && Added(t, popup, old(trees), old(attached), trees, attached)
      ensures FindPopup(t, popup) == Some(popup)
      ensures grabs == old(grabs) && sent == old(sent)
    {
      if popup in t.parent {
        r := AddPopup(t, popup);
      } else {
        unmapped := unmapped + [popup];
        r := Ok(());
      }
    }

    /**
     * commit: when a surface with the popup role that is waiting among the
     * unmapped popups is committed, it is swap-removed from them and added
     * to its root's tree; the result of add_popup is ignored, so a popup
     * that still has no parent is dropped. Any other commit changes nothing.
     */
    method Commit(t: SurfaceTable, surface: SurfaceId)
      requires Valid()
      requires surface in t.parent ==> Resolvable(t, t.parent[surface])
      modifies this
      ensures Valid()
      ensures !(surface in t.popupRole && surface in old(unmapped)) ==>
        unmapped == old(unmapped) && trees == old(trees) && attached == old(attached)
      ensures surface in t.popupRole && surface in old(unmapped) ==>
        && unmapped == SwapRemove(old(unmapped), FirstIndex(old(unmapped), surface))
        && (surface in t.parent ==> Added(t, surface, old(trees), old(attached), trees, attached))
        && (surface !in t.parent ==> trees == old(trees) && attached == old(attached))
      ensures surface in old(unmapped) && surface in t.parent ==> FindPopup(t, surface) == Some(surface)
      ensures grabs == old(grabs) && sent == old(sent)
    {
      if surface in t.popupRole && surface in unmapped {
        var i := FirstIndex(unmapped, surface);
        unmapped := SwapRemove(unmapped, i);
        var _ := AddPopup(t, surface);
      }
    }

    /**
     * dismiss_popup: DeadResource, and no change, when the root surface is
     * dead; otherwise the popup's subtree is removed from the root's tree (if
     * it has one) and its popups are sent popup_done.
     */
    method DismissPopup(t: SurfaceTable, root: SurfaceId, popup: SurfaceId) returns (r: Result<(), DeadResource>)
      requires Valid()
      modifies this
      ensures Valid()
      ensures root !in t.live ==> r == Err(Surfaces.DeadResource) && attached == old(attached) && sent == old(sent)
      ensures root in t.live ==> r == Ok(()) && DismissedIn(old(attached), old(sent), root, popup, attached, sent)
      ensures root in t.live && root in old(attached) && Distinct(Ids(old(attached)[root])) ==>
        popup !in Ids(attached[root])
      ensures unmapped == old(unmapped) && trees == old(trees) && grabs == old(grabs)
    {
      if root !in t.live {
        return Err(Surfaces.DeadResource);
      }
      if root in attached {
        var tree := attached[root];
        var nodes, done := TreeDismiss(tree, popup);
        assert Distinct(Ids(tree)) ==> popup !in Ids(nodes) by {
          if Distinct(Ids(tree)) {
            DismissPopupEffect(tree, popup);
          }
        }
        DismissKeepsRegistry(trees, attached, root, popup);
        attached := attached[root := nodes];
        sent := sent + DoneEvents(done);
      }
      r := Ok(());
    }

    /**
     * grab_popup, with the seat's grab chain given by whether it is active
     * and by what it answers. The checks run in order: the target is a popup
     * (NoPopup), its root resolves (DeadResource), it has not been committed
     * yet (InvalidGrab, also posted to the client). Then an inactive chain is
     * listed for cleanup, which stays even when the chain refuses; on a
     * refusal ParentDismissed dismisses the target in its root's tree,
     * NotTheTopmostPopup is posted to the client, and the error is returned.
     */
    method GrabPopup(t: SurfaceTable, target: SurfaceId, seat: SeatId, serial: Serial,
                     chainActive: bool, outcome: ChainOutcome)
      returns (r: Result<Grab, PopupGrabError>)
      requires Valid()
      requires target in t.parent ==> Resolvable(t, t.parent[target])
      modifies this
      ensures Valid()
      ensures unmapped == old(unmapped) && trees == old(trees)
      ensures target !in t.popupRole ==>
        r == Err(NoPopup) && grabs == old(grabs) && attached == old(attached) && sent == old(sent)
      ensures target in t.popupRole && target !in t.parent ==>
        r == Err(PopupGrabError.DeadResource) && grabs == old(grabs) && attached == old(attached) && sent == old(sent)
      ensures target in t.popupRole && target in t.parent && target in t.committed ==>
        && r == Err(InvalidGrab)
        && sent == old(sent) + [ProtocolError(target, XdgPopupInvalidGrab)]
        && grabs == old(grabs) && attached == old(attached)
      ensures target in t.popupRole && target in t.parent && target !in t.committed ==>
        && grabs == old(grabs) + (if chainActive then [] else [seat])
        && (outcome.Granted? ==>
              r == Ok(Grab(seat, target, serial, outcome.previous)) && attached == old(attached) && sent == old(sent))
        && (outcome.Refused? ==> r == Err(outcome.error))
        && (outcome == Refused(ParentDismissed) ==>
              var root := Root(t, t.parent[target]);
              if root in t.live then DismissedIn(old(attached), old(sent), root, target, attached, sent)
              else attached == old(attached) && sent == old(sent))
        && (outcome == Refused(NotTheTopmostPopup) ==>
              sent == old(sent) + [ProtocolError(target, XdgWmBaseNotTheTopmostPopup)] && attached == old(attached))
        && (outcome.Refused? && outcome.error !in {ParentDismissed, NotTheTopmostPopup} ==>
              attached == old(attached) && sent == old(sent))
    {
      if target !in t.popupRole {
        return Err(NoPopup);
      }
      var found := FindPopupRootSurface(t, target);
      if found.Err? {
        return Err(PopupGrabError.DeadResource);
      }
      var root := found.value;
      if target in t.committed {
        sent := sent + [ProtocolError(target, XdgPopupInvalidGrab)];
        return Err(InvalidGrab);
      }
      if !chainActive {
        grabs := grabs + [seat];
      }
      match outcome
      case Granted(previous) =>
        r := Ok(Grab(seat, target, serial, previous));
      case Refused(error) =>
        if error == ParentDismissed {
          var _ := DismissPopup(t, root, target);
        } else if error == NotTheTopmostPopup {
          sent := sent + [ProtocolError(target, XdgWmBaseNotTheTopmostPopup)];
        }
        r := Err(error);
    }

    /**
     * cleanup, with the seats whose grab chain is still alive after its own
     * cleanup given as `chainAlive`: dead chains are dropped, every listed
     * tree loses its dead popups, the trees left empty are unlisted, and the
     * dead unmapped popups are dropped; each list keeps its order.
     */
    method Cleanup(t: SurfaceTable, chainAlive: set<SeatId>)
      requires Valid()
      modifies this
      ensures Valid()
      ensures grabs == Retain(old(grabs), chainAlive)
      ensures unmapped == Retain(old(unmapped), t.live)
      ensures attached.Keys == old(attached).Keys
      ensures forall r :: r in attached ==> attached[r] == Pruned(old(attached)[r], t.live)
      ensures trees == Retain(old(trees), LiveRoots(attached))
      ensures sent == old(sent)
      ensures forall r :: r in trees ==> attached[r] != []
      ensures forall r, x :: r in attached && x in Ids(attached[r]) ==> x in t.live
    {
      var grabs0, trees0, attached0, unmapped0 := grabs, trees, attached, unmapped;
      var cleaned := CleanListed(trees0, attached0, t.live);
      CleanupKeepsRegistry(trees0, attached0, cleaned, t.live);
      grabs, attached := Retain(grabs0, chainAlive), cleaned;
      trees, unmapped := Retain(trees0, LiveRoots(cleaned)), Retain(unmapped0, t.live);
    }
  }
}
