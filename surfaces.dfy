/**
 * The surface facts the popup manager reads from the compositor's protocol
 * layer, and the resolution of a popup's root surface (the nearest ancestor
 * that is not itself a popup).
 */
module Surfaces {
  import opened Base

  /** The only error of root resolution and of the manager's own dismiss. */
  datatype DeadResource = DeadResource

  /**
   * What the protocol layer records about every surface at the moment of a
   * call: which surfaces are still alive, which carry the xdg_popup role,
   * the declared parent of each popup (its XdgPopupSurfaceData.parent), which
   * popups have been committed, and each popup's placement offset.
   */
  datatype SurfaceTable = SurfaceTable(
    live: set<SurfaceId>,
    popupRole: set<SurfaceId>,
    parent: map<SurfaceId, SurfaceId>,
    committed: set<SurfaceId>,
    location: map<SurfaceId, Point>)
  {
    /** The placement offset of a popup relative to its parent. */
    function Location(s: SurfaceId): Point
    {
      if s in location then location[s] else Origin
    }
  }

  /**
   * Climbing the parent chain from `s` reaches a surface without the popup
   * role within `fuel` steps, and every popup met on the way has a declared
   * parent. This is the acyclicity the protocol layer guarantees.
   */
  predicate ReachesRoot(t: SurfaceTable, s: SurfaceId, fuel: nat)
    decreases fuel
  {
    s !in t.popupRole || (fuel > 0 && s in t.parent && ReachesRoot(t, t.parent[s], fuel - 1))
  }

  ghost predicate Resolvable(t: SurfaceTable, s: SurfaceId)
  {
    exists fuel: nat :: ReachesRoot(t, s, fuel)
  }

  /** `k` parent steps lead from `s` to `r`, leaving only popup-role surfaces. */
  predicate Climb(t: SurfaceTable, s: SurfaceId, r: SurfaceId, k: nat)
    decreases k
  {
    if k == 0 then s == r
    else s in t.popupRole && s in t.parent && Climb(t, t.parent[s], r, k - 1)
  }

  function RootWithin(t: SurfaceTable, s: SurfaceId, fuel: nat): SurfaceId
    requires ReachesRoot(t, s, fuel)
    decreases fuel
  {
    if s !in t.popupRole then s else RootWithin(t, t.parent[s], fuel - 1)
  }

  /** The root reached by climbing from `s` (which is `s` itself when it is not a popup). */
  ghost function Root(t: SurfaceTable, s: SurfaceId): SurfaceId
    requires Resolvable(t, s)
  {
    var fuel: nat :| ReachesRoot(t, s, fuel); RootWithin(t, s, fuel)
  }

  lemma {:induction false} RootWithinAnyFuel(t: SurfaceTable, s: SurfaceId, f1: nat, f2: nat)
    requires ReachesRoot(t, s, f1) && ReachesRoot(t, s, f2)
    ensures RootWithin(t, s, f1) == RootWithin(t, s, f2)
    decreases f1
  {
    if s in t.popupRole {
      RootWithinAnyFuel(t, t.parent[s], f1 - 1, f2 - 1);
    }
  }

  /** One step of the climb does not change the root. */
  lemma RootStep(t: SurfaceTable, s: SurfaceId)
    requires Resolvable(t, s) && s in t.popupRole
    ensures s in t.parent && Resolvable(t, t.parent[s])
    ensures Root(t, s) == Root(t, t.parent[s])
  {
    var fuel: nat :| ReachesRoot(t, s, fuel);
    assert ReachesRoot(t, t.parent[s], fuel - 1);
    RootIsRootWithin(t, s, fuel);
    RootIsRootWithin(t, t.parent[s], fuel - 1);
  }

  lemma RootIsRootWithin(t: SurfaceTable, s: SurfaceId, fuel: nat)
    requires ReachesRoot(t, s, fuel)
    ensures Resolvable(t, s) && Root(t, s) == RootWithin(t, s, fuel)
  {
    var f0: nat :| ReachesRoot(t, s, f0) && Root(t, s) == RootWithin(t, s, f0);
    RootWithinAnyFuel(t, s, f0, fuel);
  }

  lemma {:induction false} RootWithinClimbs(t: SurfaceTable, s: SurfaceId, fuel: nat) returns (k: nat)
    requires ReachesRoot(t, s, fuel)
    ensures Climb(t, s, RootWithin(t, s, fuel), k)
    decreases fuel
  {
    if s !in t.popupRole {
      k := 0;
    } else {
      var k' := RootWithinClimbs(t, t.parent[s], fuel - 1);
      k := k' + 1;
    }
  }

  /**
   * The root is the first surface on the parent chain of `s` (counting `s`
   * itself) that does not carry the popup role.
   */
  lemma RootIsFirstNonPopupAncestor(t: SurfaceTable, s: SurfaceId)
    requires Resolvable(t, s)
    ensures Root(t, s) !in t.popupRole
    ensures exists k :: Climb(t, s, Root(t, s), k)
  {
    var fuel: nat :| ReachesRoot(t, s, fuel);
    RootIsRootWithin(t, s, fuel);
    var k := RootWithinClimbs(t, s, fuel);
    RootWithinIsNotPopup(t, s, fuel);
  }

  lemma {:induction false} RootWithinIsNotPopup(t: SurfaceTable, s: SurfaceId, fuel: nat)
    requires ReachesRoot(t, s, fuel)
    ensures RootWithin(t, s, fuel) !in t.popupRole
    decreases fuel
  {
    if s in t.popupRole {
      RootWithinIsNotPopup(t, t.parent[s], fuel - 1);
    }
  }

  /** At most one surface is a climb's first non-popup ancestor. */
  lemma {:induction false} ClimbDeterministic(t: SurfaceTable, s: SurfaceId, r1: SurfaceId, k1: nat, r2: SurfaceId, k2: nat)
    requires Climb(t, s, r1, k1) && r1 !in t.popupRole
    requires Climb(t, s, r2, k2) && r2 !in t.popupRole
    ensures r1 == r2 && k1 == k2
    decreases k1
  {
    if k1 > 0 && k2 > 0 {
      ClimbDeterministic(t, t.parent[s], r1, k1 - 1, r2, k2 - 1);
    }
  }

  /**
   * find_popup_root_surface: `DeadResource` exactly when the popup has no
   * declared parent; otherwise the climb from that parent, which stops at the
   * first surface that is not a popup.
   */
  method FindPopupRootSurface(t: SurfaceTable, popup: SurfaceId) returns (r: Result<SurfaceId, DeadResource>)
    requires popup in t.parent ==> Resolvable(t, t.parent[popup])
    ensures popup !in t.parent <==> r == Err(DeadResource)
    ensures popup in t.parent ==> r == Ok(Root(t, t.parent[popup]))
  {
    if popup !in t.parent {
      return Err(DeadResource);
    }
    var parent := t.parent[popup];
    ghost var fuel: nat :| ReachesRoot(t, parent, fuel);
    while parent in t.popupRole
      invariant ReachesRoot(t, parent, fuel)
      invariant Resolvable(t, parent) && Root(t, parent) == Root(t, t.parent[popup])
      decreases fuel
    {
      RootStep(t, parent);
      parent := t.parent[parent];
      fuel := fuel - 1;
    }
    return Ok(parent);
  }
}
