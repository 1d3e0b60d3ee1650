/**
 * The operations of PopupTree and PopupNode as the source runs them: loops
 * over a list of children that update nodes one by one. A node is a value;
 * an operation that changes a node in place returns the updated node, and
 * each is proved against the reference definitions of the forest module.
 */
module PopupTree {
  import opened Base
  import opened PopupForest

  /**
   * PopupNode::insert: attach `p` as the last child of this node when this
   * node's popup is `parent`, otherwise offer it to the children in order
   * and stop at the first that takes it. Reports whether it was taken.
   */
  method NodeInsert(n: Node, p: SurfaceId, parent: SurfaceId) returns (inserted: bool, r: Node)
    ensures inserted <==> parent in Ids([n])
    ensures [r] == Attached([n], p, parent)
    ensures !inserted ==> r == n
    decreases n
  {
    IdsOne(n);
    assert [n][1..] == [];
    if n.popup == parent {
      return true, Node(n.popup, n.children + [Leaf(p)]);
    }
    var kids := n.children;
    var i := 0;
    while i < |kids|
      invariant i <= |kids|
      invariant forall j :: 0 <= j < i ==> parent !in Ids([kids[j]])
    {
      var taken, child := NodeInsert(kids[i], p, parent);
      if taken {
        AttachedAt(kids, p, parent, i);
        IdsMember(kids, parent);
        return true, Node(n.popup, kids[..i] + [child] + kids[i + 1..]);
      }
      i := i + 1;
    }
    IdsMember(kids, parent);
    AttachedAbsent([n], p, parent);
    return false, n;
  }

  /**
   * PopupTree::insert: offer `p` to every root in order; when none takes it,
   * it becomes a new root at the end.
   */
  method TreeInsert(roots: seq<Node>, p: SurfaceId, parent: SurfaceId) returns (r: seq<Node>)
    ensures r == Inserted(roots, p, parent)
  {
    var i := 0;
    while i < |roots|
      invariant i <= |roots|
      invariant forall j :: 0 <= j < i ==> parent !in Ids([roots[j]])
    {
      var taken, child := NodeInsert(roots[i], p, parent);
      if taken {
        AttachedAt(roots, p, parent, i);
        IdsMember(roots, parent);
        return roots[..i] + [child] + roots[i + 1..];
      }
      i := i + 1;
    }
    IdsMember(roots, parent);
    return roots + [Leaf(p)];
  }

  /**
   * PopupNode::send_done: the children are notified last to first, each
   * with its own subtree first, and this node's popup last of all; that is
   * the subtree in reverse pre-order.
   */
  method SendDone(n: Node) returns (done: seq<SurfaceId>)
    ensures done == Reverse(Ids([n]))
    decreases n
  {
    var kids := n.children;
    var i := |kids|;
    done := [];
    while i > 0
      invariant 0 <= i <= |kids|
      invariant done == Reverse(Ids(kids[i..]))
    {
      i := i - 1;
      var sub := SendDone(kids[i]);
      assert kids[i..] == [kids[i]] + kids[i + 1..];
      IdsConcat([kids[i]], kids[i + 1..]);
      ReverseConcat(Ids([kids[i]]), Ids(kids[i + 1..]));
      done := done + sub;
    }
    assert kids[0..] == kids;
    IdsOne(n);
    ReverseConcat([n.popup], Ids(kids));
    done := done + [n.popup];
  }

  /** One step of the dismissal loop at a sibling `x` that is the popup: it goes, and the loop ends. */
  lemma DismissedConsMatch(x: Node, rest: seq<Node>, p: SurfaceId)
    requires x.popup == p
    ensures Dismissed([x], p) == Dismissal([], Reverse(Ids([x])))
    ensures Dismissed([x] + rest, p) == Dismissal(rest, Reverse(Ids([x])))
  {
    assert ([x] + rest)[0] == x && ([x] + rest)[1..] == rest;
    assert [x][1..] == [];
  }

  /** One step of the dismissal loop at a sibling `x` that is not the popup: it is searched, and the loop goes on. */
  lemma DismissedConsPass(x: Node, rest: seq<Node>, p: SurfaceId)
    requires x.popup != p
    ensures Dismissed([x] + rest, p)
      == Dismissal(Dismissed([x], p).nodes + Dismissed(rest, p).nodes, Dismissed([x], p).done + Dismissed(rest, p).done)
  {
    var inner := Dismissed(x.children, p);
    var head := Node(x.popup, inner.nodes);
    assert Dismissed([x], p) == Dismissal([head], inner.done) by {
      assert [x][1..] == [];
      assert [head] + [] == [head] && inner.done + [] == inner.done;
    }
    assert Dismissed([x] + rest, p) == Dismissal([head] + Dismissed(rest, p).nodes, inner.done + Dismissed(rest, p).done) by {
      assert ([x] + rest)[0] == x && ([x] + rest)[1..] == rest;
    }
  }

  /** The invariant of the dismissal loop, carried past a sibling that is searched and kept. */
  lemma DismissLoopPass(siblings: seq<Node>, p: SurfaceId, i: nat, kids: seq<Node>, done: seq<SurfaceId>,
                        child: Node, d: seq<SurfaceId>)
    requires i < |kids| == |siblings| && kids[i..] == siblings[i..]
    requires Dismissed(siblings, p)
      == Dismissal(kids[..i] + Dismissed(siblings[i..], p).nodes, done + Dismissed(siblings[i..], p).done)
    requires siblings[i].popup != p && Dismissed([siblings[i]], p) == Dismissal([child], d)
    ensures kids[i := child][i + 1..] == siblings[i + 1..]
    ensures Dismissed(siblings, p)
      == Dismissal(kids[i := child][..i + 1] + Dismissed(siblings[i + 1..], p).nodes,
                   (done + d) + Dismissed(siblings[i + 1..], p).done)
  {
    var x := siblings[i];
    assert siblings[i..] == [x] + siblings[i + 1..];
    DismissedConsPass(x, siblings[i + 1..], p);
    var rest := Dismissed(siblings[i + 1..], p);
    ConcatAssoc(kids[..i], [child], rest.nodes);
    ConcatAssoc(done, d, rest.done);
    assert kids[i := child][..i + 1] == kids[..i] + [child];
  }

  /** The dismissal loop at the sibling that is the popup: what it leaves is the whole result. */
  lemma DismissLoopMatch(siblings: seq<Node>, p: SurfaceId, i: nat, kids: seq<Node>, done: seq<SurfaceId>,
                         d: seq<SurfaceId>)
    requires i < |kids| == |siblings|
    requires Dismissed(siblings, p)
      == Dismissal(kids[..i] + Dismissed(siblings[i..], p).nodes, done + Dismissed(siblings[i..], p).done)
    requires siblings[i].popup == p && Dismissed([siblings[i]], p) == Dismissal([], d)
    ensures Dismissed(siblings, p) == Dismissal(kids[..i] + siblings[i + 1..], done + d)
  {
    var x := siblings[i];
    assert siblings[i..] == [x] + siblings[i + 1..];
    DismissedConsMatch(x, siblings[i + 1..], p);
  }

  /**
   * PopupNode::dismiss_popup: when this node's popup is `p` its subtree is
   * notified and the node reports a match (its parent then removes it);
   * otherwise the children are searched in order, each updated in place,
   * and the first child that matches is removed, which ends the search
   * (the node itself still reports no match).
   */
  method NodeDismiss(n: Node, p: SurfaceId) returns (matched: bool, r: Node, done: seq<SurfaceId>)
    ensures matched <==> n.popup == p
    ensures matched ==> r == n
    ensures Dismissed([n], p) == Dismissal(if matched then [] else [r], done)
    decreases n
  {
    assert [n][1..] == [];
    if n.popup == p {
      done := SendDone(n);
      return true, n, done;
    }
    var kids, d := DismissAmong(n.children, p);
    r := Node(n.popup, kids);
    return false, r, d;
  }

  /**
   * The loop shared by PopupNode::dismiss_popup (over a node's children) and
   * PopupTree::dismiss_popup (over the roots): each sibling is searched and
   * updated in place, and the first one that matches is removed, which ends
   * the loop.
   */
  method DismissAmong(siblings: seq<Node>, p: SurfaceId) returns (kids: seq<Node>, done: seq<SurfaceId>)
    ensures Dismissed(siblings, p) == Dismissal(kids, done)
    decreases siblings
  {
    kids := siblings;
    done := [];
    var i := 0;
    while i < |kids|
      invariant i <= |kids| == |siblings|
      invariant kids[i..] == siblings[i..]
      invariant Dismissed(siblings, p)
        == Dismissal(kids[..i] + Dismissed(siblings[i..], p).nodes, done + Dismissed(siblings[i..], p).done)
    {
      var m, child, d := NodeDismiss(siblings[i], p);
      if m {
        DismissLoopMatch(siblings, p, i, kids, done, d);
        return kids[..i] + siblings[i + 1..], done + d;
      }
      DismissLoopPass(siblings, p, i, kids, done, child, d);
      kids := kids[i := child];
      done := done + d;
      i := i + 1;
    }
    assert siblings[i..] == [];
    assert kids[..i] == kids;
  }

  /** PopupTree::dismiss_popup: the dismissal loop over the roots. */
  method TreeDismiss(roots: seq<Node>, p: SurfaceId) returns (r: seq<Node>, done: seq<SurfaceId>)
    ensures Dismissed(roots, p) == Dismissal(r, done)
  {
    r, done := DismissAmong(roots, p);
  }

  /**
   * The loop shared by PopupNode::cleanup (over a node's children) and
   * PopupTree::cleanup (over the roots): every sibling is cleaned in place,
   * then the siblings whose surface is dead are dropped.
   */
  method CleanupAmong(siblings: seq<Node>, live: set<SurfaceId>) returns (r: seq<Node>)
    ensures r == Pruned(siblings, live)
    decreases siblings
  {
    var kids := siblings;
    var i := 0;
    while i < |kids|
      invariant i <= |kids| == |siblings|
      invariant kids[i..] == siblings[i..]
      invariant forall j :: 0 <= j < i ==> kids[j] == Node(siblings[j].popup, Pruned(siblings[j].children, live))
    {
      var cleaned := NodeCleanup(siblings[i], live);
      kids := kids[i := cleaned];
      i := i + 1;
    }
    KeepLiveCleaned(siblings, kids, live);
    r := KeepLive(kids, live);
  }

  /**
   * PopupNode::cleanup: the children are cleaned and the dead ones dropped.
   * The node's own liveness is left to its parent (a dead node that still
   * has children is a client protocol error the source cannot report).
   */
  method NodeCleanup(n: Node, live: set<SurfaceId>) returns (r: Node)
    ensures r == Node(n.popup, Pruned(n.children, live))
    decreases n
  {
    var kids := CleanupAmong(n.children, live);
    r := Node(n.popup, kids);
  }

  /** PopupTree::cleanup: the cleanup loop over the roots. */
  method TreeCleanup(roots: seq<Node>, live: set<SurfaceId>) returns (r: seq<Node>)
    ensures r == Pruned(roots, live)
  {
    r := CleanupAmong(roots, live);
  }

  /** PopupTree::alive: the tree still holds at least one popup. */
  function TreeAlive(roots: seq<Node>): (r: bool)
    ensures r <==> Ids(roots) != []
  {
    roots != []
  }
}
