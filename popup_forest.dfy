/**
 * The popup forest attached to one root surface (PopupTree / PopupNode), as
 * values: the node type, the pre-order views of a forest, and the reference
 * definitions of insert, dismiss and cleanup with the properties they keep.
 *
 * The central view is `Chains(f, pre)`: for every node of `f`, in pre-order,
 * the popups on the path from its root down to and including it (after the
 * prefix `pre`). Iteration offsets, insertion, dismissal and cleanup are all
 * stated against it.
 */
module PopupForest {
  import opened Base
  import opened Surfaces

  /** PopupNode: one popup and its children, in creation order. */
  datatype Node = Node(popup: SurfaceId, children: seq<Node>)

  /** PopupNode::new: a node holding the one popup `p`. */
  function Leaf(p: SurfaceId): (r: Node)
    ensures Ids([r]) == [p]
  {
    Node(p, [])
  }

  /** Every popup of a forest, in pre-order. */
  function Ids(f: seq<Node>): seq<SurfaceId>
    decreases f
  {
    if f == [] then [] else [f[0].popup] + Ids(f[0].children) + Ids(f[1..])
  }

  /** The popups from a root down to and including one node. */
  type Chain = c: seq<SurfaceId> | c != [] witness [0]

  /**
   * For every node of `f`, in pre-order, the chain of popups from its root
   * down to and including it, each chain prefixed by `pre` (the chain of the
   * node owning `f`).
   */
  function Chains(f: seq<Node>, pre: seq<SurfaceId>): (cs: seq<Chain>)
    ensures |cs| == |Ids(f)|
    decreases f
  {
    if f == [] then []
    else
      var c := pre + [f[0].popup];
      [c] + Chains(f[0].children, c) + Chains(f[1..], pre)
  }

  // ---------------------------------------------------------------------
  // Structure of the pre-order views

  lemma {:induction false} IdsConcat(a: seq<Node>, b: seq<Node>)
    ensures Ids(a + b) == Ids(a) + Ids(b)
  {
    if a == [] {
      assert a + b == b;
    } else {
      assert (a + b)[0] == a[0] && (a + b)[1..] == a[1..] + b;
      IdsConcat(a[1..], b);
    }
  }

  lemma IdsOne(n: Node)
    ensures Ids([n]) == [n.popup] + Ids(n.children)
  {
    assert [n][1..] == [];
  }

  lemma {:induction false} ChainsConcat(a: seq<Node>, b: seq<Node>, pre: seq<SurfaceId>)
    ensures Chains(a + b, pre) == Chains(a, pre) + Chains(b, pre)
  {
    if a == [] {
      assert a + b == b;
    } else {
      assert (a + b)[0] == a[0] && (a + b)[1..] == a[1..] + b;
      ChainsConcat(a[1..], b, pre);
    }
  }

  lemma ChainsOne(n: Node, pre: seq<SurfaceId>)
    ensures Chains([n], pre) == [pre + [n.popup]] + Chains(n.children, pre + [n.popup])
  {
    assert [n][1..] == [];
  }

  /** The chains of a forest headed by `n`, spelled out. */
  lemma ChainsCons(n: Node, f: seq<Node>, pre: seq<SurfaceId>)
    ensures Chains([n] + f, pre) == [pre + [n.popup]] + Chains(n.children, pre + [n.popup]) + Chains(f, pre)
  {
    assert ([n] + f)[0] == n && ([n] + f)[1..] == f;
  }

  /**
   * Every chain of a forest extends the prefix by at least one popup and ends
   * with the popup at the same position of the pre-order listing.
   */
  lemma {:induction false} ChainsShape(f: seq<Node>, pre: seq<SurfaceId>)
    ensures forall k :: 0 <= k < |Chains(f, pre)| ==>
      |Chains(f, pre)[k]| > |pre| && Chains(f, pre)[k][..|pre|] == pre && Last(Chains(f, pre)[k]) == Ids(f)[k]
    decreases f
  {
    if f != [] {
      var c := pre + [f[0].popup];
      var inner := Chains(f[0].children, c);
      var rest := Chains(f[1..], pre);
      var cs := Chains(f, pre);
      ChainsShape(f[0].children, c);
      ChainsShape(f[1..], pre);
      forall k | 0 <= k < |cs|
        ensures |cs[k]| > |pre| && cs[k][..|pre|] == pre && Last(cs[k]) == Ids(f)[k]
      {
        if 0 < k <= |inner| {
          assert cs[k] == inner[k - 1];
          assert cs[k][..|pre|] == cs[k][..|c|][..|pre|];
        }
      }
    }
  }

  /** A forest's first chain is its first root after the prefix. */
  lemma ChainsHead(f: seq<Node>, pre: seq<SurfaceId>)
    requires f != []
    ensures Chains(f, pre)[0] == pre + [f[0].popup]
  {
  }

  /** Every popup on a chain is in the prefix or in the forest. */
  lemma {:induction false} ChainElements(f: seq<Node>, pre: seq<SurfaceId>, k: nat, x: SurfaceId)
    requires k < |Chains(f, pre)| && x in Chains(f, pre)[k]
    ensures x in pre || x in Ids(f)
    decreases f
  {
    var c := pre + [f[0].popup];
    var inner := Chains(f[0].children, c);
    if k == 0 {
    } else if k <= |inner| {
      ChainElements(f[0].children, c, k - 1, x);
    } else {
      ChainElements(f[1..], pre, k - 1 - |inner|, x);
    }
  }

  /** Every chain below a node holds that node's popup. */
  lemma {:induction false} ChainsBelowHold(f: seq<Node>, pre: seq<SurfaceId>, x: SurfaceId)
    requires x in pre
    ensures forall k :: 0 <= k < |Chains(f, pre)| ==> x in Chains(f, pre)[k]
    decreases f
  {
    if f != [] {
      var c := pre + [f[0].popup];
      assert x in c;
      ChainsBelowHold(f[0].children, c, x);
      ChainsBelowHold(f[1..], pre, x);
    }
  }

  /** `x` occurs in a forest exactly when it occurs in the subtree of some root. */
  lemma {:induction false} IdsMember(f: seq<Node>, x: SurfaceId)
    ensures x in Ids(f) <==> exists j :: 0 <= j < |f| && x in Ids([f[j]])
    decreases f
  {
    if f != [] {
      IdsOne(f[0]);
      IdsMember(f[1..], x);
      if x in Ids(f[1..]) {
        var j :| 0 <= j < |f[1..]| && x in Ids([f[1..][j]]);
        assert f[1..][j] == f[j + 1];
      }
      forall j | 1 <= j < |f| && x in Ids([f[j]])
        ensures x in Ids(f[1..])
      {
        assert f[1..][j - 1] == f[j];
      }
    }
  }

  /** The last popup of every chain. */
  function Lasts(cs: seq<Chain>): (r: seq<SurfaceId>)
    ensures |r| == |cs| && forall k :: 0 <= k < |cs| ==> r[k] == Last(cs[k])
  {
    if cs == [] then [] else [Last(cs[0])] + Lasts(cs[1..])
  }

  lemma {:induction false} LastsConcat(a: seq<Chain>, b: seq<Chain>)
    ensures Lasts(a + b) == Lasts(a) + Lasts(b)
  {
    if a == [] {
      assert a + b == b;
    } else {
      assert (a + b)[0] == a[0] && (a + b)[1..] == a[1..] + b;
      LastsConcat(a[1..], b);
      ConcatAssoc([Last(a[0])], Lasts(a[1..]), Lasts(b));
    }
  }

  lemma {:induction false} LastsOfChains(f: seq<Node>, pre: seq<SurfaceId>)
    ensures Lasts(Chains(f, pre)) == Ids(f)
    decreases f
  {
    if f != [] {
      var c := pre + [f[0].popup];
      LastsOfChains(f[0].children, c);
      LastsOfChains(f[1..], pre);
      LastsConcat([c] + Chains(f[0].children, c), Chains(f[1..], pre));
      LastsConcat([c], Chains(f[0].children, c));
    }
  }

  // ---------------------------------------------------------------------
  // Iteration with offsets (iter_popups / iter_popups_relative_to)

  /** One item of iter_popups: a popup and its offset from the root surface. */
  datatype Placed = Placed(popup: SurfaceId, offset: Point)

  /**
   * iter_popups_relative_to over a list of siblings that share `base`: each
   * node is reported at `base` plus its own location, followed by its
   * children relative to that point.
   */
  function IterRelativeTo(f: seq<Node>, base: Point, t: SurfaceTable): (r: seq<Placed>)
    ensures |r| == |Ids(f)|
    decreases f
  {
    if f == [] then []
    else
      var here := Add(base, t.Location(f[0].popup));
      [Placed(f[0].popup, here)] + IterRelativeTo(f[0].children, here, t) + IterRelativeTo(f[1..], base, t)
  }

  /** PopupTree::iter_popups: every root starts from (0, 0). */
  function IterPopups(roots: seq<Node>, t: SurfaceTable): (r: seq<Placed>)
    ensures |r| == |Ids(roots)|
  {
    IterRelativeTo(roots, Origin, t)
  }

  /** The sum of the locations of every popup on a chain. */
  function Offset(c: seq<SurfaceId>, t: SurfaceTable): Point
  {
    if c == [] then Origin else Add(Offset(c[..|c| - 1], t), t.Location(c[|c| - 1]))
  }

  /** Each chain reported as its last popup with the summed offset of the chain. */
  function Placements(cs: seq<Chain>, t: SurfaceTable): (r: seq<Placed>)
    ensures |r| == |cs|
    ensures forall k :: 0 <= k < |cs| ==> r[k] == Placed(Last(cs[k]), Offset(cs[k], t))
  {
    if cs == [] then [] else [Placed(Last(cs[0]), Offset(cs[0], t))] + Placements(cs[1..], t)
  }

  lemma {:induction false} IterFollowsChains(f: seq<Node>, pre: seq<SurfaceId>, t: SurfaceTable)
    ensures IterRelativeTo(f, Offset(pre, t), t) == Placements(Chains(f, pre), t)
    decreases f
  {
    if f != [] {
      var c := pre + [f[0].popup];
      assert c[..|c| - 1] == pre;
      IterFollowsChains(f[0].children, c, t);
      IterFollowsChains(f[1..], pre, t);
      PlacementsConcat([c] + Chains(f[0].children, c), Chains(f[1..], pre), t);
      PlacementsConcat([c], Chains(f[0].children, c), t);
      assert Placements([c], t) == [Placed(f[0].popup, Offset(c, t))];
    }
  }

  lemma {:induction false} PlacementsConcat(a: seq<Chain>, b: seq<Chain>, t: SurfaceTable)
    ensures Placements(a + b, t) == Placements(a, t) + Placements(b, t)
  {
    if a == [] {
      assert a + b == b;
    } else {
      assert (a + b)[0] == a[0] && (a + b)[1..] == a[1..] + b;
      PlacementsConcat(a[1..], b, t);
      ConcatAssoc([Placed(Last(a[0]), Offset(a[0], t))], Placements(a[1..], t), Placements(b, t));
    }
  }


  /**
   * iter_popups yields one item per node, in pre-order, and the offset of
   * each is the sum of location() over the popups from its root down to and
   * including it.
   */
  lemma IterPopupsOffsets(roots: seq<Node>, t: SurfaceTable)
    ensures var cs := Chains(roots, []);
      |IterPopups(roots, t)| == |cs| == |Ids(roots)|
      && forall k :: 0 <= k < |cs| ==>
           IterPopups(roots, t)[k] == Placed(Ids(roots)[k], Offset(cs[k], t))
  {
    IterFollowsChains(roots, [], t);
    LastsOfChains(roots, []);
  }


  /** The popups of a list of placements, in order. */
  function PopupsOf(items: seq<Placed>): (r: seq<SurfaceId>)
    ensures |r| == |items| && forall k :: 0 <= k < |items| ==> r[k] == items[k].popup
  {
    if items == [] then [] else [items[0].popup] + PopupsOf(items[1..])
  }

  /** PopupTree::iter_popups yields one placement per node of the tree, in pre-order. */
  lemma IterPopupsVisitsIds(roots: seq<Node>, t: SurfaceTable)
    ensures PopupsOf(IterPopups(roots, t)) == Ids(roots)
  {
    IterPopupsOffsets(roots, t);
  }

  // ---------------------------------------------------------------------
  // Insert

  /**
   * The forest with `p` appended as the last child of the first node, in
   * pre-order, whose popup is `parent`; unchanged when there is none.
   */
  function Attached(f: seq<Node>, p: SurfaceId, parent: SurfaceId): (r: seq<Node>)
    ensures |r| == |f|
    decreases f
  {
    if f == [] then []
    else if f[0].popup == parent then [Node(parent, f[0].children + [Leaf(p)])] + f[1..]
    else if parent in Ids(f[0].children) then [Node(f[0].popup, Attached(f[0].children, p, parent))] + f[1..]
    else [f[0]] + Attached(f[1..], p, parent)
  }

  /** PopupTree::insert: attach under the first match, or add a new root. */
  function Inserted(roots: seq<Node>, p: SurfaceId, parent: SurfaceId): (r: seq<Node>)
    ensures |r| == if parent in Ids(roots) then |roots| else |roots| + 1
  {
    if parent in Ids(roots) then Attached(roots, p, parent) else roots + [Leaf(p)]
  }

  lemma {:induction false} AttachedAbsent(f: seq<Node>, p: SurfaceId, parent: SurfaceId)
    requires parent !in Ids(f)
    ensures Attached(f, p, parent) == f
    decreases f
  {
    if f != [] {
      AttachedAbsent(f[1..], p, parent);
    }
  }

  /** Attaching acts on the first root whose subtree holds the parent. */
  lemma {:induction false} AttachedAt(f: seq<Node>, p: SurfaceId, parent: SurfaceId, i: nat)
    requires i < |f| && parent in Ids([f[i]])
    requires forall j :: 0 <= j < i ==> parent !in Ids([f[j]])
    ensures Attached(f, p, parent) == f[..i] + Attached([f[i]], p, parent) + f[i + 1..]
    decreases i
  {
    IdsOne(f[0]);
    if i == 0 {
      assert f[1..] == f[i + 1..];
    } else {
      forall j | 0 <= j < i - 1
        ensures parent !in Ids([f[1..][j]])
      {
        assert f[1..][j] == f[j + 1];
      }
      var g := f[1..];
      AttachedAt(g, p, parent, i - 1);
      assert g[i - 1] == f[i];
      assert Attached(f, p, parent) == [f[0]] + Attached(g, p, parent);
      ConcatAssoc([f[0]], g[..i - 1] + Attached([f[i]], p, parent), g[i..]);
      ConcatAssoc([f[0]], g[..i - 1], Attached([f[i]], p, parent));
      assert g[i..] == f[i + 1..];
      assert f[..i] == [f[0]] + g[..i - 1];
    }
  }

  lemma {:induction false} FirstIndexUnique(s: seq<SurfaceId>, x: SurfaceId, k: nat)
    requires k < |s| && s[k] == x && x !in s[..k]
    ensures FirstIndex(s, x) == k
  {
    if k > 0 {
      assert s[0] == s[..k][0];
      assert s[1..][..k - 1] == s[..k][1..];
      FirstIndexUnique(s[1..], x, k - 1);
    }
  }

  lemma FirstIndexHead(s: seq<SurfaceId>, x: SurfaceId)
    requires x in s && s[0] != x
    ensures x in s[1..] && FirstIndex(s, x) == 1 + FirstIndex(s[1..], x)
  {
  }

  lemma FirstIndexAfter(a: seq<SurfaceId>, b: seq<SurfaceId>, x: SurfaceId)
    requires x !in a && x in b
    ensures FirstIndex(a + b, x) == |a| + FirstIndex(b, x)
  {
    var kb := FirstIndex(b, x);
    assert (a + b)[|a| + kb] == x;
    assert (a + b)[..|a| + kb] == a + b[..kb];
    FirstIndexUnique(a + b, x, |a| + kb);
  }

  lemma FirstIndexBefore(a: seq<SurfaceId>, b: seq<SurfaceId>, x: SurfaceId)
    requires x in a
    ensures FirstIndex(a + b, x) == FirstIndex(a, x)
  {
    var ka := FirstIndex(a, x);
    assert (a + b)[ka] == x;
    assert (a + b)[..ka] == a[..ka];
    FirstIndexUnique(a + b, x, ka);
  }


  /** `e` is the end of the block of listing entries lying below entry `k`. */
  ghost predicate EndsSubtree(cs: seq<Chain>, k: nat, e: nat)
    requires k < e <= |cs|
  {
    && (forall j :: k < j < e ==> |cs[k]| < |cs[j]| && cs[j][..|cs[k]|] == cs[k])
    && (e < |cs| ==> |cs[e]| <= |cs[k]|)
  }

  lemma SpliceShift<T>(p: seq<T>, a: seq<T>, b: seq<T>, e: nat, y: T)
    requires e <= |a|
    ensures p + (a[..e] + [y] + a[e..]) + b == (p + a + b)[..|p| + e] + [y] + (p + a + b)[|p| + e..]
  {
    assert (p + a + b)[..|p| + e] == p + a[..e];
    assert (p + a + b)[|p| + e..] == a[e..] + b;
  }

  /** A block below an entry stays such a block once the listing is embedded in a longer one. */
  lemma EndsSubtreeShift(p: seq<Chain>, a: seq<Chain>, b: seq<Chain>, k: nat, e: nat)
    requires k < e <= |a| && EndsSubtree(a, k, e)
    requires e == |a| && b != [] ==> |b[0]| <= |a[k]|
    ensures EndsSubtree(p + a + b, |p| + k, |p| + e)
  {
    var cs := p + a + b;
    assert cs[|p| + k] == a[k];
    forall j | |p| + k < j < |p| + e
      ensures |cs[|p| + k]| < |cs[j]| && cs[j][..|cs[|p| + k]|] == cs[|p| + k]
    {
      assert cs[j] == a[j - |p|];
    }
    if |p| + e < |cs| {
      if e < |a| {
        assert cs[|p| + e] == a[e];
      } else {
        assert cs[|p| + e] == b[0];
      }
    }
  }

  /**
   * Insert as a splice of the pre-order listing: the new popup's chain is the
   * chain of the first node whose popup is `parent`, extended by `p`, and it
   * enters the listing right after that node's subtree (as its last child).
   * Every other entry stays, in its order.
   */
  lemma AttachedSplice(f: seq<Node>, p: SurfaceId, parent: SurfaceId, pre: seq<SurfaceId>) returns (e: nat)
    requires parent in Ids(f)
    ensures var cs := Chains(f, pre); var k := FirstIndex(Ids(f), parent);
      && k < e <= |cs| && EndsSubtree(cs, k, e)
      && Chains(Attached(f, p, parent), pre) == cs[..e] + [cs[k] + [p]] + cs[e..]
    decreases f, 2
  {
    if f[0].popup == parent {
      e := AttachedSpliceHere(f, p, parent, pre);
    } else if parent in Ids(f[0].children) {
      e := AttachedSpliceBelow(f, p, parent, pre);
    } else {
      e := AttachedSpliceAfter(f, p, parent, pre);
    }
  }

  /** The listing of a non-empty forest: the first root, its subtree, then the later roots. */
  lemma ChainsFirst(f: seq<Node>, pre: seq<SurfaceId>)
    requires f != []
    ensures Chains(f, pre)
         == [pre + [f[0].popup]] + Chains(f[0].children, pre + [f[0].popup]) + Chains(f[1..], pre)
  {
  }

  /** The listing after insert when the parent is below the first root. */
  lemma ChainsAttachedBelow(f: seq<Node>, p: SurfaceId, parent: SurfaceId, pre: seq<SurfaceId>)
    requires f != [] && f[0].popup != parent && parent in Ids(f[0].children)
    ensures var c := pre + [f[0].popup];
      Chains(Attached(f, p, parent), pre) == [c] + Chains(Attached(f[0].children, p, parent), c) + Chains(f[1..], pre)
  {
    var g := Attached(f, p, parent);
    assert g == [Node(f[0].popup, Attached(f[0].children, p, parent))] + f[1..];
    ChainsFirst(g, pre);
    assert g[1..] == f[1..];
  }

  /** The first root is the parent: `p` joins the end of that root's subtree. */
  lemma AttachedSpliceHere(f: seq<Node>, p: SurfaceId, parent: SurfaceId, pre: seq<SurfaceId>) returns (e: nat)
    requires f != [] && f[0].popup == parent
    ensures parent in Ids(f)
    ensures var cs := Chains(f, pre); var k := FirstIndex(Ids(f), parent);
      && k < e <= |cs| && EndsSubtree(cs, k, e)
      && Chains(Attached(f, p, parent), pre) == cs[..e] + [cs[k] + [p]] + cs[e..]
    decreases f, 0
  {
    var n := f[0];
    var c := pre + [n.popup];
    assert parent in Ids(f) && FirstIndex(Ids(f), parent) == 0;
    assert Attached(f, p, parent) == [Node(parent, n.children + [Leaf(p)])] + f[1..];
    ChainsFirst(f, pre);
    ChainsAppendChild(n, p, f[1..], pre);
    ChainsShape(n.children, c);
    if f[1..] != [] {
      ChainsHead(f[1..], pre);
    }
    e := 1 + |Chains(n.children, c)|;
    SpliceBlock(Chains(f, pre), Chains(Attached(f, p, parent), pre), p, c, Chains(n.children, c), Chains(f[1..], pre));
  }

  /**
   * Appending a chain `c + [p]` at the end of the block `[c] + inner` of
   * entries under `c` is a splice of the listing at the end of that block.
   */
  lemma SpliceBlock(cs: seq<Chain>, after: seq<Chain>, p: SurfaceId, c: Chain, inner: seq<Chain>, rest: seq<Chain>)
    requires cs == [c] + inner + rest
    requires after == [c] + inner + [c + [p]] + rest
    requires forall k :: 0 <= k < |inner| ==> |inner[k]| > |c| && inner[k][..|c|] == c
    requires rest != [] ==> |rest[0]| <= |c|
    ensures 0 < 1 + |inner| <= |cs| && EndsSubtree(cs, 0, 1 + |inner|)
    ensures after == cs[..1 + |inner|] + [cs[0] + [p]] + cs[1 + |inner|..]
  {
    var e := 1 + |inner|;
    assert cs[..e] == [c] + inner;
    assert cs[e..] == rest;
    forall j | 0 < j < e
      ensures |cs[0]| < |cs[j]| && cs[j][..|cs[0]|] == cs[0]
    {
      assert cs[j] == inner[j - 1];
    }
    if e < |cs| {
      assert cs[e] == rest[0];
    }
  }

  /** The chains of a forest whose first root gains `p` as its last child. */
  lemma ChainsAppendChild(n: Node, p: SurfaceId, f: seq<Node>, pre: seq<SurfaceId>)
    ensures var c := pre + [n.popup];
      Chains([Node(n.popup, n.children + [Leaf(p)])] + f, pre)
        == [c] + Chains(n.children, c) + [c + [p]] + Chains(f, pre)
  {
    var c := pre + [n.popup];
    ChainsConcat(n.children, [Leaf(p)], c);
    ChainsOne(Leaf(p), c);
    assert Chains([Leaf(p)], c) == [c + [p]];
    ChainsCons(Node(n.popup, n.children + [Leaf(p)]), f, pre);
    ConcatRegroup([c], Chains(n.children, c), [c + [p]], Chains(f, pre));
  }

  lemma ConcatRegroup<T>(a: seq<T>, b: seq<T>, c: seq<T>, d: seq<T>)
    ensures a + (b + c) + d == a + b + c + d
  {
  }

  /**
   * A splice of `a` embedded between `front` and `back` is the same splice
   * of the whole listing `cs`, shifted by the length of `front`.
   */
  lemma SpliceEmbed(cs: seq<Chain>, after: seq<Chain>, k: nat, e: nat, p: SurfaceId,
                    front: seq<Chain>, a: seq<Chain>, back: seq<Chain>, a': seq<Chain>, k': nat, e': nat)
    requires cs == front + a + back && after == front + a' + back
    requires k == |front| + k' && e == |front| + e'
    requires k' < e' <= |a| && EndsSubtree(a, k', e')
    requires a' == a[..e'] + [a[k'] + [p]] + a[e'..]
    requires e' == |a| && back != [] ==> |back[0]| <= |a[k']|
    ensures k < e <= |cs| && EndsSubtree(cs, k, e) && after == cs[..e] + [cs[k] + [p]] + cs[e..]
  {
    SpliceShift(front, a, back, e', a[k'] + [p]);
    EndsSubtreeShift(front, a, back, k', e');
    assert cs[k] == a[k'];
  }

  lemma IdsTail(f: seq<Node>)
    requires f != []
    ensures Ids(f)[0] == f[0].popup && Ids(f)[1..] == Ids(f[0].children) + Ids(f[1..])
  {
  }

  /** The parent lies below the first root: splice inside that root's children. */
  lemma AttachedSpliceBelow(f: seq<Node>, p: SurfaceId, parent: SurfaceId, pre: seq<SurfaceId>) returns (e: nat)
    requires f != [] && f[0].popup != parent && parent in Ids(f[0].children)
    ensures parent in Ids(f)
    ensures var cs := Chains(f, pre); var k := FirstIndex(Ids(f), parent);
      && k < e <= |cs| && EndsSubtree(cs, k, e)
      && Chains(Attached(f, p, parent), pre) == cs[..e] + [cs[k] + [p]] + cs[e..]
    decreases f, 1
  {
    var c := pre + [f[0].popup];
    var e' := BelowFacts(f, p, parent, pre);
    e := 1 + e';
    SpliceEmbed(Chains(f, pre), Chains(Attached(f, p, parent), pre), FirstIndex(Ids(f), parent), e, p,
                [c], Chains(f[0].children, c), Chains(f[1..], pre),
                Chains(Attached(f[0].children, p, parent), c), FirstIndex(Ids(f[0].children), parent), e');
  }

  /**
   * The parent is below the first root: the listing is that root's chain, its
   * subtree's listing and the later roots' listing, before and after, and
   * the insert is a splice of the subtree's listing.
   */
  lemma BelowFacts(f: seq<Node>, p: SurfaceId, parent: SurfaceId, pre: seq<SurfaceId>) returns (e': nat)
    requires f != [] && f[0].popup != parent && parent in Ids(f[0].children)
    ensures var c := pre + [f[0].popup];
      var inner := Chains(f[0].children, c);
      var rest := Chains(f[1..], pre);
      var k' := FirstIndex(Ids(f[0].children), parent);
      && parent in Ids(f) && FirstIndex(Ids(f), parent) == 1 + k'
      && Chains(f, pre) == [c] + inner + rest
      && Chains(Attached(f, p, parent), pre) == [c] + Chains(Attached(f[0].children, p, parent), c) + rest
      && k' < e' <= |inner| && EndsSubtree(inner, k', e')
      && Chains(Attached(f[0].children, p, parent), c) == inner[..e'] + [inner[k'] + [p]] + inner[e'..]
      && (e' == |inner| && rest != [] ==> |rest[0]| <= |inner[k']|)
    decreases f, 0
  {
    var n := f[0];
    var c := pre + [n.popup];
    var inner := Chains(n.children, c);
    var rest := Chains(f[1..], pre);
    var k' := FirstIndex(Ids(n.children), parent);
    assert parent in Ids(f) && FirstIndex(Ids(f), parent) == 1 + k' by {
      IdsTail(f);
      FirstIndexHead(Ids(f), parent);
      FirstIndexBefore(Ids(n.children), Ids(f[1..]), parent);
    }
    assert Chains(f, pre) == [c] + inner + rest by {
      ChainsFirst(f, pre);
    }
    e' := AttachedSplice(n.children, p, parent, c);
    assert Chains(Attached(f, p, parent), pre) == [c] + Chains(Attached(n.children, p, parent), c) + rest by {
      ChainsAttachedBelow(f, p, parent, pre);
    }
    assert e' == |inner| && rest != [] ==> |rest[0]| <= |inner[k']| by {
      if e' == |inner| && rest != [] {
        ChainsShape(n.children, c);
        ChainsHead(f[1..], pre);
      }
    }
  }


  /** The parent lies in a later root: the first root's entries stay in front. */
  lemma AttachedSpliceAfter(f: seq<Node>, p: SurfaceId, parent: SurfaceId, pre: seq<SurfaceId>) returns (e: nat)
    requires f != [] && parent !in Ids([f[0]]) && parent in Ids(f)
    ensures var cs := Chains(f, pre); var k := FirstIndex(Ids(f), parent);
      && k < e <= |cs| && EndsSubtree(cs, k, e)
      && Chains(Attached(f, p, parent), pre) == cs[..e] + [cs[k] + [p]] + cs[e..]
    decreases f, 1
  {
    var e' := AfterFacts(f, p, parent, pre);
    e := |Chains([f[0]], pre)| + e';
    SpliceEmbed(Chains(f, pre), Chains(Attached(f, p, parent), pre), FirstIndex(Ids(f), parent), e, p,
                Chains([f[0]], pre), Chains(f[1..], pre), [],
                Chains(Attached(f[1..], p, parent), pre), FirstIndex(Ids(f[1..]), parent), e');
  }

  /**
   * The parent lies in a later root: the listing is the first root's entries
   * followed by the later roots', before and after, and the insert is a
   * splice of the later roots' listing.
   */
  lemma AfterFacts(f: seq<Node>, p: SurfaceId, parent: SurfaceId, pre: seq<SurfaceId>) returns (e': nat)
    requires f != [] && parent !in Ids([f[0]]) && parent in Ids(f)
    ensures var front := Chains([f[0]], pre);
      var rest := Chains(f[1..], pre);
      var k' := FirstIndex(Ids(f[1..]), parent);
      && parent in Ids(f[1..]) && FirstIndex(Ids(f), parent) == |front| + k'
      && Chains(f, pre) == front + rest + []
      && Chains(Attached(f, p, parent), pre) == front + Chains(Attached(f[1..], p, parent), pre) + []
      && k' < e' <= |rest| && EndsSubtree(rest, k', e')
      && Chains(Attached(f[1..], p, parent), pre) == rest[..e'] + [rest[k'] + [p]] + rest[e'..]
    decreases f, 0
  {
    FirstIndexPastFirstRoot(f, parent, pre);
    ChainsSplitFirst(f, pre);
    e' := AttachedSplice(f[1..], p, parent, pre);
    ChainsAttachedAfter(f, p, parent, pre);
  }

  /** The first match lies past the first root's entries. */
  lemma FirstIndexPastFirstRoot(f: seq<Node>, parent: SurfaceId, pre: seq<SurfaceId>)
    requires f != [] && parent !in Ids([f[0]]) && parent in Ids(f)
    ensures parent in Ids(f[1..])
    ensures FirstIndex(Ids(f), parent) == |Chains([f[0]], pre)| + FirstIndex(Ids(f[1..]), parent)
  {
    IdsOne(f[0]);
    FirstIndexAfter(Ids([f[0]]), Ids(f[1..]), parent);
  }

  /** The listing of a non-empty forest: the first root's entries, then the later roots'. */
  lemma ChainsSplitFirst(f: seq<Node>, pre: seq<SurfaceId>)
    requires f != []
    ensures Chains(f, pre) == Chains([f[0]], pre) + Chains(f[1..], pre) + []
  {
    ChainsConcat([f[0]], f[1..], pre);
    assert [f[0]] + f[1..] == f;
  }

  /** The listing after insert when the parent lies in a later root. */
  lemma ChainsAttachedAfter(f: seq<Node>, p: SurfaceId, parent: SurfaceId, pre: seq<SurfaceId>)
    requires f != [] && parent !in Ids([f[0]])
    ensures Chains(Attached(f, p, parent), pre) == Chains([f[0]], pre) + Chains(Attached(f[1..], p, parent), pre) + []
  {
    IdsOne(f[0]);
    var rest' := Attached(f[1..], p, parent);
    ChainsConcat([f[0]], rest', pre);
    assert Attached(f, p, parent) == [f[0]] + rest';
  }


  /**
   * PopupTree::insert, stated on the pre-order listing: with some node whose
   * popup is `parent`, the new chain extends the chain of the first such node
   * and is spliced in right after that node's subtree; with none, `p` becomes
   * the last root. Either way exactly one entry is added and the others keep
   * their chains and their order.
   */
  lemma InsertedPlacesPopup(roots: seq<Node>, p: SurfaceId, parent: SurfaceId)
    ensures var cs := Chains(roots, []);
      parent in Ids(roots) ==>
        var k := FirstIndex(Ids(roots), parent);
        exists e :: k < e <= |cs| && EndsSubtree(cs, k, e)
                    && Chains(Inserted(roots, p, parent), []) == cs[..e] + [cs[k] + [p]] + cs[e..]
    ensures parent !in Ids(roots) ==> Chains(Inserted(roots, p, parent), []) == Chains(roots, []) + [[p]]
    ensures |Ids(Inserted(roots, p, parent))| == |Ids(roots)| + 1
  {
    if parent in Ids(roots) {
      var e := AttachedSplice(roots, p, parent, []);
    } else {
      ChainsConcat(roots, [Leaf(p)], []);
      ChainsOne(Leaf(p), []);
      assert [] + [p] == [p];
      assert Chains([Leaf(p)], []) == [[p]];
      assert Inserted(roots, p, parent) == roots + [Leaf(p)];
      IdsConcat(roots, [Leaf(p)]);
      IdsOne(Leaf(p));
    }
  }

  /** The last popups of a listing with one chain spliced in. */
  lemma LastsSplice(cs: seq<Chain>, e: nat, y: Chain)
    requires e <= |cs|
    ensures Lasts(cs[..e] + [y] + cs[e..]) == Lasts(cs)[..e] + [Last(y)] + Lasts(cs)[e..]
  {
    var a, b := cs[..e], cs[e..];
    LastsConcat(a + [y], b);
    LastsConcat(a, [y]);
    SplitAt(cs, e);
    LastsConcat(a, b);
    SpliceOfSplit(Lasts(a), Lasts(b), Lasts(cs), Lasts([y]), Last(y));
  }

  lemma SplitAt<T>(s: seq<T>, e: nat)
    requires e <= |s|
    ensures s[..e] + s[e..] == s
  {
  }

  lemma SpliceOfSplit<T>(a: seq<T>, b: seq<T>, s: seq<T>, ys: seq<T>, y: T)
    requires s == a + b && ys == [y]
    ensures a + ys + b == s[..|a|] + [y] + s[|a|..]
  {
    assert s[..|a|] == a && s[|a|..] == b;
  }

  /**
   * PopupTree::insert on the list of popups: exactly `p` is added, at one
   * position, and every other popup keeps its place in pre-order.
   */
  lemma InsertedIds(roots: seq<Node>, p: SurfaceId, parent: SurfaceId) returns (e: nat)
    ensures e <= |Ids(roots)| && Ids(Inserted(roots, p, parent)) == Ids(roots)[..e] + [p] + Ids(roots)[e..]
    ensures parent !in Ids(roots) ==> e == |Ids(roots)|
  {
    if parent in Ids(roots) {
      e := AttachedIds(roots, p, parent);
    } else {
      e := |Ids(roots)|;
      AppendedIds(roots, p);
      AppendAsSplice(Ids(roots), p);
    }
  }

  lemma AttachedIds(f: seq<Node>, p: SurfaceId, parent: SurfaceId) returns (e: nat)
    requires parent in Ids(f)
    ensures e <= |Ids(f)| && Ids(Attached(f, p, parent)) == Ids(f)[..e] + [p] + Ids(f)[e..]
  {
    var cs := Chains(f, []);
    var k := FirstIndex(Ids(f), parent);
    e := AttachedSplice(f, p, parent, []);
    LastsSplice(cs, e, cs[k] + [p]);
    LastsOfChains(f, []);
    LastsOfChains(Attached(f, p, parent), []);
  }

  lemma AppendedIds(roots: seq<Node>, p: SurfaceId)
    ensures Ids(roots + [Leaf(p)]) == Ids(roots) + [p]
  {
    IdsConcat(roots, [Leaf(p)]);
    IdsOne(Leaf(p));
  }

  lemma AppendAsSplice<T>(s: seq<T>, x: T)
    ensures s + [x] == s[..|s|] + [x] + s[|s|..]
  {
  }

  // ---------------------------------------------------------------------
  // Dismiss

  /** The outcome of a dismissal: the remaining siblings and the done notifications sent. */
  datatype Dismissal = Dismissal(nodes: seq<Node>, done: seq<SurfaceId>)

  /**
   * The dismissal loop over a list of siblings, as the source runs it: a
   * sibling whose popup is `p` is notified (send_done) and cut out, which ends
   * the loop; any other sibling is searched recursively and the loop goes on.
   */
  function Dismissed(f: seq<Node>, p: SurfaceId): (r: Dismissal)
    ensures |f| - 1 <= |r.nodes| <= |f|
    ensures (forall i :: 0 <= i < |f| ==> f[i].popup != p) ==> |r.nodes| == |f|
    decreases f
  {
    if f == [] then Dismissal([], [])
    else if f[0].popup == p then Dismissal(f[1..], Reverse(Ids([f[0]])))
    else
      var inner := Dismissed(f[0].children, p);
      var rest := Dismissed(f[1..], p);
      Dismissal([Node(f[0].popup, inner.nodes)] + rest.nodes, inner.done + rest.done)
  }

  function Avoids(p: SurfaceId): Chain -> bool
  {
    c => p !in c
  }

  function Through(p: SurfaceId): Chain -> bool
  {
    c => p in c
  }

  lemma {:induction false} FilterNone(cs: seq<Chain>, keep: Chain -> bool)
    requires forall k :: 0 <= k < |cs| ==> !keep(cs[k])
    ensures Filter(cs, keep) == []
  {
    if cs != [] {
      FilterNone(cs[1..], keep);
    }
  }

  lemma {:induction false} FilterAll(cs: seq<Chain>, keep: Chain -> bool)
    requires forall k :: 0 <= k < |cs| ==> keep(cs[k])
    ensures Filter(cs, keep) == cs
  {
    if cs != [] {
      FilterAll(cs[1..], keep);
    }
  }

  /** Filtering a listing headed by one node's chain, then its subtree, then the rest. */
  lemma FilterThree(c: Chain, inner: seq<Chain>, rest: seq<Chain>, keep: Chain -> bool)
    ensures Filter([c] + inner + rest, keep)
         == (if keep(c) then [c] else []) + Filter(inner, keep) + Filter(rest, keep)
  {
    FilterConcat([c] + inner, rest, keep);
    FilterConcat([c], inner, keep);
    assert [c][1..] == [];
  }

  /** The chains of a forest in which `p` does not occur all avoid `p`. */
  lemma AbsentAvoids(f: seq<Node>, pre: seq<SurfaceId>, p: SurfaceId)
    requires p !in pre && p !in Ids(f)
    ensures Filter(Chains(f, pre), Avoids(p)) == Chains(f, pre)
    ensures Filter(Chains(f, pre), Through(p)) == []
  {
    var cs := Chains(f, pre);
    forall k | 0 <= k < |cs|
      ensures p !in cs[k]
    {
      if p in cs[k] {
        ChainElements(f, pre, k, p);
      }
    }
    FilterAll(cs, Avoids(p));
    FilterNone(cs, Through(p));
  }

  /** Dismissing a popup that does not occur changes nothing and notifies no one. */
  lemma {:induction false} DismissedAbsent(f: seq<Node>, p: SurfaceId)
    requires p !in Ids(f)
    ensures Dismissed(f, p) == Dismissal(f, [])
    decreases f
  {
    if f != [] {
      DismissedAbsent(f[0].children, p);
      DismissedAbsent(f[1..], p);
    }
  }

  /**
   * Dismissal where every popup occurs once: the remaining listing is the old
   * one without the entries whose chain passes through `p` (that is, `p` and
   * its descendants), every other entry keeping its chain and its order; and
   * the done notifications go to exactly those removed popups, in reverse
   * pre-order, so descendants before ancestors and `p` itself last.
   */
  lemma DismissedRemovesSubtree(f: seq<Node>, p: SurfaceId, pre: seq<SurfaceId>)
    requires Distinct(Ids(f)) && p !in pre
    ensures Chains(Dismissed(f, p).nodes, pre) == Filter(Chains(f, pre), Avoids(p))
    ensures Dismissed(f, p).done == Reverse(Lasts(Filter(Chains(f, pre), Through(p))))
    ensures p in Ids(f) ==> Dismissed(f, p).done != [] && Last(Dismissed(f, p).done) == p
    decreases f, 1
  {
    if f != [] {
      if f[0].popup == p {
        DismissedHere(f, p, pre);
      } else {
        DismissedBelowNodes(f, p, pre);
        DismissedBelowDone(f, p, pre);
      }
    }
  }

  /** Split the distinctness of a forest into its first root, that root's children and the rest. */
  lemma DistinctParts(f: seq<Node>)
    requires f != [] && Distinct(Ids(f))
    ensures Distinct(Ids(f[0].children)) && Distinct(Ids(f[1..]))
    ensures f[0].popup !in Ids(f[0].children) && f[0].popup !in Ids(f[1..])
    ensures forall x :: x in Ids(f[0].children) ==> x !in Ids(f[1..])
  {
    var n := f[0];
    assert Ids(f) == [n.popup] + Ids(n.children) + Ids(f[1..]);
    DistinctConcat([n.popup] + Ids(n.children), Ids(f[1..]));
    DistinctConcat([n.popup], Ids(n.children));
  }

  /** The first root is `p`: it goes with its whole subtree, which is notified. */
  lemma DismissedHere(f: seq<Node>, p: SurfaceId, pre: seq<SurfaceId>)
    requires f != [] && f[0].popup == p
    requires Distinct(Ids(f)) && p !in pre
    ensures Chains(Dismissed(f, p).nodes, pre) == Filter(Chains(f, pre), Avoids(p))
    ensures Dismissed(f, p).done == Reverse(Lasts(Filter(Chains(f, pre), Through(p))))
    ensures Dismissed(f, p).done != [] && Last(Dismissed(f, p).done) == p
    decreases f, 0
  {
    var n := f[0];
    var c := pre + [n.popup];
    var inner := Chains(n.children, c);
    var rest := Chains(f[1..], pre);
    assert Chains(f, pre) == [c] + inner + rest;
    FilterThree(c, inner, rest, Avoids(p));
    FilterThree(c, inner, rest, Through(p));
    DistinctParts(f);
    assert p in c;
    ChainsBelowHold(n.children, c, p);
    FilterNone(inner, Avoids(p));
    FilterAll(inner, Through(p));
    AbsentAvoids(f[1..], pre, p);
    LastsOfChains(n.children, c);
    LastsConcat([c], inner);
    IdsOne(n);
    assert Dismissed(f, p) == Dismissal(f[1..], Reverse(Ids([n])));
    assert !Avoids(p)(c) && Through(p)(c);
    assert Filter(Chains(f, pre), Avoids(p)) == rest;
    assert Filter(Chains(f, pre), Through(p)) == [c] + inner;
    assert Lasts([c]) == [p];
    assert Lasts([c] + inner) == Ids([n]);
    assert Ids([n])[0] == p;
  }

  /** The first root is not `p`: it stays, searched inside, and the later roots are searched too. */
  lemma DismissedBelowNodes(f: seq<Node>, p: SurfaceId, pre: seq<SurfaceId>)
    requires f != [] && f[0].popup != p
    requires Distinct(Ids(f)) && p !in pre
    ensures Chains(Dismissed(f, p).nodes, pre) == Filter(Chains(f, pre), Avoids(p))
    decreases f, 0
  {
    var n := f[0];
    var c := pre + [n.popup];
    var inner := Chains(n.children, c);
    var rest := Chains(f[1..], pre);
    assert Chains(f, pre) == [c] + inner + rest;
    FilterThree(c, inner, rest, Avoids(p));
    DistinctParts(f);
    assert p !in c;
    DismissedRemovesSubtree(n.children, p, c);
    DismissedRemovesSubtree(f[1..], p, pre);
    var di := Dismissed(n.children, p);
    var dr := Dismissed(f[1..], p);
    ChainsCons(Node(n.popup, di.nodes), dr.nodes, pre);
    assert Dismissed(f, p).nodes == [Node(n.popup, di.nodes)] + dr.nodes;
    assert Avoids(p)(c);
  }

  /**
   * The first root is not `p`: the notifications come from its subtree or
   * from the later roots, and with distinct popups only one of them holds `p`.
   */
  lemma DismissedBelowDone(f: seq<Node>, p: SurfaceId, pre: seq<SurfaceId>)
    requires f != [] && f[0].popup != p
    requires Distinct(Ids(f)) && p !in pre
    ensures Dismissed(f, p).done == Reverse(Lasts(Filter(Chains(f, pre), Through(p))))
    ensures p in Ids(f) ==> Dismissed(f, p).done != [] && Last(Dismissed(f, p).done) == p
    decreases f, 0
  {
    var n := f[0];
    var c := pre + [n.popup];
    var inner := Chains(n.children, c);
    var rest := Chains(f[1..], pre);
    assert Chains(f, pre) == [c] + inner + rest;
    FilterThree(c, inner, rest, Through(p));
    DistinctParts(f);
    assert p !in c;
    DismissedRemovesSubtree(n.children, p, c);
    DismissedRemovesSubtree(f[1..], p, pre);
    var di := Dismissed(n.children, p);
    var dr := Dismissed(f[1..], p);
    assert Dismissed(f, p).done == di.done + dr.done;
    var ti := Filter(inner, Through(p));
    var tr := Filter(rest, Through(p));
    assert Filter(Chains(f, pre), Through(p)) == [] + ti + tr;
    if p in Ids(n.children) {
      AbsentAvoids(f[1..], pre, p);
      assert [] + ti + tr == ti;
      assert dr.done == [];
      assert di.done + dr.done == di.done;
    } else {
      AbsentAvoids(n.children, c, p);
      assert [] + ti + tr == tr;
      assert di.done == [];
      assert di.done + dr.done == dr.done;
      assert p in Ids(f) ==> p in Ids(f[1..]);
    }
  }

  /** Every kept entry satisfies the filter. */
  lemma {:induction false} FilterKeeps(cs: seq<Chain>, keep: Chain -> bool, k: nat)
    requires k < |Filter(cs, keep)|
    ensures keep(Filter(cs, keep)[k]) && Filter(cs, keep)[k] in cs
  {
    if cs != [] {
      if keep(cs[0]) {
        if k > 0 {
          FilterKeeps(cs[1..], keep, k - 1);
        }
      } else {
        FilterKeeps(cs[1..], keep, k);
      }
    }
  }

  /**
   * PopupTree::dismiss_popup on a tree whose popups are distinct: afterwards
   * `p` is gone, the listing is the old one minus `p`'s subtree, and the
   * notifications are that subtree in reverse pre-order, `p` last.
   */
  lemma DismissPopupEffect(roots: seq<Node>, p: SurfaceId)
    requires Distinct(Ids(roots))
    ensures var d := Dismissed(roots, p);
      && Chains(d.nodes, []) == Filter(Chains(roots, []), Avoids(p))
      && d.done == Reverse(Lasts(Filter(Chains(roots, []), Through(p))))
      && p !in Ids(d.nodes)
      && (p in Ids(roots) ==> d.done != [] && Last(d.done) == p)
      && (p !in Ids(roots) ==> d == Dismissal(roots, []))
  {
    DismissedRemovesSubtree(roots, p, []);
    var d := Dismissed(roots, p);
    LastsOfChains(d.nodes, []);
    var kept := Chains(d.nodes, []);
    forall k | 0 <= k < |kept|
      ensures Ids(d.nodes)[k] != p
    {
      FilterKeeps(Chains(roots, []), Avoids(p), k);
      assert Last(kept[k]) in kept[k];
    }
    if p !in Ids(roots) {
      DismissedAbsent(roots, p);
    }
  }

  // ---------------------------------------------------------------------
  // Cleanup

  /** The test of PopupNode::cleanup's retain: the node's surface is alive. */
  function IsLive(live: set<SurfaceId>): Node -> bool
  {
    (n: Node) => n.popup in live
  }

  /** `Vec::retain(|n| n.surface.alive())` on a list of siblings. */
  function KeepLive(f: seq<Node>, live: set<SurfaceId>): (r: seq<Node>)
    ensures forall n :: multiset(r)[n] == if n.popup in live then multiset(f)[n] else 0
  {
    FilterCounts(f, IsLive(live));
    Filter(f, IsLive(live))
  }

  /** The forest after cleanup: a node stays when it is alive, its children cleaned in turn. */
  function Pruned(f: seq<Node>, live: set<SurfaceId>): (r: seq<Node>)
    ensures |r| <= |f|
    decreases f
  {
    if f == [] then []
    else
      (if f[0].popup in live then [Node(f[0].popup, Pruned(f[0].children, live))] else [])
      + Pruned(f[1..], live)
  }

  predicate LiveChain(live: set<SurfaceId>, c: seq<SurfaceId>)
  {
    forall x :: x in c ==> x in live
  }

  function AllLive(live: set<SurfaceId>): Chain -> bool
  {
    c => LiveChain(live, c)
  }

  /** Retaining the live ones among already-cleaned children is the cleaned forest. */
  lemma {:induction false} KeepLiveCleaned(f: seq<Node>, g: seq<Node>, live: set<SurfaceId>)
    requires |g| == |f|
    requires forall j :: 0 <= j < |f| ==> g[j] == Node(f[j].popup, Pruned(f[j].children, live))
    ensures KeepLive(g, live) == Pruned(f, live)
  {
    if f != [] {
      KeepLiveCleaned(f[1..], g[1..], live);
    }
  }

  lemma {:induction false} PrunedConcat(a: seq<Node>, b: seq<Node>, live: set<SurfaceId>)
    ensures Pruned(a + b, live) == Pruned(a, live) + Pruned(b, live)
  {
    if a == [] {
      assert a + b == b;
    } else {
      assert (a + b)[0] == a[0] && (a + b)[1..] == a[1..] + b;
      PrunedConcat(a[1..], b, live);
      var head := if a[0].popup in live then [Node(a[0].popup, Pruned(a[0].children, live))] else [];
      assert Pruned(a + b, live) == head + (Pruned(a[1..], live) + Pruned(b, live));
      assert Pruned(a, live) == head + Pruned(a[1..], live);
      ConcatAssoc(head, Pruned(a[1..], live), Pruned(b, live));
    }
  }

  /**
   * Cleanup on the pre-order listing: an entry stays exactly when every popup
   * on its chain (it and all its ancestors) is alive, and the entries that
   * stay keep their chains and their order. A dead node goes with its whole
   * subtree, live children included.
   */
  lemma PrunedKeepsLiveChains(f: seq<Node>, live: set<SurfaceId>, pre: seq<SurfaceId>)
    requires LiveChain(live, pre)
    ensures Chains(Pruned(f, live), pre) == Filter(Chains(f, pre), AllLive(live))
    decreases f, 1
  {
    if f != [] {
      if f[0].popup in live {
        PrunedLiveHead(f, live, pre);
      } else {
        PrunedDeadHead(f, live, pre);
      }
    }
  }

  lemma PrunedLiveHead(f: seq<Node>, live: set<SurfaceId>, pre: seq<SurfaceId>)
    requires f != [] && f[0].popup in live && LiveChain(live, pre)
    ensures Chains(Pruned(f, live), pre) == Filter(Chains(f, pre), AllLive(live))
    decreases f, 0
  {
    var n := f[0];
    var c := pre + [n.popup];
    var inner := Chains(n.children, c);
    var rest := Chains(f[1..], pre);
    assert Chains(f, pre) == [c] + inner + rest;
    FilterThree(c, inner, rest, AllLive(live));
    assert LiveChain(live, c);
    PrunedKeepsLiveChains(n.children, live, c);
    PrunedKeepsLiveChains(f[1..], live, pre);
    ChainsCons(Node(n.popup, Pruned(n.children, live)), Pruned(f[1..], live), pre);
  }

  lemma PrunedDeadHead(f: seq<Node>, live: set<SurfaceId>, pre: seq<SurfaceId>)
    requires f != [] && f[0].popup !in live && LiveChain(live, pre)
    ensures Chains(Pruned(f, live), pre) == Filter(Chains(f, pre), AllLive(live))
    decreases f, 0
  {
    var n := f[0];
    var c := pre + [n.popup];
    var inner := Chains(n.children, c);
    var rest := Chains(f[1..], pre);
    assert Chains(f, pre) == [c] + inner + rest;
    FilterThree(c, inner, rest, AllLive(live));
    assert !LiveChain(live, c);
    PrunedKeepsLiveChains(f[1..], live, pre);
    ChainsBelowHold(n.children, c, n.popup);
    FilterNone(inner, AllLive(live));
    assert !AllLive(live)(c);
    assert Filter(Chains(f, pre), AllLive(live)) == Filter(rest, AllLive(live));
    assert Pruned(f, live) == Pruned(f[1..], live);
  }

  /** After cleanup no popup of the forest is dead. */
  lemma PrunedLeavesNoDead(roots: seq<Node>, live: set<SurfaceId>)
    ensures forall x :: x in Ids(Pruned(roots, live)) ==> x in live
  {
    PrunedKeepsLiveChains(roots, live, []);
    var kept := Pruned(roots, live);
    LastsOfChains(kept, []);
    forall x | x in Ids(kept)
      ensures x in live
    {
      var k :| 0 <= k < |Ids(kept)| && Ids(kept)[k] == x;
      FilterKeeps(Chains(roots, []), AllLive(live), k);
      assert Last(Chains(kept, [])[k]) == x;
    }
  }

  /** Cleaning an already cleaned forest changes nothing. */
  lemma {:induction false} PrunedIdempotent(f: seq<Node>, live: set<SurfaceId>)
    ensures Pruned(Pruned(f, live), live) == Pruned(f, live)
    decreases f
  {
    if f != [] {
      PrunedIdempotent(f[1..], live);
      var head := if f[0].popup in live then [Node(f[0].popup, Pruned(f[0].children, live))] else [];
      PrunedConcat(head, Pruned(f[1..], live), live);
      if f[0].popup in live {
        PrunedIdempotent(f[0].children, live);
        assert [Node(f[0].popup, Pruned(f[0].children, live))][1..] == [];
      }
    }
  }
}
