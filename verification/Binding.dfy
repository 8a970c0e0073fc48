/**
 What an accepted signature is. Under the public key of a good key, verification is binding: piece
 by piece from the root down, an accepted signature consists of the values the key holder would
 have written, or it exhibits, explicitly, one of the events a secure instance excludes.
 */
module Binding {
  import opened Bits
  import opened Address
  import opened Engine
  import opened Merkle
  import opened Spec
  import opened MerkleSign
  import opened Hypertree
  import F = Fors
  import W = Wots

  /** Two different inputs of one length that `thash` maps to one value at one address. */
  datatype Clash = Same | Clash(a: Adrs, x: seq<Bytes>, y: seq<Bytes>)

  ghost predicate Real(e: Engine, pub: Bytes, k: Clash) {
    k.Clash? ==> |k.x| == |k.y| && k.x != k.y && e.thash(pub, k.a, k.x) == e.thash(pub, k.a, k.y)
  }

  // ---------- chains ----------

  /** A chain completed to its honest value started at its honest value. */
  lemma {:induction false} ChainBinds(e: Engine, c: Ctx, layer: nat, tree: nat, kp: nat, i: nat, v: Bytes,
      start: nat, steps: nat)
    returns (k: Clash)
    requires W.Advance(e, c.pub, layer, tree, kp, i, v, start, steps) == Chain(e, c, layer, tree, kp, i, start + steps)
    ensures Real(e, c.pub, k)
    ensures k.Same? ==> v == Chain(e, c, layer, tree, kp, i, start)
    decreases steps
  {
    hide ChainPos;
    if steps == 0 { return Same; }
    var x := W.Advance(e, c.pub, layer, tree, kp, i, v, start, steps - 1);
    var y := Chain(e, c, layer, tree, kp, i, start + steps - 1);
    if x == y {
      k := ChainBinds(e, c, layer, tree, kp, i, v, start, steps - 1);
    } else {
      k := Clash(ChainPos(layer, tree, WOTS, kp, i, start + steps - 1), [x], [y]);
    }
  }

  /** A signature that completes to the honest WOTS key is, in its first `n` chains, the honest one for its lengths. */
  lemma {:induction false} KeyBinds(e: Engine, c: Ctx, layer: nat, tree: nat, kp: nat, sig: seq<Bytes>,
      lens: seq<nat>, n: nat)
    returns (k: Clash)
    requires |sig| == |lens| == e.p.Len() && n <= |sig| && forall x | x in lens :: x < e.p.w
    requires W.PkFromSig(e, c.pub, layer, tree, kp, sig, lens) == WotsPk(e, c, layer, tree, kp)
    ensures Real(e, c.pub, k)
    ensures k.Same? ==> sig[..n] == WotsSig(e, c, layer, tree, kp, lens)[..n]
    decreases n
  {
    hide W.Advance, Chain, W.PkFromSig;
    if n == 0 { return Same; }
    k := KeyBinds(e, c, layer, tree, kp, sig, lens, n - 1);
    if k.Clash? { return; }
    var i := n - 1;
    assert lens[i] in lens;
    W.PkFromSigAt(e, c.pub, layer, tree, kp, sig, lens, i);
    assert WotsPk(e, c, layer, tree, kp)[i] == Chain(e, c, layer, tree, kp, i, e.p.w - 1);
    k := ChainBinds(e, c, layer, tree, kp, i, sig[i], lens[i], e.p.w - 1 - lens[i]);
  }

  // ---------- trees ----------

  lemma ClimbIs(e: Engine, pub: Bytes, base: Adrs, off: nat, leaf: nat, node: Bytes, path: seq<Bytes>, h: nat)
    requires h < |path|
    ensures var below, i := Climb(Join(e, pub, base), off, leaf, node, path, h), Shr(leaf, h);
            var pair := Ordered(i, below, path[h]);
            && Climb(Join(e, pub, base), off, leaf, node, path, h + 1)
               == e.thash(pub, base.SetHeight(h + 1).SetIndex(i / 2 + Shr(off, h + 1)), pair)
            && Shr(leaf, h + 1) == i / 2
  {
    hide Join;
    var below, i := Climb(Join(e, pub, base), off, leaf, node, path, h), Shr(leaf, h);
    JoinIs(e, pub, base, h + 1, i / 2 + Shr(off, h + 1), path[h], below);
    JoinIs(e, pub, base, h + 1, i / 2 + Shr(off, h + 1), below, path[h]);
  }

  /** A path that climbs to an honest node started at the honest leaf and is the honest path. */
  lemma {:induction false} ClimbBinds(e: Engine, c: Ctx, g: Gen, off: nat, leaf: nat, node: Bytes, path: seq<Bytes>,
      h: nat)
    returns (k: Clash)
    requires h <= |path|
    requires Climb(Join(e, c.pub, Base(g)), off, leaf, node, path, h) == Node(TreeOf(e, c, g, off), h, Shr(leaf, h))
    ensures Real(e, c.pub, k)
    ensures k.Same? ==> node == Node(TreeOf(e, c, g, off), 0, leaf) && IsPath(TreeOf(e, c, g, off), leaf, path, h)
    decreases h
  {
    hide Join, Base, TreeOf, Node, Adrs.SetHeight, Adrs.SetIndex, Climb, Shr, IsPath;
    var t := TreeOf(e, c, g, off);
    if h == 0 {
      ClimbNone(e, c, g, off, leaf, node, path);
      return Same;
    }
    var j := h - 1;
    var i, below := Shr(leaf, j), Climb(Join(e, c.pub, Base(g)), off, leaf, node, path, j);
    ClimbIs(e, c.pub, Base(g), off, leaf, node, path, j);
    NodeIsHash(e, c, g, off, j, i / 2);
    var pair := Ordered(i, below, path[j]);
    var want := [Node(t, j, 2 * (i / 2)), Node(t, j, 2 * (i / 2) + 1)];
    if pair == want {
      OrderedIs(t, j, i, below, path[j]);
      k := ClimbBinds(e, c, g, off, leaf, node, path, j);
      PathGrows(t, leaf, path, j);
    } else {
      k := Clash(Base(g).SetHeight(h).SetIndex(i / 2 + Shr(off, h)), pair, want);
    }
  }

  /** A node and its sibling, left one first. */
  function Ordered(i: nat, below: Bytes, sibling: Bytes): seq<Bytes> {
    if i % 2 == 1 then [sibling, below] else [below, sibling]
  }

  lemma OrderedIs(t: Tree, h: nat, i: nat, below: Bytes, sibling: Bytes)
    requires Ordered(i, below, sibling) == [Node(t, h, 2 * (i / 2)), Node(t, h, 2 * (i / 2) + 1)]
    ensures below == Node(t, h, i) && sibling == Node(t, h, Flip(i))
  {
    hide Node;
    var pair := Ordered(i, below, sibling);
    assert pair[0] == Node(t, h, 2 * (i / 2)) && pair[1] == Node(t, h, 2 * (i / 2) + 1);
  }

  lemma ClimbNone(e: Engine, c: Ctx, g: Gen, off: nat, leaf: nat, node: Bytes, path: seq<Bytes>)
    ensures Climb(Join(e, c.pub, Base(g)), off, leaf, node, path, 0) == node && Shr(leaf, 0) == leaf
    ensures IsPath(TreeOf(e, c, g, off), leaf, path, 0)
  {
    hide TreeOf, Join, Base;
  }

  lemma PathGrows(t: Tree, leaf: nat, path: seq<Bytes>, h: nat)
    requires h < |path| && path[h] == Node(t, h, Flip(Shr(leaf, h)))
    ensures IsPath(t, leaf, path, h) ==> IsPath(t, leaf, path, h + 1)
  {
    hide Node, Shr;
  }

  lemma PathIs(t: Tree, leaf: nat, path: seq<Bytes>, h: nat)
    requires IsPath(t, leaf, path, h) && |path| == h
    ensures path == AuthPath(t, leaf, h)
  {
    hide Sibling;
  }

  // ---------- one layer ----------

  lemma LayerRootParts(e: Engine, pub: Bytes, v: nat, i: nat, msg: Bytes, tree: nat, leaf: nat, piece: seq<Bytes>)
    requires |piece| == LayerLen(e.p) && LayerRoot(e, pub, v, i, msg, tree, leaf, piece).Root?
    ensures W.Found(e, msg, v)
    ensures var pk := W.PkFromSig(e, pub, i, tree, leaf, piece[..e.p.Len()], W.Lengths(e, msg, v));
            LayerRoot(e, pub, v, i, msg, tree, leaf, piece)
            == Root(Climb(Join(e, pub, Base(WotsGen(i, tree))), 0, leaf,
              e.thash(pub, Pos(i, tree, WOTSPK, leaf), pk), piece[e.p.Len()..], e.p.h))
  {
    hide W.Lengths, W.PkFromSig, Climb, Join, Pos, Base, W.Found;
  }

  lemma SubtreeLeaf(e: Engine, c: Ctx, i: nat, tree: nat, leaf: nat)
    ensures Node(Subtree(e, c, i, tree), 0, leaf)
         == e.thash(c.pub, Pos(i, tree, WOTSPK, leaf), WotsPk(e, c, i, tree, leaf))
  {
    hide Pos, WotsPk;
    assert Node(Subtree(e, c, i, tree), 0, leaf) == Leaf(e, c, WotsGen(i, tree), leaf);
  }

  /** A piece that verifies to the honest subtree root is the honest piece for the message it signs. */
  lemma LayerBinds(e: Engine, c: Ctx, v: nat, i: nat, msg: Bytes, tree: nat, leaf: nat, piece: seq<Bytes>)
      returns (k: Clash)
    requires leaf < Pow2(e.p.h) && |piece| == LayerLen(e.p)
    requires LayerRoot(e, c.pub, v, i, msg, tree, leaf, piece) == Root(SubtreeRoot(e, c, i, tree))
    ensures Real(e, c.pub, k) && W.Found(e, msg, v)
    ensures k.Same? ==> piece == LayerPiece(e, c, i, tree, leaf, msg, v)
  {
    hide LayerRoot, W.Lengths, W.PkFromSig, Climb, Join, Pos, Base, WotsPk, WotsSig, AuthPath, Node, TreeOf, W.Found,
      Pow2,
      IsPath;
    LayerRootParts(e, c.pub, v, i, msg, tree, leaf, piece);
    var lens, t := W.Lengths(e, msg, v), Subtree(e, c, i, tree);
    var ots, path := piece[..e.p.Len()], piece[e.p.Len()..];
    var pk := W.PkFromSig(e, c.pub, i, tree, leaf, ots, lens);
    var node := e.thash(c.pub, Pos(i, tree, WOTSPK, leaf), pk);
    LeafAtRoot(leaf, e.p.h);
    k := ClimbBinds(e, c, WotsGen(i, tree), 0, leaf, node, path, e.p.h);
    if k.Clash? { return; }
    PathIs(t, leaf, path, e.p.h);
    SubtreeLeaf(e, c, i, tree, leaf);
    if pk != WotsPk(e, c, i, tree, leaf) {
      k := Clash(Pos(i, tree, WOTSPK, leaf), pk, WotsPk(e, c, i, tree, leaf));
      return;
    }
    k := KeyBinds(e, c, i, tree, leaf, ots, lens, e.p.Len());
    if k.Clash? { return; }
    assert ots[..e.p.Len()] == ots && WotsSig(e, c, i, tree, leaf, lens)[..e.p.Len()]
      == WotsSig(e, c, i, tree, leaf, lens);
    assert piece == ots + path;
  }

  lemma LeafAtRoot(leaf: nat, h: nat)
    requires leaf < Pow2(h)
    ensures Shr(leaf, h) == 0
  {
    ShrBound(leaf, 0, h);
  }

  // ---------- FORS ----------

  lemma ForsTreeLeaf(e: Engine, c: Ctx, tree: nat, kp: nat, t: nat, idx: nat)
    ensures Node(F.ForsTree(e, c, tree, kp, t), 0, idx)
         == e.thash(c.pub, Pos(0, tree, FORSTREE, kp).SetIndex(idx + F.LeafOff(e.p, t)),
           [ForsSk(e, c, tree, kp, idx + F.LeafOff(e.p, t))])
  {
    hide Pos, F.LeafOff;
    var k := idx + F.LeafOff(e.p, t);
    assert Node(F.ForsTree(e, c, tree, kp, t), 0, idx) == Leaf(e, c, ForsGen(tree, kp), k);
  }

  /** One tree: a share that verifies to the honest root is the honest opening of its index. */
  lemma TreeBinds(e: Engine, c: Ctx, tree: nat, kp: nat, idx: nat, t: nat, piece: seq<Bytes>) returns (k: Clash)
    requires idx < Pow2(e.p.a) && |piece| == e.p.a + 1
    requires F.RootFromSig(e, c.pub, tree, kp, idx, t, piece) == F.ForsRoot(e, c, tree, kp, t)
    ensures Real(e, c.pub, k)
    ensures k.Same? ==> piece == F.TreeSig(e, c, tree, kp, idx, t)
  {
    hide Pos, Node, TreeOf, Climb, Join, AuthPath, IsPath, Pow2, F.LeafOff, ForsSk, Base;
    F.BaseIs(tree, kp);
    LeafAtRoot(idx, e.p.a);
    var off, ft := F.LeafOff(e.p, t), F.ForsTree(e, c, tree, kp, t);
    var a, path := Pos(0, tree, FORSTREE, kp).SetIndex(idx + off), piece[1..];
    var leaf := e.thash(c.pub, a, [piece[0]]);
    k := ClimbBinds(e, c, ForsGen(tree, kp), off, idx, leaf, path, e.p.a);
    if k.Clash? { return; }
    PathIs(ft, idx, path, e.p.a);
    ForsTreeLeaf(e, c, tree, kp, t, idx);
    var sk := ForsSk(e, c, tree, kp, idx + off);
    if piece[0] != sk {
      var x, y := [piece[0]], [sk];
      assert x[0] != y[0];
      k := Clash(a, x, y);
      return;
    }
    assert piece == [piece[0]] + path;
  }

  /** The first `n` trees of a share that verifies to the honest roots. */
  lemma {:induction false} TreesBind(e: Engine, c: Ctx, tree: nat, kp: nat, indices: seq<nat>, sig: seq<Bytes>, n: nat)
    returns (k: Clash)
    requires |indices| == e.p.trees && n <= e.p.trees && forall i | 0 <= i < e.p.trees :: indices[i] < Pow2(e.p.a)
    requires |sig| == F.BlockOff(e.p, e.p.trees) && F.BlockOff(e.p, n) <= |sig|
    requires F.RootsFromSig(e, c.pub, tree, kp, indices, sig, n) == F.ForsRoots(e, c, tree, kp)[..n]
    ensures Real(e, c.pub, k)
    ensures k.Same? ==> sig[..F.BlockOff(e.p, n)] == F.ForsSig(e, c, tree, kp, indices, n)
    decreases n
  {
    hide F.BlockOff, F.RootsFromSig, F.RootFromSig, F.ForsRoot, F.TreeSig, Pow2;
    if n == 0 {
      F.BlockOffZero(e.p);
      return Same;
    }
    var t := n - 1;
    F.BlockOffStep(e.p, t, n);
    F.RootsStep(e, c.pub, tree, kp, indices, sig, t);
    var lo, hi := F.BlockOff(e.p, t), F.BlockOff(e.p, n);
    var roots, want := F.RootsFromSig(e, c.pub, tree, kp, indices, sig, n), F.ForsRoots(e, c, tree, kp);
    assert roots[..t] == F.RootsFromSig(e, c.pub, tree, kp, indices, sig, t) && want[..n][..t] == want[..t];
    k := TreesBind(e, c, tree, kp, indices, sig, t);
    if k.Clash? { return; }
    assert roots[t] == want[..n][t] == F.ForsRoot(e, c, tree, kp, t);
    k := TreeBinds(e, c, tree, kp, indices[t], t, sig[lo..lo + e.p.a + 1]);
    assert sig[..hi] == sig[..lo] + sig[lo..hi];
  }

  /** A FORS signature that verifies to the honest key opens the honest values at its indices. */
  lemma ForsBinds(e: Engine, c: Ctx, tree: nat, kp: nat, indices: seq<nat>, sig: seq<Bytes>) returns (k: Clash)
    requires |indices| == e.p.trees && forall i | 0 <= i < e.p.trees :: indices[i] < Pow2(e.p.a)
    requires |sig| == F.BlockOff(e.p, e.p.trees)
    requires F.PkFromSig(e, c.pub, tree, kp, indices, sig) == F.ForsPk(e, c, tree, kp)
    ensures Real(e, c.pub, k)
    ensures k.Same? ==> sig == F.ForsSig(e, c, tree, kp, indices, e.p.trees)
  {
    hide F.BlockOff, F.RootsFromSig, F.ForsRoots, F.ForsSig, Pow2, Pos;
    var roots, want := F.RootsFromSig(e, c.pub, tree, kp, indices, sig, e.p.trees), F.ForsRoots(e, c, tree, kp);
    if roots != want {
      k := Clash(Pos(0, tree, FORSPK, kp), roots, want);
      return;
    }
    assert want[..e.p.trees] == want && sig[..|sig|] == sig;
    k := TreesBind(e, c, tree, kp, indices, sig, e.p.trees);
  }
}
