/**
 The reference definitions: WOTS chains, FORS leaves, Merkle nodes and authentication paths
 as recursive functions of a position, in the manner of FIPS 205 sections 5 to 8. The
 methods of the other modules are proved equal to these.
 */
module Spec {
  import opened Bits
  import opened Address
  import opened Engine
  import opened Merkle

  /** An address written out field by field, each reduced to its width. */
  function Pos(layer: nat, tree: nat, kind: nat, kp: nat): Adrs {
    ZERO.SetLayer(layer).SetTree(tree).SetType(kind).SetKeypair(kp)
  }

  // ---------- WOTS+ ----------

  /** Position `k` of chain `i` of a key pair. */
  function ChainPos(layer: nat, tree: nat, kind: nat, kp: nat, i: nat, k: nat): Adrs {
    Pos(layer, tree, kind, kp).SetChain(i).SetIndex(k)
  }

  /** The `k`-th value of chain `i` of key pair `kp` in tree `tree` of layer `layer`. */
  ghost function Chain(e: Engine, c: Ctx, layer: nat, tree: nat, kp: nat, i: nat, k: nat): Bytes {
    if k == 0 then e.prf(c.pub, c.sk, ChainPos(layer, tree, WOTSPRF, kp, i, 0))
    else e.thash(c.pub, ChainPos(layer, tree, WOTS, kp, i, k - 1), [Chain(e, c, layer, tree, kp, i, k - 1)])
  }

  ghost function WotsPk(e: Engine, c: Ctx, layer: nat, tree: nat, kp: nat): (r: seq<Bytes>)
    ensures |r| == e.p.Len()
  {
    seq(e.p.Len(), i requires i >= 0 => Chain(e, c, layer, tree, kp, i, e.p.w - 1))
  }

  ghost function WotsLeaf(e: Engine, c: Ctx, layer: nat, tree: nat, kp: nat): Bytes {
    e.thash(c.pub, Pos(layer, tree, WOTSPK, kp), WotsPk(e, c, layer, tree, kp))
  }

  /** The signature that reveals chain `i` at position `lens[i]`. */
  ghost function WotsSig(e: Engine, c: Ctx, layer: nat, tree: nat, kp: nat, lens: seq<nat>): (r: seq<Bytes>)
    ensures |r| == |lens|
  {
    seq(|lens|, i requires 0 <= i < |lens| => Chain(e, c, layer, tree, kp, i, lens[i]))
  }

  // ---------- FORS ----------

  ghost function ForsSk(e: Engine, c: Ctx, tree: nat, kp: nat, idx: nat): Bytes {
    e.prf(c.pub, c.sk, Pos(0, tree, FORSPRF, kp).SetIndex(idx))
  }

  ghost function ForsLeaf(e: Engine, c: Ctx, tree: nat, kp: nat, idx: nat): Bytes {
    e.thash(c.pub, Pos(0, tree, FORSTREE, kp).SetIndex(idx), [ForsSk(e, c, tree, kp, idx)])
  }

  // ---------- Merkle trees ----------

  /** Which leaves a tree is built over: the `gen_leaf` function pointer and its place. */
  datatype Gen = WotsGen(layer: nat, tree: nat) | ForsGen(tree: nat, kp: nat)

  ghost function Leaf(e: Engine, c: Ctx, g: Gen, idx: nat): Bytes {
    match g
    case WotsGen(layer, tree) => WotsLeaf(e, c, layer, tree, idx)
    case ForsGen(tree, kp) => ForsLeaf(e, c, tree, kp, idx)
  }

  /** The address of a tree, before height and index are set. */
  function Base(g: Gen): Adrs {
    match g
    case WotsGen(layer, tree) => Pos(layer, tree, HASHTREE, 0)
    case ForsGen(tree, kp) => Pos(0, tree, FORSTREE, kp)
  }

  /** Hashing two siblings into the node at height `h` and index `i` of the tree at `base`. */
  function Join(e: Engine, pub: Bytes, base: Adrs): (nat, int, Bytes, Bytes) -> Bytes {
    (h: nat, i: int, left: Bytes, right: Bytes) => e.thash(pub, base.SetHeight(h).SetIndex(i), [left, right])
  }

  /** The tree `g` as the Merkle theory sees it. */
  ghost function TreeOf(e: Engine, c: Ctx, g: Gen, off: nat): Tree {
    Tree((i: nat) => Leaf(e, c, g, i), Join(e, c.pub, Base(g)), off)
  }

  lemma JoinIs(e: Engine, pub: Bytes, base: Adrs, h: nat, i: int, left: Bytes, right: Bytes)
    ensures Join(e, pub, base)(h, i, left, right) == e.thash(pub, base.SetHeight(h).SetIndex(i), [left, right])
  {
  }

  lemma TreeParts(e: Engine, c: Ctx, g: Gen, off: nat)
    ensures TreeOf(e, c, g, off).join == Join(e, c.pub, Base(g)) && TreeOf(e, c, g, off).off == off
  {
  }

  /** A node is the hash of its two children at its own address. */
  lemma NodeIsHash(e: Engine, c: Ctx, g: Gen, off: nat, h: nat, i: nat)
    ensures var t := TreeOf(e, c, g, off);
            Node(t, h + 1, i) == e.thash(c.pub, Base(g).SetHeight(h + 1).SetIndex(i + Shr(off, h + 1)),
                                         [Node(t, h, 2 * i), Node(t, h, 2 * i + 1)])
  {
    hide Join, Base, Shr, Node, TreeOf;
    var t := TreeOf(e, c, g, off);
    NodeStep(t, h, i);
    TreeParts(e, c, g, off);
    JoinIs(e, c.pub, Base(g), h + 1, i + Shr(off, h + 1), Node(t, h, 2 * i), Node(t, h, 2 * i + 1));
  }
}
