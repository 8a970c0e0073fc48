/**
 The hypertree: what signing writes and what verification computes, layer by layer
 (sign.c), and the theorem that the second undoes the first.
 */
module Hypertree {
  import opened Bits
  import opened Address
  import opened Engine
  import opened Merkle
  import opened Spec
  import opened MerkleSign
  import opened Stats
  import W = Wots

  /** The number of blocks one layer contributes. */
  function LayerLen(p: Params): nat { p.Len() + p.h }

  /** The number of blocks of `n` layers. */
  function HtLen(p: Params, n: nat): nat {
    if n == 0 then 0 else LayerLen(p) + HtLen(p, n - 1)
  }

  lemma {:induction false} HtLenIs(p: Params, n: nat)
    ensures HtLen(p, n) == n * LayerLen(p)
  {
    if n > 0 { HtLenIs(p, n - 1); }
  }

  /** The number of index bits `n` layers consume. */
  function UpBits(p: Params, n: nat): nat {
    if n == 0 then 0 else UpBits(p, n - 1) + p.h
  }

  lemma {:induction false} UpBitsIs(p: Params, n: nat)
    ensures UpBits(p, n) == p.h * n
  {
    if n > 0 { UpBitsIs(p, n - 1); }
  }

  /** The walk up: the tree above and the leaf in it that certifies this tree. */
  function Above(p: Params, tree: nat): nat { Shr(tree, p.h) }

  function LeafAbove(p: Params, tree: nat): (r: nat)
    ensures r < Pow2(p.h)
  {
    tree % Pow2(p.h)
  }

  /** The walk loses nothing: the tree above and the leaf in it are quotient and remainder of the tree number. */
  lemma WalkSplits(p: Params, tree: nat)
    ensures Above(p, tree) * Pow2(p.h) + LeafAbove(p, tree) == tree
  {
    ShrIsDiv(tree, p.h);
  }

  /** No WOTS key pair of one layer certifies two different trees of the layer below. */
  lemma CertifiesOne(p: Params, tree: nat, tree': nat)
    ensures Above(p, tree) == Above(p, tree') && LeafAbove(p, tree) == LeafAbove(p, tree') <==> tree == tree'
  {
    hide Above, LeafAbove, Pow2;
    WalkSplits(p, tree);
    WalkSplits(p, tree');
  }

  /** The tree that layer `i` uses, and above layer 0 the key pair in it. */
  ghost function TreeAt(p: Params, tree: nat, i: nat): nat {
    if i == 0 then tree else Above(p, TreeAt(p, tree, i - 1))
  }

  /** Layer `i` uses the bits of the tree index from `i * h` up, and its key pair is the `h` bits below them. */
  lemma {:induction false} TreeAtIs(p: Params, tree: nat, i: nat)
    ensures TreeAt(p, tree, i) == tree / Pow2(UpBits(p, i))
    ensures LeafAbove(p, TreeAt(p, tree, i)) == tree / Pow2(UpBits(p, i)) % Pow2(p.h)
  {
    if i > 0 {
      TreeAtIs(p, tree, i - 1);
      ShrIsDiv(tree, UpBits(p, i - 1));
      ShrTwice(tree, UpBits(p, i - 1), p.h);
      ShrIsDiv(tree, UpBits(p, i));
    }
  }

  /** Every WOTS+C search from layer `i` up succeeds under `cap`, starting from message `msg`. */
  ghost predicate CanSign(e: Engine, c: Ctx, cap: nat, i: nat, msg: Bytes, tree: nat)
    requires i <= e.p.d
    decreases e.p.d - i
  {
    i == e.p.d || (W.Found(e, msg, cap) && CanSign(e, c, cap, i + 1, SubtreeRoot(e, c, i, tree), Above(e.p, tree)))
  }

  lemma HtLenStep(p: Params, n: nat)
    requires n > 0
    ensures HtLen(p, n) == LayerLen(p) + HtLen(p, n - 1)
  {
  }

  /** What layer `i` writes when it signs `msg`. */
  ghost function LayerPiece(e: Engine, c: Ctx, i: nat, tree: nat, leaf: nat, msg: Bytes, cap: nat): (r: seq<Bytes>)
    ensures |r| == LayerLen(e.p)
  {
    LayerSig(e, c, i, tree, leaf, W.Lengths(e, msg, cap))
  }

  /** What layers `i` and up write. */
  ghost function HtSig(e: Engine, c: Ctx, cap: nat, i: nat, msg: Bytes, tree: nat, leaf: nat): (r: seq<Bytes>)
    requires i <= e.p.d
    ensures |r| == HtLen(e.p, e.p.d - i)
    decreases e.p.d - i
  {
    if i == e.p.d then []
    else
      HtLenStep(e.p, e.p.d - i);
      LayerPiece(e, c, i, tree, leaf, msg, cap) + HtSig(e, c, cap, i + 1, SubtreeRoot(e, c, i, tree),
        Above(e.p, tree), LeafAbove(e.p, tree))
  }

  /** The record a signer leaves from layer `i` up: it stops at the first layer that cannot be signed. */
  ghost function SignedRec(e: Engine, c: Ctx, i: nat, msg: Bytes, tree: nat, was: Rec): Rec
    requires i <= e.p.d
    decreases e.p.d - i
  {
    if i == e.p.d then was
    else
      var r := W.SearchRec(e, msg, was);
      if W.Found(e, msg, e.p.wotscCap) then SignedRec(e, c, i + 1, SubtreeRoot(e, c, i, tree), Above(e.p, tree), r)
        else r
  }

  datatype Maybe = Reject | Root(value: Bytes)

  /** One layer of verification with counters up to `v`: the root reached from a signature piece on `msg`. */
  ghost function LayerRoot(e: Engine, pub: Bytes, v: nat, i: nat, msg: Bytes, tree: nat, leaf: nat,
      piece: seq<Bytes>): Maybe
    requires |piece| == LayerLen(e.p)
  {
    if !W.Found(e, msg, v) then Reject
    else
      var pk := W.PkFromSig(e, pub, i, tree, leaf, piece[..e.p.Len()], W.Lengths(e, msg, v));
      var node := e.thash(pub, Pos(i, tree, WOTSPK, leaf), pk);
      Root(Climb(Join(e, pub, Base(WotsGen(i, tree))), 0, leaf, node, piece[e.p.Len()..], e.p.h))
  }

  /** What layers `i` and up compute in verification with counters up to `v`. */
  ghost function HtRoot(e: Engine, pub: Bytes, v: nat, i: nat, msg: Bytes, tree: nat, leaf: nat, sig: seq<Bytes>): Maybe
    requires i <= e.p.d && |sig| == HtLen(e.p, e.p.d - i)
    decreases e.p.d - i
  {
    if i == e.p.d then Root(msg)
    else
      match LayerRoot(e, pub, v, i, msg, tree, leaf, sig[..LayerLen(e.p)])
      case Reject => Reject
      case Root(root) => HtRoot(e, pub, v, i + 1, root, Above(e.p, tree), LeafAbove(e.p, tree), sig[LayerLen(e.p)..])
  }

  /** The record a verifier inside a stats session leaves from layer `i` up. */
  ghost function CheckedRec(e: Engine, pub: Bytes, i: nat, msg: Bytes, tree: nat, leaf: nat, sig: seq<Bytes>,
      was: Rec): Rec
    requires i <= e.p.d && |sig| == HtLen(e.p, e.p.d - i)
    decreases e.p.d - i
  {
    if i == e.p.d then was
    else
      var r := W.SearchRec(e, msg, was);
      match LayerRoot(e, pub, e.p.wotscCap, i, msg, tree, leaf, sig[..LayerLen(e.p)])
      case Reject => r
      case Root(root) => CheckedRec(e, pub, i + 1, root, Above(e.p, tree), LeafAbove(e.p, tree),
        sig[LayerLen(e.p)..], r)
  }

  /**
   The largest counter a full-range verifier needs from layer `i` up; above 0xFFFF if some layer
   has none. It can be computed from the signature before any cap is chosen.
   */
  ghost function Effort(e: Engine, pub: Bytes, i: nat, msg: Bytes, tree: nat, leaf: nat, sig: seq<Bytes>): nat
    requires i <= e.p.d && |sig| == HtLen(e.p, e.p.d - i)
    decreases e.p.d - i
  {
    if i == e.p.d then 0
    else
      var here := W.Search(e, msg, 0, 0xFFFF);
      match LayerRoot(e, pub, 0xFFFF, i, msg, tree, leaf, sig[..LayerLen(e.p)])
      case Reject => here
      case Root(root) =>
        var above := Effort(e, pub, i + 1, root, Above(e.p, tree), LeafAbove(e.p, tree), sig[LayerLen(e.p)..]);
        if above > here then above else here
  }

  /**
   One layer under a cap: as the full-range verifier computes it if the least counter is within the
   cap, else rejected.
   */
  lemma LayerCapped(e: Engine, pub: Bytes, v: nat, i: nat, msg: Bytes, tree: nat, leaf: nat, piece: seq<Bytes>)
    requires v <= 0xFFFF && |piece| == LayerLen(e.p)
    ensures W.Search(e, msg, 0, 0xFFFF) <= v <==> W.Found(e, msg, v)
    ensures LayerRoot(e, pub, v, i, msg, tree, leaf, piece)
         == if W.Search(e, msg, 0, 0xFFFF) <= v then LayerRoot(e, pub, 0xFFFF, i, msg, tree, leaf, piece) else Reject
    ensures LayerRoot(e, pub, 0xFFFF, i, msg, tree, leaf, piece) == Reject <==> W.Search(e, msg, 0, 0xFFFF) > 0xFFFF
  {
    hide W.Search, W.Lengths, Pos, W.PkFromSig, Climb, Join;
    W.CappedSearch(e, msg, v, 0xFFFF);
    if W.Found(e, msg, v) { W.SignerAndVerifierAgree(e, msg, v, 0xFFFF); }
  }

  /** The capped verifier is the full-range verifier where the effort is within the cap, and rejects everything else. */
  lemma {:induction false} HtCapped(e: Engine, pub: Bytes, v: nat, i: nat, msg: Bytes, tree: nat, leaf: nat,
      sig: seq<Bytes>)
    requires v <= 0xFFFF && i <= e.p.d && |sig| == HtLen(e.p, e.p.d - i)
    ensures HtRoot(e, pub, v, i, msg, tree, leaf, sig)
         == if Effort(e, pub, i, msg, tree, leaf, sig) <= v then HtRoot(e, pub, 0xFFFF, i, msg, tree, leaf, sig)
           else Reject
    decreases e.p.d - i
  {
    hide LayerRoot, W.Search, Above, LeafAbove, W.Found;
    if i < e.p.d {
      var piece, rest := sig[..LayerLen(e.p)], sig[LayerLen(e.p)..];
      LayerCapped(e, pub, v, i, msg, tree, leaf, piece);
      var full := LayerRoot(e, pub, 0xFFFF, i, msg, tree, leaf, piece);
      if full.Root? {
        HtCapped(e, pub, v, i + 1, full.value, Above(e.p, tree), LeafAbove(e.p, tree), rest);
      }
    }
  }

  /** One layer: a verifier with at least the signer's range reaches the root of the subtree the signer used. */
  lemma LayerComplete(e: Engine, c: Ctx, cap: nat, v: nat, i: nat, msg: Bytes, tree: nat, leaf: nat)
    requires cap <= v && W.Found(e, msg, cap) && leaf < Pow2(e.p.h)
    ensures LayerRoot(e, c.pub, v, i, msg, tree, leaf, LayerPiece(e, c, i, tree, leaf, msg, cap))
        == Root(SubtreeRoot(e, c, i, tree))
  {
    hide WotsSig, AuthPath, W.Lengths, W.Found, Node, Pow2, Pos, W.PkFromSig, Climb, Join, Chain, W.Search;
    W.SignerAndVerifierAgree(e, msg, cap, v);
    var lens := W.Lengths(e, msg, cap);
    var t := Subtree(e, c, i, tree);
    var ots, path := WotsSig(e, c, i, tree, leaf, lens), AuthPath(t, leaf, e.p.h);
    var piece := LayerSig(e, c, i, tree, leaf, lens);
    assert piece[..e.p.Len()] == ots && piece[e.p.Len()..] == path;
    W.WotsRoundTrip(e, c, i, tree, leaf, lens);
    assert t.leaf(leaf + 0) == WotsLeaf(e, c, i, tree, leaf);
    AuthPathReachesRoot(t, leaf, e.p.h);
  }

  /** The root every honest run ends at. */
  ghost function TopRoot(e: Engine, c: Ctx, i: nat, msg: Bytes, tree: nat): Bytes
    requires i <= e.p.d
    decreases e.p.d - i
  {
    if i == e.p.d then msg else TopRoot(e, c, i + 1, SubtreeRoot(e, c, i, tree), Above(e.p, tree))
  }

  /** Signer and verifier stay in lock step through all layers, whatever was signed below. */
  lemma {:induction false} HtComplete(e: Engine, c: Ctx, cap: nat, v: nat, i: nat, msg: Bytes, tree: nat, leaf: nat)
    requires i <= e.p.d && cap <= v && CanSign(e, c, cap, i, msg, tree) && leaf < Pow2(e.p.h)
    ensures HtRoot(e, c.pub, v, i, msg, tree, leaf, HtSig(e, c, cap, i, msg, tree, leaf))
        == Root(TopRoot(e, c, i, msg, tree))
    decreases e.p.d - i
  {
    hide LayerPiece, LayerRoot, SubtreeRoot, W.Found, Pow2, Above, LeafAbove;
    if i < e.p.d {
      var root := SubtreeRoot(e, c, i, tree);
      var sig := HtSig(e, c, cap, i, msg, tree, leaf);
      var rest := HtSig(e, c, cap, i + 1, root, Above(e.p, tree), LeafAbove(e.p, tree));
      LayerComplete(e, c, cap, v, i, msg, tree, leaf);
      HtComplete(e, c, cap, v, i + 1, root, Above(e.p, tree), LeafAbove(e.p, tree));
      assert sig[..LayerLen(e.p)] == LayerPiece(e, c, i, tree, leaf, msg, cap);
      assert sig[LayerLen(e.p)..] == rest;
    }
  }

  /**
   The layer walk: a tree number that fits the bits left at layer `i` is tree 0 at the top, whose
   root is the public one.
   */
  lemma {:induction false} TopIsPublicRoot(e: Engine, c: Ctx, i: nat, msg: Bytes, tree: nat)
    requires i < e.p.d && tree < Pow2(UpBits(e.p, e.p.d - 1 - i))
    ensures TopRoot(e, c, i, msg, tree) == SubtreeRoot(e, c, e.p.d - 1, 0)
    decreases e.p.d - i
  {
    hide SubtreeRoot;
    if i < e.p.d - 1 {
      ShrBound(tree, UpBits(e.p, e.p.d - 2 - i), e.p.h);
      TopIsPublicRoot(e, c, i + 1, SubtreeRoot(e, c, i, tree), Above(e.p, tree));
    }
  }
}
