/**
 Byte buffers seen as sequences of `n`-byte blocks. The engine reads and writes signatures one
 block at a time; callers own plain bytes. The two views determine each other, and every
 block of every signature has `n` bytes.
 */
module Blocks {
  import opened Bits
  import opened Engine
  import opened Merkle
  import opened Spec
  import opened MerkleSign
  import opened Hypertree
  import opened Sign
  import F = Fors
  import W = Wots
  import G = Grind

  ghost predicate Sized(bs: seq<Bytes>, n: nat) {
    forall i | 0 <= i < |bs| :: |bs[i]| == n
  }

  /** The bytes of a sequence of blocks. */
  function Flat(bs: seq<Bytes>): Bytes {
    if bs == [] then [] else bs[0] + Flat(bs[1..])
  }

  /** The whole `n`-byte blocks of a buffer. */
  function Split(b: Bytes, n: nat): seq<Bytes>
    requires n > 0
    decreases |b|
  {
    if |b| < n then [] else [b[..n]] + Split(b[n..], n)
  }

  lemma {:induction false} FlatLength(bs: seq<Bytes>, n: nat)
    requires Sized(bs, n)
    ensures |Flat(bs)| == |bs| * n
  {
    if bs != [] {
      FlatLength(bs[1..], n);
      assert |bs| * n == (|bs| - 1) * n + n;
    }
  }

  /** Block `i` lies at offset `i * n`. */
  lemma {:induction false} FlatAt(bs: seq<Bytes>, n: nat, i: nat)
    requires Sized(bs, n) && i < |bs|
    ensures i * n + n <= |Flat(bs)| && Flat(bs)[i * n..i * n + n] == bs[i]
  {
    FlatLength(bs, n);
    var b := Flat(bs);
    if i == 0 {
      assert b[..n] == bs[0];
    } else {
      FlatAt(bs[1..], n, i - 1);
      var o := (i - 1) * n;
      assert i * n == o + n;
      assert b == bs[0] + Flat(bs[1..]);
      assert b[o + n..o + n + n] == Flat(bs[1..])[o..o + n];
    }
  }

  /** Reading back the blocks that were written. */
  lemma {:induction false} SplitOfFlat(bs: seq<Bytes>, n: nat)
    requires n > 0 && Sized(bs, n)
    ensures Split(Flat(bs), n) == bs
  {
    if bs != [] {
      var b := Flat(bs);
      assert b[..n] == bs[0] && b[n..] == Flat(bs[1..]);
      SplitOfFlat(bs[1..], n);
    }
  }

  /** Any buffer of whole blocks is the bytes of its blocks. */
  lemma {:induction false} FlatOfSplit(b: Bytes, n: nat, k: nat)
    requires n > 0 && |b| == k * n
    ensures Flat(Split(b, n)) == b && |Split(b, n)| == k && Sized(Split(b, n), n)
    decreases k
  {
    if k > 0 {
      assert k * n == (k - 1) * n + n;
      FlatOfSplit(b[n..], n, k - 1);
      var bs := Split(b, n);
      assert bs == [b[..n]] + Split(b[n..], n);
      assert bs[1..] == Split(b[n..], n);
      assert b == b[..n] + b[n..];
      forall i | 0 <= i < |bs| ensures |bs[i]| == n {
        if i > 0 { assert bs[i] == Split(b[n..], n)[i - 1]; }
      }
    }
  }

  // ---------- signatures ----------

  lemma SizedConcat(a: seq<Bytes>, b: seq<Bytes>, n: nat)
    requires Sized(a, n) && Sized(b, n)
    ensures Sized(a + b, n)
  {
  }

  lemma NodeSize(e: Engine, c: Ctx, g: Gen, off: nat, h: nat, i: nat)
    ensures |Node(TreeOf(e, c, g, off), h, i)| == e.p.n
  {
    hide Pos;
    var t := TreeOf(e, c, g, off);
    if h == 0 {
      var k := i + off;
      assert Node(t, 0, i) == Leaf(e, c, g, k);
    } else {
      var x, l, r := i + Shr(off, h), Node(t, h - 1, 2 * i), Node(t, h - 1, 2 * i + 1);
      assert Node(t, h, i) == Join(e, c.pub, Base(g))(h, x, l, r);
      assert Join(e, c.pub, Base(g))(h, x, l, r) == e.thash(c.pub, Base(g).SetHeight(h).SetIndex(x), [l, r]);
    }
  }

  lemma PathSized(e: Engine, c: Ctx, g: Gen, off: nat, leaf: nat, height: nat)
    ensures Sized(AuthPath(TreeOf(e, c, g, off), leaf, height), e.p.n)
  {
    hide Node, TreeOf;
    forall h: nat | h < height ensures |Sibling(TreeOf(e, c, g, off), leaf, h)| == e.p.n {
      NodeSize(e, c, g, off, h, Flip(Shr(leaf, h)));
    }
  }

  lemma ChainSize(e: Engine, c: Ctx, layer: nat, tree: nat, kp: nat, i: nat, k: nat)
    ensures |Chain(e, c, layer, tree, kp, i, k)| == e.p.n
  {
    hide ChainPos;
  }

  lemma LayerSized(e: Engine, c: Ctx, layer: nat, tree: nat, leaf: nat, lens: seq<nat>)
    ensures Sized(LayerSig(e, c, layer, tree, leaf, lens), e.p.n)
  {
    hide Chain, AuthPath, TreeOf, Sibling;
    forall i | 0 <= i < |lens| ensures |Chain(e, c, layer, tree, leaf, i, lens[i])| == e.p.n {
      ChainSize(e, c, layer, tree, leaf, i, lens[i]);
    }
    PathSized(e, c, WotsGen(layer, tree), 0, leaf, e.p.h);
    SizedConcat(WotsSig(e, c, layer, tree, leaf, lens), AuthPath(Subtree(e, c, layer, tree), leaf, e.p.h), e.p.n);
  }

  lemma {:induction false} HtSized(e: Engine, c: Ctx, cap: nat, i: nat, msg: Bytes, tree: nat, leaf: nat)
    requires i <= e.p.d
    ensures Sized(HtSig(e, c, cap, i, msg, tree, leaf), e.p.n)
    decreases e.p.d - i
  {
    hide LayerSig, SubtreeRoot, Above, LeafAbove, W.Lengths, HtLen;
    if i < e.p.d {
      var rest := HtSig(e, c, cap, i + 1, SubtreeRoot(e, c, i, tree), Above(e.p, tree), LeafAbove(e.p, tree));
      LayerSized(e, c, i, tree, leaf, W.Lengths(e, msg, cap));
      HtSized(e, c, cap, i + 1, SubtreeRoot(e, c, i, tree), Above(e.p, tree), LeafAbove(e.p, tree));
      SizedConcat(LayerSig(e, c, i, tree, leaf, W.Lengths(e, msg, cap)), rest, e.p.n);
    }
  }

  lemma {:induction false} ForsSized(e: Engine, c: Ctx, tree: nat, kp: nat, indices: seq<nat>, n: nat)
    requires n <= |indices|
    ensures Sized(F.ForsSig(e, c, tree, kp, indices, n), e.p.n)
  {
    hide F.TreeSig, F.BlockOff;
    if n > 0 {
      ForsSized(e, c, tree, kp, indices, n - 1);
      OpenSized(e, c, tree, kp, indices[n - 1], n - 1);
      SizedConcat(F.ForsSig(e, c, tree, kp, indices, n - 1), F.TreeSig(e, c, tree, kp, indices[n - 1], n - 1), e.p.n);
    }
  }

  lemma OpenSized(e: Engine, c: Ctx, tree: nat, kp: nat, idx: nat, t: nat)
    ensures Sized(F.TreeSig(e, c, tree, kp, idx, t), e.p.n)
  {
    hide TreeOf, AuthPath, Pos, F.LeafOff;
    PathSized(e, c, ForsGen(tree, kp), F.LeafOff(e.p, t), idx, e.p.a);
    SizedConcat([ForsSk(e, c, tree, kp, idx + F.LeafOff(e.p, t))],
      AuthPath(F.ForsTree(e, c, tree, kp, t), idx, e.p.a), e.p.n);
  }

  /** The number of blocks of a signature. */
  function SigLen(p: Params): nat { 1 + ForsBlocks(p) + HtLen(p, p.d) }

  /** CRYPTO_BYTES. */
  function SigBytes(p: Params): nat { Times(SigLen(p), p.n) }

  function Times(a: nat, b: nat): nat { a * b }

  lemma SigLenIs(p: Params)
    ensures SigLen(p) == p.SigBlocks()
  {
    hide HtLen;
    HtLenIs(p, p.d);
  }

  /** Every signature is made of `n`-byte blocks, as many as the parameters say. */
  lemma SignatureSized(e: Engine, sk: Bytes, optrand: Bytes, m: Bytes, cap: nat)
    requires |sk| == 4 * e.p.n
    ensures Sized(Signature(e, sk, optrand, m, cap), e.p.n)
    ensures |Flat(Signature(e, sk, optrand, m, cap))| == e.p.SigBlocks() * e.p.n
  {
    hide F.ForsSig, HtSig, F.ForsPk, F.ForsIndices, G.MHash, G.TreeIndex, G.LeafIndex, HtLen, ForsBlocks, SaltNo;
    var d, c := SaltedDigest(e, sk, optrand, m), CtxOf(e.p, sk);
    var tree, leaf := G.TreeIndex(e.p, d), G.LeafIndex(e.p, d);
    var fors := F.ForsSig(e, c, tree, leaf, F.ForsIndices(e.p, G.MHash(e.p, d)), e.p.trees);
    var ht := HtSig(e, c, cap, 0, F.ForsPk(e, c, tree, leaf), tree, leaf);
    ForsSized(e, c, tree, leaf, F.ForsIndices(e.p, G.MHash(e.p, d)), e.p.trees);
    HtSized(e, c, cap, 0, F.ForsPk(e, c, tree, leaf), tree, leaf);
    var sig := Signature(e, sk, optrand, m, cap);
    assert sig == [SaltedR(e, sk, optrand, m)] + fors + ht;
    SizedConcat([SaltedR(e, sk, optrand, m)], fors, e.p.n);
    SizedConcat([SaltedR(e, sk, optrand, m)] + fors, ht, e.p.n);
    FlatLength(sig, e.p.n);
    SigLenIs(e.p);
  }
}
