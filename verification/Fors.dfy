/**
 fors.c: FORS, a forest of trees of which the message digest opens one leaf each. The digest
 is read least significant bit first.
 */
module Fors {
  import opened Bits
  import opened Address
  import opened Engine
  import opened Merkle
  import opened Spec
  import opened LeafGen
  import opened LeafGenX8
  import T1 = TreeHashX1
  import T8 = TreeHashX8

  // ---------- the digest as a bit string ----------

  /** Bit `o` of a digest: `(m[o >> 3] >> (o & 7)) & 1`. */
  function BitAt(m: Bytes, o: nat): (r: nat)
    requires o / 8 < |m|
    ensures r < 2
  {
    Shr(m[o / 8], o % 8) % 2
  }

  /** The `len` bits from `base`, least significant first. */
  function BitsFrom(m: Bytes, base: nat, len: nat): (r: nat)
    requires base + len <= 8 * |m|
    ensures r < Pow2(len)
    decreases len
  {
    if len == 0 then 0 else BitAt(m, base) + 2 * BitsFrom(m, base + 1, len - 1)
  }

  /** Appending a bit at the top. */
  lemma {:induction false} BitsSnoc(m: Bytes, base: nat, len: nat)
    requires base + len < 8 * |m|
    ensures BitsFrom(m, base, len + 1) == BitsFrom(m, base, len) + (if BitAt(m, base + len) == 1 then Pow2(len) else 0)
    decreases len
  {
    hide BitAt;
    if len > 0 { BitsSnoc(m, base + 1, len - 1); }
  }

  lemma {:induction false} ShrInner(x: nat, t: nat)
    requires t > 0
    ensures Shr(x, t) == Shr(x / 2, t - 1)
  {
    if t > 1 { ShrInner(x, t - 1); }
  }

  /** Every bit can be read back from the number: nothing of the digest is lost. */
  lemma {:induction false} BitsReadBack(m: Bytes, base: nat, len: nat, t: nat)
    requires base + len <= 8 * |m| && t < len
    ensures Shr(BitsFrom(m, base, len), t) % 2 == BitAt(m, base + t)
    decreases len
  {
    hide BitAt, Pow2;
    if t > 0 {
      ShrInner(BitsFrom(m, base, len), t);
      BitsReadBack(m, base + 1, len - 1, t - 1);
    }
  }

  lemma {:induction false} ShrLow(x: nat, r: nat, o: nat)
    requires o <= 8
    ensures Shr(x + 256 * r, o) == Shr(x, o) + Pow2(8 - o) * r
  {
    if o == 0 {
      SmallPowers();
    } else {
      ShrLow(x, r, o - 1);
      var p := Pow2(8 - o);
      assert Pow2(8 - o + 1) == 2 * p;
      assert (2 * p) * r == 2 * (p * r);
    }
  }

  lemma LowBit(x: nat, r: nat, o: nat)
    requires o < 8
    ensures Shr(x + 256 * r, o) % 2 == Shr(x, o) % 2
  {
    hide Shr;
    ShrLow(x, r, o);
    var p := Pow2(7 - o);
    assert Pow2(8 - o) * r == 2 * (p * r) by {
      assert Pow2(8 - o) == 2 * p;
      Doubled(0, p, r);
    }
  }

  lemma HighBits(x: nat, r: nat, o: nat)
    requires x < 256 && o >= 8
    ensures Shr(x + 256 * r, o) == Shr(r, o - 8)
  {
    hide Shr;
    ShrLow(x, r, 8);
    SmallPowers();
    ShrBound(x, 0, 8);
    ShrTwice(x + 256 * r, 8, o - 8);
  }

  /** The bits of the digest are those of its value as a little-endian integer. */
  lemma {:induction false} BitAtIs(m: Bytes, o: nat)
    requires o < 8 * |m|
    ensures BitAt(m, o) == Shr(FromLE(m), o) % 2
  {
    hide Shr;
    var x, r := m[0], FromLE(m[1..]);
    assert FromLE(m) == x as nat + 256 * r;
    if o < 8 {
      LowBit(x, r, o);
    } else {
      BitAtIs(m[1..], o - 8);
      HighBits(x, r, o);
      SameByte(m, o);
    }
  }

  lemma SameByte(m: Bytes, o: nat)
    requires 8 <= o < 8 * |m|
    ensures BitAt(m, o) == BitAt(m[1..], o - 8)
  {
    assert o / 8 == (o - 8) / 8 + 1 && o % 8 == (o - 8) % 8;
  }

  /** What the index loops read: the digest as one little-endian integer, shifted and masked. */
  lemma {:induction false} BitsFromIs(m: Bytes, base: nat, len: nat)
    requires base + len <= 8 * |m|
    ensures BitsFrom(m, base, len) == Shr(FromLE(m), base) % Pow2(len)
    decreases len
  {
    hide BitAt;
    if len > 0 {
      BitAtIs(m, base);
      BitsFromIs(m, base + 1, len - 1);
      ModDouble(Shr(FromLE(m), base), Pow2(len - 1));
    }
  }

  lemma BitOfByte(m: Bytes, b: nat, t: nat)
    requires b < |m| && t < 8
    ensures BitAt(m, 8 * b + t) == Shr(m[b], t) % 2 && Shr(m[b], t + 1) == Shr(m[b], t) / 2
  {
    assert (8 * b + t) / 8 == b && (8 * b + t) % 8 == t;
  }

  /** Eight bits from a byte boundary are the byte. */
  lemma {:induction false} BitsOfByte(m: Bytes, b: nat, t: nat)
    requires b < |m| && t <= 8
    ensures BitsFrom(m, 8 * b + t, 8 - t) == Shr(m[b], t)
    decreases 8 - t
  {
    hide Shr, BitAt, BitsFrom, Pow2;
    if t < 8 {
      BitsOfByte(m, b, t + 1);
      BitsStep(m, 8 * b + t, 8 - t);
      BitOfByte(m, b, t);
    } else {
      NoBits(m, 8 * b + 8);
      SmallPowers();
      ShrBound(m[b], 0, 8);
    }
  }

  lemma {:induction false} BitsJoin(m: Bytes, base: nat, k: nat, len: nat)
    requires base + k + len <= 8 * |m|
    ensures BitsFrom(m, base, k + len) == BitsFrom(m, base, k) + Pow2(k) * BitsFrom(m, base + k, len)
    decreases k
  {
    hide BitAt, BitsFrom, Pow2;
    if k == 0 {
      NoBits(m, base);
    } else {
      BitsJoin(m, base + 1, k - 1, len);
      var bit, low, rest := BitAt(m, base), BitsFrom(m, base + 1, k - 1), BitsFrom(m, base + k, len);
      BitsStep(m, base, k + len);
      BitsStep(m, base, k);
      Doubled(low, Pow2(k - 1), rest);
    }
  }

  lemma NoBits(m: Bytes, base: nat)
    requires base <= 8 * |m|
    ensures BitsFrom(m, base, 0) == 0 && Pow2(0) == 1
  {
  }

  lemma BitsStep(m: Bytes, base: nat, len: nat)
    requires 0 < len && base + len <= 8 * |m|
    ensures BitsFrom(m, base, len) == BitAt(m, base) + 2 * BitsFrom(m, base + 1, len - 1)
        && Pow2(len) == 2 * Pow2(len - 1)
  {
    hide BitAt;
  }

  lemma Doubled(low: nat, p: nat, rest: nat)
    ensures 2 * (low + p * rest) == 2 * low + (2 * p) * rest
  {
  }

  /** `i * j + i == i * (j + 1)`, and products are monotone: the only nonlinear facts the offsets need. */
  lemma MulFacts(i: nat, j: nat, a: nat)
    requires i < j
    ensures (i + 1) * a == i * a + a && (i + 1) * a <= j * a
  {
    if i + 1 < j { MulFacts(i, j - 1, a); }
    assert j * a == (j - 1) * a + a;
  }

  lemma WholeBytes(x: nat)
    ensures x <= 8 * ((x + 7) / 8)
  {
  }

  lemma IndexFits(p: Params, i: nat)
    requires i <= p.trees
    ensures i * p.a + p.a <= 8 * p.ForsMsgBytes()
  {
    MulFacts(i, p.trees + 1, p.a);
    WholeBytes(p.a * (p.trees + 1));
  }

  /** The FORS index of tree `i`; tree number `p.trees` is the compressed one. */
  function ForsIndex(p: Params, m: Bytes, i: nat): (r: nat)
    requires |m| == p.ForsMsgBytes() && i <= p.trees
    ensures r < Pow2(p.a)
  {
    IndexFits(p, i);
    BitsFrom(m, i * p.a, p.a)
  }

  /** The index of tree `i`, for every height: digit `i` of the digest as a little-endian integer in base 2^a. */
  lemma ForsIndexIs(p: Params, m: Bytes, i: nat)
    requires |m| == p.ForsMsgBytes() && i <= p.trees
    ensures ForsIndex(p, m, i) == FromLE(m) / Pow2(i * p.a) % Pow2(p.a)
  {
    hide Pow2, BitsFrom, FromLE, Shr;
    IndexFits(p, i);
    BitsFromIs(m, i * p.a, p.a);
    ShrIsDiv(FromLE(m), i * p.a);
  }

  /** In the shipped profile an index is two digest bytes, the first one low. */
  lemma ShippedIndex(m: Bytes, i: nat)
    requires |m| == 16 && i <= 7
    ensures ForsIndex(BOUNDED30, m, i) == m[2 * i] as nat + 256 * m[2 * i + 1] as nat
  {
    hide BitsFrom, Pow2;
    SmallPowers();
    BitsJoin(m, 16 * i, 8, 8);
    BitsOfByte(m, 2 * i, 0);
    BitsOfByte(m, 2 * i + 1, 0);
    assert Shr(m[2 * i], 0) == m[2 * i] && Shr(m[2 * i + 1], 0) == m[2 * i + 1];
  }

  function ForsIndices(p: Params, m: Bytes): (r: seq<nat>)
    requires |m| == p.ForsMsgBytes()
    ensures |r| == p.trees && forall i | 0 <= i < p.trees :: r[i] == ForsIndex(p, m, i) < Pow2(p.a)
  {
    seq(p.trees, i requires 0 <= i < p.trees => ForsIndex(p, m, i))
  }

  /** The index decomposition is lossless: equal indices, the compressed one included, mean equal digest bits. */
  lemma IndicesDetermineBits(p: Params, m: Bytes, m': Bytes, i: nat, t: nat)
    requires |m| == |m'| == p.ForsMsgBytes() && i <= p.trees && t < p.a
    requires ForsIndex(p, m, i) == ForsIndex(p, m', i)
    ensures (i * p.a + t) / 8 < |m| && BitAt(m, i * p.a + t) == BitAt(m', i * p.a + t)
  {
    hide BitAt, BitsFrom, Pow2, Shr;
    MulFacts(i, p.trees + 1, p.a);
    BitsReadBack(m, i * p.a, p.a, t);
    BitsReadBack(m', i * p.a, p.a, t);
  }

  lemma {:induction false} NumberFromBits(x: nat, y: nat, n: nat)
    requires x < Pow2(n) && y < Pow2(n) && SameBits(x, y, n)
    ensures x == y
    decreases n
  {
    if n > 0 {
      assert Shr(x, 0) % 2 == Shr(y, 0) % 2;
      forall t | 0 <= t < n - 1 ensures Shr(x / 2, t) % 2 == Shr(y / 2, t) % 2 {
        ShrInner(x, t + 1);
        ShrInner(y, t + 1);
        assert Shr(x, t + 1) % 2 == Shr(y, t + 1) % 2;
      }
      NumberFromBits(x / 2, y / 2, n - 1);
    }
  }

  ghost predicate SameBits(x: nat, y: nat, n: nat) {
    forall t | 0 <= t < n :: Shr(x, t) % 2 == Shr(y, t) % 2
  }

  ghost predicate SameIndices(p: Params, m: Bytes, m': Bytes)
    requires |m| == |m'| == p.ForsMsgBytes()
  {
    forall i | 0 <= i <= p.trees :: ForsIndex(p, m, i) == ForsIndex(p, m', i)
  }

  lemma BitPlace(o: nat, a: nat, k: nat) returns (i: nat, t: nat)
    requires o < a * k
    ensures i < k && t < a && o == i * a + t
  {
    i, t := 0, o;
    while t >= a
      invariant o == i * a + t && i < k
    {
      i, t := i + 1, t - a;
      if i >= k { MulFacts(k - 1, i, a); }
    }
  }

  lemma SameBit(p: Params, m: Bytes, m': Bytes, o: nat)
    requires |m| == |m'| == p.ForsMsgBytes() && 8 * |m| == p.a * (p.trees + 1) && p.a > 0
    requires SameIndices(p, m, m') && o < 8 * |m|
    ensures BitAt(m, o) == BitAt(m', o)
  {
    hide BitAt, BitsFrom, ForsIndex, Params.ForsMsgBytes;
    var i, t := BitPlace(o, p.a, p.trees + 1);
    IndicesDetermineBits(p, m, m', i, t);
  }

  /** When the indices use every bit, as in the shipped profile, they determine the whole digest. */
  lemma IndicesDetermineDigest(p: Params, m: Bytes, m': Bytes)
    requires |m| == |m'| == p.ForsMsgBytes() && 8 * |m| == p.a * (p.trees + 1) && p.a > 0
    requires SameIndices(p, m, m')
    ensures m == m'
  {
    forall b | 0 <= b < |m| ensures m[b] == m'[b] {
      forall t | 0 <= t < 8 ensures Shr(m[b], t) % 2 == Shr(m'[b], t) % 2 { SameBit(p, m, m', 8 * b + t); }
      assert Pow2(8) == 256;
      NumberFromBits(m[b], m'[b], 8);
    }
  }

  /** `forsc_compressed_index`, `message_to_indices`: accumulate one index bit by bit. */
  method ReadIndex(m: Bytes, base: nat, len: nat) returns (idx: nat, offset: nat)
    requires base + len <= 8 * |m|
    ensures idx == BitsFrom(m, base, len) && offset == base + len
  {
    idx, offset := 0, base;
    var j := 0;
    while j < len
      invariant 0 <= j <= len && offset == base + j && idx == BitsFrom(m, base, j)
    {
      BitsSnoc(m, base, j);
      // Bit j of idx is clear, so xor-ing the new bit in is adding it.
      if Shr(m[offset / 8], offset % 8) % 2 == 1 {
        idx := idx + Pow2(j);
      }
      offset := offset + 1;
      j := j + 1;
    }
  }

  method CompressedIndex(p: Params, m: Bytes) returns (idx: nat)
    requires |m| == p.ForsMsgBytes()
    ensures idx == ForsIndex(p, m, p.trees)
  {
    MulFacts(p.trees, p.trees + 1, p.a);
    var offset;
    idx, offset := ReadIndex(m, p.trees * p.a, p.a);
  }

  method MessageToIndices(p: Params, m: Bytes) returns (indices: seq<nat>)
    requires |m| == p.ForsMsgBytes()
    ensures indices == ForsIndices(p, m)
  {
    indices := [];
    var i, offset := 0, 0;
    while i < p.trees
      invariant 0 <= i <= p.trees && |indices| == i && offset == i * p.a
      invariant forall j | 0 <= j < i :: indices[j] == ForsIndex(p, m, j)
    {
      MulFacts(i, p.trees + 1, p.a);
      var idx;
      idx, offset := ReadIndex(m, offset, p.a);
      indices := indices + [idx];
      i := i + 1;
    }
  }

  // ---------- reference signature ----------

  /** The block at which tree number `i`'s share of the signature starts. */
  function BlockOff(p: Params, i: nat): nat { i * (p.a + 1) }

  /** `idx_offset` of tree number `t`. */
  function LeafOff(p: Params, t: nat): nat { t * Pow2(p.a) }

  /** Leaf numbers: different trees of a key pair, and different leaves of a tree, have different ones. */
  lemma LeavesDistinct(p: Params, t: nat, idx: nat, t': nat, idx': nat)
    requires idx < Pow2(p.a) && idx' < Pow2(p.a)
    ensures idx + LeafOff(p, t) == idx' + LeafOff(p, t') <==> t == t' && idx == idx'
    ensures t < p.trees ==> idx + LeafOff(p, t) < p.trees * Pow2(p.a)
  {
    var k := Pow2(p.a);
    assert idx + LeafOff(p, t) == k * t + idx && idx' + LeafOff(p, t') == k * t' + idx';
    DivModUnique(k * t + idx, k, t, idx);
    DivModUnique(k * t' + idx', k, t', idx');
    if t < p.trees { MulFacts(t, p.trees, k); }
  }

  /** So have the nodes of different trees at every height. */
  lemma NodesDistinct(p: Params, h: nat, t: nat, i: nat, t': nat, i': nat)
    requires h <= p.a && i < Pow2(p.a - h) && i' < Pow2(p.a - h)
    ensures i + Shr(LeafOff(p, t), h) == i' + Shr(LeafOff(p, t'), h) <==> t == t' && i == i'
  {
    var k := Pow2(p.a - h);
    NodeNumber(p, h, t);
    NodeNumber(p, h, t');
    DivModUnique(k * t + i, k, t, i);
    DivModUnique(k * t' + i', k, t', i');
  }

  lemma NodeNumber(p: Params, h: nat, t: nat)
    requires h <= p.a
    ensures Shr(LeafOff(p, t), h) == Pow2(p.a - h) * t
  {
    ShrIsDiv(LeafOff(p, t), h);
    Pow2Add(p.a - h, h);
    var k, l := Pow2(p.a - h), Pow2(h);
    assert LeafOff(p, t) == t * (k * l) == l * (k * t) + 0;
    DivModUnique(LeafOff(p, t), l, k * t, 0);
  }

  lemma BlockOffZero(p: Params)
    ensures BlockOff(p, 0) == 0 <= BlockOff(p, p.trees)
  {
  }

  lemma BlockOffStep(p: Params, i: nat, n: nat)
    requires i < n
    ensures BlockOff(p, i + 1) == BlockOff(p, i) + p.a + 1 && BlockOff(p, i + 1) <= BlockOff(p, n)
  {
    MulFacts(i, n, p.a + 1);
  }

  /** FORS tree number `t` of key pair (`tree`, `kp`). */
  ghost function ForsTree(e: Engine, c: Ctx, tree: nat, kp: nat, t: nat): Tree {
    TreeOf(e, c, ForsGen(tree, kp), LeafOff(e.p, t))
  }

  ghost function ForsRoot(e: Engine, c: Ctx, tree: nat, kp: nat, t: nat): Bytes {
    Node(ForsTree(e, c, tree, kp, t), e.p.a, 0)
  }

  /** The secret value of the opened leaf and its authentication path. */
  ghost function TreeSig(e: Engine, c: Ctx, tree: nat, kp: nat, idx: nat, t: nat): (r: seq<Bytes>)
    ensures |r| == e.p.a + 1
  {
    [ForsSk(e, c, tree, kp, idx + LeafOff(e.p, t))] + AuthPath(ForsTree(e, c, tree, kp, t), idx, e.p.a)
  }

  /** The first `n` trees' share of the signature. */
  ghost function ForsSig(e: Engine, c: Ctx, tree: nat, kp: nat, indices: seq<nat>, n: nat): (r: seq<Bytes>)
    requires n <= |indices|
    ensures |r| == BlockOff(e.p, n)
  {
    if n == 0 then []
    else
      BlockOffStep(e.p, n - 1, n);
      ForsSig(e, c, tree, kp, indices, n - 1) + TreeSig(e, c, tree, kp, indices[n - 1], n - 1)
  }

  ghost function ForsRoots(e: Engine, c: Ctx, tree: nat, kp: nat): (r: seq<Bytes>)
    ensures |r| == e.p.trees
  {
    seq(e.p.trees, t requires t >= 0 => ForsRoot(e, c, tree, kp, t))
  }

  ghost function ForsPk(e: Engine, c: Ctx, tree: nat, kp: nat): Bytes {
    e.thash(c.pub, Pos(0, tree, FORSPK, kp), ForsRoots(e, c, tree, kp))
  }

  // ---------- reference verification ----------

  /** The root a verifier reaches from one tree's share of a signature. */
  ghost function RootFromSig(e: Engine, pub: Bytes, tree: nat, kp: nat, idx: nat, t: nat, piece: seq<Bytes>): Bytes
    requires |piece| == e.p.a + 1
  {
    var off := LeafOff(e.p, t);
    var leaf := e.thash(pub, Pos(0, tree, FORSTREE, kp).SetIndex(idx + off), [piece[0]]);
    Climb(Join(e, pub, Pos(0, tree, FORSTREE, kp)), off, idx, leaf, piece[1..], e.p.a)
  }

  ghost function RootsFromSig(e: Engine, pub: Bytes, tree: nat, kp: nat, indices: seq<nat>, sig: seq<Bytes>,
      n: nat): (r: seq<Bytes>)
    requires n <= |indices| && BlockOff(e.p, n) <= |sig|
    ensures |r| == n
  {
    if n == 0 then []
    else
      BlockOffStep(e.p, n - 1, n);
      RootsFromSig(e, pub, tree, kp, indices, sig, n - 1)
      + [RootFromSig(e, pub, tree, kp, indices[n - 1], n - 1, sig[BlockOff(e.p, n - 1)..BlockOff(e.p, n)])]
  }

  lemma RootsStep(e: Engine, pub: Bytes, tree: nat, kp: nat, indices: seq<nat>, sig: seq<Bytes>, i: nat)
    requires i < |indices| && BlockOff(e.p, i + 1) == BlockOff(e.p, i) + e.p.a + 1 <= |sig|
    ensures RootsFromSig(e, pub, tree, kp, indices, sig, i + 1) == RootsFromSig(e, pub, tree, kp, indices, sig, i)
              + [RootFromSig(e, pub, tree, kp, indices[i], i, sig[BlockOff(e.p, i)..BlockOff(e.p, i) + e.p.a + 1])]
  {
    hide RootFromSig, BlockOff;
  }

  ghost function PkFromSig(e: Engine, pub: Bytes, tree: nat, kp: nat, indices: seq<nat>, sig: seq<Bytes>): Bytes
    requires |indices| == e.p.trees && |sig| == BlockOff(e.p, e.p.trees)
  {
    e.thash(pub, Pos(0, tree, FORSPK, kp), RootsFromSig(e, pub, tree, kp, indices, sig, e.p.trees))
  }

  /** One tree: the verifier reaches the root the signer computed. */
  lemma TreeRoundTrip(e: Engine, c: Ctx, tree: nat, kp: nat, idx: nat, t: nat)
    requires idx < Pow2(e.p.a)
    ensures RootFromSig(e, c.pub, tree, kp, idx, t, TreeSig(e, c, tree, kp, idx, t)) == ForsRoot(e, c, tree, kp, t)
  {
    hide Pos, Node, Climb, AuthPath, Pow2, ForsSk, Join;
    var ft, off := ForsTree(e, c, tree, kp, t), LeafOff(e.p, t);
    var piece := TreeSig(e, c, tree, kp, idx, t);
    assert piece[1..] == AuthPath(ft, idx, e.p.a);
    assert ft.leaf(idx + off) == ForsLeaf(e, c, tree, kp, idx + off);
    AuthPathReachesRoot(ft, idx, e.p.a);
  }

  lemma {:induction false} PieceOfSig(e: Engine, c: Ctx, tree: nat, kp: nat, indices: seq<nat>, n: nat, t: nat)
    requires t < n <= |indices|
    ensures BlockOff(e.p, t) <= BlockOff(e.p, t + 1) <= BlockOff(e.p, n)
    ensures ForsSig(e, c, tree, kp, indices, n)[BlockOff(e.p, t)..BlockOff(e.p, t + 1)]
        == TreeSig(e, c, tree, kp, indices[t], t)
  {
    hide TreeSig, BlockOff;
    BlockOffStep(e.p, t, n);
    BlockOffStep(e.p, n - 1, n);
    var front, last := ForsSig(e, c, tree, kp, indices, n - 1), TreeSig(e, c, tree, kp, indices[n - 1], n - 1);
    assert ForsSig(e, c, tree, kp, indices, n) == front + last;
    if t < n - 1 {
      PieceOfSig(e, c, tree, kp, indices, n - 1, t);
      assert (front + last)[BlockOff(e.p, t)..BlockOff(e.p, t + 1)] == front[BlockOff(e.p, t)..BlockOff(e.p, t + 1)];
    } else {
      assert (front + last)[|front|..] == last;
    }
  }

  lemma {:induction false} RootsRoundTrip(e: Engine, c: Ctx, tree: nat, kp: nat, indices: seq<nat>, sig: seq<Bytes>,
      n: nat)
    requires |indices| == e.p.trees && n <= e.p.trees && (forall i | 0 <= i < e.p.trees :: indices[i] < Pow2(e.p.a))
    requires sig == ForsSig(e, c, tree, kp, indices, e.p.trees) && BlockOff(e.p, n) <= |sig|
    ensures RootsFromSig(e, c.pub, tree, kp, indices, sig, n) == ForsRoots(e, c, tree, kp)[..n]
  {
    hide TreeSig, RootFromSig, ForsRoot, Pow2, ForsSig, BlockOff;
    if n > 0 {
      BlockOffStep(e.p, n - 1, n);
      RootsRoundTrip(e, c, tree, kp, indices, sig, n - 1);
      PieceOfSig(e, c, tree, kp, indices, e.p.trees, n - 1);
      TreeRoundTrip(e, c, tree, kp, indices[n - 1], n - 1);
    }
  }

  /** FORS round trip: the key derived from an honest signature is the signer's key. */
  lemma ForsRoundTrip(e: Engine, c: Ctx, tree: nat, kp: nat, indices: seq<nat>)
    requires |indices| == e.p.trees && forall i | 0 <= i < e.p.trees :: indices[i] < Pow2(e.p.a)
    ensures PkFromSig(e, c.pub, tree, kp, indices, ForsSig(e, c, tree, kp, indices, e.p.trees))
        == ForsPk(e, c, tree, kp)
  {
    hide TreeSig, RootFromSig, ForsRoot, Pow2, ForsSig, RootsFromSig;
    RootsRoundTrip(e, c, tree, kp, indices, ForsSig(e, c, tree, kp, indices, e.p.trees), e.p.trees);
    assert ForsRoots(e, c, tree, kp)[..e.p.trees] == ForsRoots(e, c, tree, kp);
  }

  // ---------- the methods ----------

  /** The key pair fields of the address the caller passes in; the layer is still 0. */
  predicate NamesKey(f: Adrs, tree: nat, kp: nat) {
    f.layer == 0 && f.tree == tree % 0x1_0000_0000_0000_0000 && f.kp == kp % 0x1_0000_0000
  }

  lemma KeyAddresses(f: Adrs, tree: nat, kp: nat, idx: nat)
    requires NamesKey(f, tree, kp)
    ensures ZERO.CopyKeypair(f).SetType(FORSPK) == Pos(0, tree, FORSPK, kp)
    ensures ZERO.CopyKeypair(f).SetType(FORSTREE) == Pos(0, tree, FORSTREE, kp)
    ensures ZERO.CopyKeypair(f).(kind := 0, w := 0) == Pos(0, tree, 0, kp)
    ensures ZERO.CopyKeypair(f).SetHeight(0).SetIndex(idx).SetType(FORSPRF) == Pos(0, tree, FORSPRF, kp).SetIndex(idx)
    ensures T1.SameTree(ZERO.CopyKeypair(f).SetHeight(0).SetIndex(idx).SetType(FORSPRF).SetType(FORSTREE),
        Base(ForsGen(tree, kp)))
    ensures T1.SameTree(ZERO.CopyKeypair(f).SetType(FORSTREE), Base(ForsGen(tree, kp)))
  {
  }

  /** A secret value written in front of the path TreeHash writes makes one tree's share. */
  lemma TreeHashOpensTree(e: Engine, c: Ctx, tree: nat, kp: nat, idx: nat, t: nat, at: nat, was: seq<Bytes>)
    requires idx < Pow2(e.p.a) && at + 1 + e.p.a <= |was|
    ensures TreeHashOut(e, c, ForsGen(tree, kp), NoJob, LeafOff(e.p, t), idx, e.p.a, at + 1,
        was[at := ForsSk(e, c, tree, kp, idx + LeafOff(e.p, t))])
         == Patch(was, at, TreeSig(e, c, tree, kp, idx, t))
  {
    hide AuthPath, ForsSk, LeafOff, Pow2, TreeOf;
    var sk := ForsSk(e, c, tree, kp, idx + LeafOff(e.p, t));
    assert was[at := sk] == Patch(was, at, [sk]);
    PatchSeq(was, at, [sk], AuthPath(ForsTree(e, c, tree, kp, t), idx, e.p.a));
  }

  /** The opening of `fors_sign_tree`: fresh addresses, and the secret value of the opened leaf. */
  method OpenScalar(e: Engine, c: Ctx, forsAddr: Addr, idx: nat, tree: nat, kp: nat)
      returns (sk: Bytes, info: LeafInfo, treeAddr: Addr)
    requires NamesKey(forsAddr.f, tree, kp)
    ensures fresh(info) && fresh(info.leafAddr) && fresh(info.pkAddr) && fresh(treeAddr)
    ensures treeAddr != info.leafAddr && treeAddr != info.pkAddr
    ensures info.Valid() && info.gen == ForsGen(tree, kp) && info.job == NoJob
    ensures T1.SameTree(treeAddr.f, Base(info.gen))
    ensures sk == ForsSk(e, c, tree, kp, idx)
  {
    KeyAddresses(forsAddr.f, tree, kp, idx);
    var leafAddr := new Addr();
    var pkAddr := new Addr();
    treeAddr := new Addr();
    treeAddr.f := treeAddr.f.CopyKeypair(forsAddr.f);
    leafAddr.f := leafAddr.f.CopyKeypair(forsAddr.f);
    treeAddr.f := treeAddr.f.SetHeight(0);
    treeAddr.f := treeAddr.f.SetIndex(idx);
    treeAddr.f := treeAddr.f.SetType(FORSPRF);
    sk := e.prf(c.pub, c.sk, treeAddr.f);
    treeAddr.f := treeAddr.f.SetType(FORSTREE);
    info := new LeafInfo(ForsGen(tree, kp), leafAddr, pkAddr, NoJob);
  }

  /** The opening of `fors_sign_tree_avx2`: the same, in eight lanes, the secret value coming from lane 0. */
  method OpenVector(e: Engine, c: Ctx, forsAddr: Addr, idx: nat, tree: nat, kp: nat)
      returns (sk: Bytes, info: LeafInfoX8, treeAddr: array<Adrs>)
    requires NamesKey(forsAddr.f, tree, kp)
    ensures fresh(info) && fresh(info.leafAddr) && fresh(info.pkAddr) && fresh(treeAddr)
    ensures treeAddr != info.leafAddr && treeAddr != info.pkAddr
    ensures info.Valid() && info.gen == ForsGen(tree, kp) && info.job == NoJob
    ensures T8.SameTrees(treeAddr[..], Base(info.gen))
    ensures sk == ForsSk(e, c, tree, kp, idx)
  {
    hide Pos, Base, NamesKey, T1.SameTree;
    KeyAddresses(forsAddr.f, tree, kp, idx);
    treeAddr := new Adrs[8](_ => ZERO);
    var leafAddr := new Adrs[8](_ => ZERO);
    var pkAddr := new Adrs[8](_ => ZERO);
    forall j | 0 <= j < 8 { treeAddr[j] := treeAddr[j].CopyKeypair(forsAddr.f).SetType(FORSTREE); }
    forall j | 0 <= j < 8 { leafAddr[j] := leafAddr[j].CopyKeypair(forsAddr.f); }
    treeAddr[0] := treeAddr[0].SetHeight(0).SetIndex(idx).SetType(FORSPRF);
    assert treeAddr[0] == ZERO.CopyKeypair(forsAddr.f).SetHeight(0).SetIndex(idx).SetType(FORSPRF);
    sk := e.prf(c.pub, c.sk, treeAddr[0]);
    treeAddr[0] := treeAddr[0].SetType(FORSTREE);
    info := new LeafInfoX8(ForsGen(tree, kp), leafAddr, pkAddr, NoJob);
  }

  /** `fors_sign_tree` and, with `avx2`, `fors_sign_tree_avx2`: the same bytes either way. */
  method ForsSignTree(e: Engine, c: Ctx, avx2: bool, sig: array<Bytes>, at: nat, forsAddr: Addr, idx: nat, t: nat,
      tree: nat, kp: nat)
    returns (root: Bytes)
    requires at + e.p.a + 1 <= sig.Length && idx < Pow2(e.p.a) && NamesKey(forsAddr.f, tree, kp)
    modifies sig
    ensures root == ForsRoot(e, c, tree, kp, t)
    ensures sig[..] == Patch(old(sig[..]), at, TreeSig(e, c, tree, kp, idx, t))
  {
    hide Pow2, TreeHashOut, Node, Base, T1.SameTree, T8.SameTrees, NamesKey, TreeOf, Patch, LeafOff, ForsSk,
      LeafInfo.Valid, LeafInfoX8.Valid, TreeSig;
    var off := LeafOff(e.p, t);
    TreeHashOpensTree(e, c, tree, kp, idx, t, at, sig[..]);
    if avx2 {
      var sk, info, treeAddr := OpenVector(e, c, forsAddr, idx + off, tree, kp);
      sig[at] := sk;
      root := T8.TreeHashX8(e, c, sig, at + 1, idx, off, e.p.a, info, treeAddr);
    } else {
      var sk, info, treeAddr := OpenScalar(e, c, forsAddr, idx + off, tree, kp);
      sig[at] := sk;
      root := T1.TreeHashX1(e, c, sig, at + 1, idx, off, e.p.a, info, treeAddr);
    }
  }

  /** `fors_sign`, one tree after the other. */
  method ForsSign(e: Engine, c: Ctx, avx2: bool, sig: array<Bytes>, at: nat, m: Bytes, forsAddr: Addr, tree: nat,
      kp: nat) returns (pk: Bytes)
    requires at + BlockOff(e.p, e.p.trees) <= sig.Length && |m| == e.p.ForsMsgBytes() && NamesKey(forsAddr.f, tree, kp)
    modifies sig
    ensures pk == ForsPk(e, c, tree, kp)
    ensures sig[..] == Patch(old(sig[..]), at, ForsSig(e, c, tree, kp, ForsIndices(e.p, m), e.p.trees))
  {
    hide Pow2, Pos, NamesKey, Patch, TreeSig, ForsRoot, ForsIndex, BlockOff, Params.ForsMsgBytes;
    KeyAddresses(forsAddr.f, tree, kp, 0);
    var pkAddr := new Addr();
    pkAddr.f := pkAddr.f.CopyKeypair(forsAddr.f);
    pkAddr.f := pkAddr.f.SetType(FORSPK);
    var indices := MessageToIndices(e.p, m);
    var roots: seq<Bytes> := [];
    var i := 0;
    PatchNone(sig[..], at);
    BlockOffZero(e.p);
    while i < e.p.trees
      invariant 0 <= i <= e.p.trees && |roots| == i && BlockOff(e.p, i) <= BlockOff(e.p, e.p.trees)
      invariant pkAddr.f == Pos(0, tree, FORSPK, kp)
      invariant roots == ForsRoots(e, c, tree, kp)[..i]
      invariant sig[..] == Patch(old(sig[..]), at, ForsSig(e, c, tree, kp, indices, i))
    {
      BlockOffStep(e.p, i, e.p.trees);
      var root := ForsSignTree(e, c, avx2, sig, at + BlockOff(e.p, i), forsAddr, indices[i], i, tree, kp);
      PatchSeq(old(sig[..]), at, ForsSig(e, c, tree, kp, indices, i), TreeSig(e, c, tree, kp, indices[i], i));
      roots := roots + [root];
      i := i + 1;
    }
    assert roots == ForsRoots(e, c, tree, kp);
    pk := e.thash(c.pub, pkAddr.f, roots);
  }

  /** `fors_pk_from_sig`. */
  method ForsPkFromSig(e: Engine, pub: Bytes, sig: seq<Bytes>, m: Bytes, forsAddr: Addr, ghost tree: nat,
      ghost kp: nat) returns (pk: Bytes)
    requires |sig| == BlockOff(e.p, e.p.trees) && |m| == e.p.ForsMsgBytes() && NamesKey(forsAddr.f, tree, kp)
    ensures pk == PkFromSig(e, pub, tree, kp, ForsIndices(e.p, m), sig)
  {
    hide Pow2, Pos, NamesKey, RootsFromSig, RootFromSig, ForsIndex, T1.SameTree, Base, BlockOff, Params.ForsMsgBytes;
    KeyAddresses(forsAddr.f, tree, kp, 0);
    ghost var base := Pos(0, tree, FORSTREE, kp);
    BaseIs(tree, kp);
    var treeAddr := new Addr();
    var pkAddr := new Addr();
    treeAddr.f := treeAddr.f.CopyKeypair(forsAddr.f);
    pkAddr.f := pkAddr.f.CopyKeypair(forsAddr.f);
    treeAddr.f := treeAddr.f.SetType(FORSTREE);
    pkAddr.f := pkAddr.f.SetType(FORSPK);
    var indices := MessageToIndices(e.p, m);
    var roots: seq<Bytes> := [];
    var i, at := 0, 0;
    BlockOffZero(e.p);
    while i < e.p.trees
      invariant 0 <= i <= e.p.trees && |roots| == i && at == BlockOff(e.p, i) <= BlockOff(e.p, e.p.trees)
      invariant T1.SameTree(treeAddr.f, base) && pkAddr.f == Pos(0, tree, FORSPK, kp)
      invariant roots == RootsFromSig(e, pub, tree, kp, indices, sig, i)
    {
      BlockOffStep(e.p, i, e.p.trees);
      RootsStep(e, pub, tree, kp, indices, sig, i);
      var root := ForsRootFromSig(e, pub, sig[at..at + e.p.a + 1], indices[i], i, treeAddr, tree, kp);
      roots := roots + [root];
      at := at + 1 + e.p.a;
      i := i + 1;
    }
    pk := e.thash(pub, pkAddr.f, roots);
  }

  lemma BaseIs(tree: nat, kp: nat)
    ensures Base(ForsGen(tree, kp)) == Pos(0, tree, FORSTREE, kp)
  {
  }

  lemma LeafAddress(f: Adrs, tree: nat, kp: nat, idx: nat)
    requires T1.SameTree(f, Pos(0, tree, FORSTREE, kp))
    ensures f.SetHeight(0).SetIndex(idx) == Pos(0, tree, FORSTREE, kp).SetIndex(idx)
    ensures T1.SameTree(f.SetHeight(0).SetIndex(idx), Pos(0, tree, FORSTREE, kp))
  {
  }

  /** The body of the loop of `fors_pk_from_sig`: leaf from the secret value, then `compute_root`. */
  method ForsRootFromSig(e: Engine, pub: Bytes, piece: seq<Bytes>, idx: nat, t: nat, treeAddr: Addr, ghost tree: nat,
      ghost kp: nat) returns (root: Bytes)
    requires |piece| == e.p.a + 1 && T1.SameTree(treeAddr.f, Pos(0, tree, FORSTREE, kp))
    modifies treeAddr
    ensures T1.SameTree(treeAddr.f, Pos(0, tree, FORSTREE, kp))
    ensures root == RootFromSig(e, pub, tree, kp, idx, t, piece)
  {
    hide Pow2, Pos, T1.SameTree, Climb, Join;
    var idxOffset := LeafOff(e.p, t);
    LeafAddress(treeAddr.f, tree, kp, idx + idxOffset);
    treeAddr.f := treeAddr.f.SetHeight(0);
    treeAddr.f := treeAddr.f.SetIndex(idx + idxOffset);
    var leaf := e.thash(pub, treeAddr.f, [piece[0]]);
    root := T1.ComputeRoot(e, pub, leaf, idx, idxOffset, piece[1..], e.p.a, treeAddr, Pos(0, tree, FORSTREE, kp));
  }
}
