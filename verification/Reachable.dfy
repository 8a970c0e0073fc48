/**
 The success paths exist: an engine of the shipped parameters and keys under which every message
 is signed, so that the theorems about successful signing speak of something. And one input for
 which an open stats session changes the answer of verification.
 */
module Reachable {
  import opened Bits
  import opened Engine
  import opened MerkleSign
  import opened Hypertree
  import opened Sign
  import opened Session
  import F = Fors
  import G = Grind
  import W = Wots

  /** A hash value whose digits are at half height in sum: the first counter tried always hits the target. */
  function HalfUp(): (r: Bytes)
    ensures |r| == 32
  {
    seq(32, i => if i < 8 then 255 else 0)
  }

  ghost function ConstantEngine(): (e: Engine)
    ensures e.p == BOUNDED30
  {
    Bounded30Sizes();
    RawEngine(BOUNDED30, (s, a, b) => Zeros(16), (s, t, a) => Zeros(16), m => HalfUp(), m => Zeros(64),
              (s, o, m) => Zeros(16), (r, pk, m) => Zeros(20))
  }

  lemma {:induction false} SumOfHalf(s: seq<nat>, k: nat)
    requires k <= |s| == 16 && forall i | 0 <= i < 16 :: s[i] == if i < 8 then 255 else 0
    ensures W.Sum(s[..k]) == if k < 8 then 255 * k else 2040
  {
    if k > 0 {
      SumOfHalf(s, k - 1);
      assert s[..k][..k - 1] == s[..k - 1];
    }
  }

  lemma AlwaysHits(msg: Bytes)
    ensures W.Hit(ConstantEngine(), msg, 0)
  {
    hide W.Checksum;
    var e := ConstantEngine();
    var lens := W.Digits(e.p, W.Compress(e, msg, 0));
    assert forall i | 0 <= i < 16 :: lens[i] == W.Digit(e.p, W.Compress(e, msg, 0), i);
    SumOfHalf(lens, 16);
    assert lens[..16] == lens;
    W.ChecksumIsSum(e.p, lens);
  }

  lemma {:induction false} EveryLayerSigns(c: Ctx, cap: nat, i: nat, msg: Bytes, tree: nat)
    requires i <= 5
    ensures CanSign(ConstantEngine(), c, cap, i, msg, tree)
    decreases 5 - i
  {
    hide SubtreeRoot, Above, W.Hit;
    var e := ConstantEngine();
    AlwaysHits(msg);
    if i < 5 { EveryLayerSigns(c, cap, i + 1, SubtreeRoot(e, c, i, tree), Above(e.p, tree)); }
  }

  lemma {:induction false} ZeroBits(base: nat, len: nat)
    requires base + len <= 128
    ensures F.BitsFrom(Zeros(16), base, len) == 0
    decreases len
  {
    if len > 0 {
      ZeroBits(base + 1, len - 1);
      ZeroBit(base);
    }
  }

  lemma ZeroBit(o: nat)
    requires o < 128
    ensures F.BitAt(Zeros(16), o) == 0
  {
    ShrZero(o % 8);
  }

  lemma FirstSaltIsGood(r: Bytes, pk: Bytes, m: Bytes)
    requires |r| == 16
    ensures G.FirstGood(ConstantEngine(), r, pk, m, 0, BOUNDED30.forscCap) == 0
  {
    hide G.Salt;
    ZeroBits(7 * 16, 16);
    var e := ConstantEngine();
    var d := e.hashMsg(G.Salt(r, 0), pk, m);
    assert G.MHash(e.p, d) == Zeros(16);
  }

  lemma SaltFound(sk: Bytes, o: Bytes, m: Bytes)
    requires |sk| == 64
    ensures SaltNo(ConstantEngine(), sk, o, m) == 0
  {
    hide ConstantEngine, G.FirstGood;
    FirstSaltIsGood(BaseR(ConstantEngine(), sk, o, m), sk[32..], m);
  }

  lemma LayersFound(c: Ctx, d: Bytes)
    requires |d| == BOUNDED30.DigestBytes()
    ensures Signable(ConstantEngine(), c, BOUNDED30.wotscCap, d)
  {
    hide ConstantEngine, CanSign, F.ForsPk, G.TreeIndex, G.LeafIndex, Params.DigestBytes;
    var e := ConstantEngine();
    EveryLayerSigns(c, e.p.wotscCap, 0, F.ForsPk(e, c, G.TreeIndex(e.p, d), G.LeafIndex(e.p, d)), G.TreeIndex(e.p, d));
  }

  lemma EveryKeySigns(sk: Bytes, m: Bytes)
    requires |sk| == 64
    ensures Signs(ConstantEngine(), sk, m)
  {
    hide ConstantEngine, SaltNo, Signable, OptRand, SaltedDigest, Params.DigestBytes, CtxOf;
    var e := ConstantEngine();
    SaltFound(sk, OptRand(e, sk, m), m);
    LayersFound(CtxOf(e.p, sk), SaltedDigest(e, sk, OptRand(e, sk, m), m));
  }

  /** Under this engine any three seeds extend to a good key, and every message is signed with it. */
  lemma EveryMessageSigns(seeds: Bytes, m: Bytes)
    requires |seeds| == 48
    ensures var e := ConstantEngine();
            var sk := seeds + SubtreeRoot(e, Ctx(seeds[32..], seeds[..16]), 4, 0);
            GoodKey(e, sk) && Signs(e, sk, m)
  {
    hide ConstantEngine, SubtreeRoot, Signs;
    var e := ConstantEngine();
    var c := Ctx(seeds[32..], seeds[..16]);
    RootLength(e, c, 4, 0);
    var sk := seeds + SubtreeRoot(e, c, 4, 0);
    assert CtxOf(e.p, sk) == c && sk[48..] == SubtreeRoot(e, c, 4, 0);
    EveryKeySigns(sk, m);
  }

  // ---------- a signature that needs a second counter ----------

  /** Odd counters hit the target and even ones do not; the signing cap allows the first counter only. */
  ghost function LateEngine(): (e: Engine)
    ensures e.p == BOUNDED30.(wotscCap := 0)
  {
    Bounded30Sizes();
    RawEngine(BOUNDED30.(wotscCap := 0), (s, a, b) => Zeros(16), (s, t, a) => Zeros(16),
              m => if m != [] && m[|m| - 1] == 1 then HalfUp() else Zeros(32), m => Zeros(64),
              (s, o, m) => Zeros(16), (r, pk, m) => Zeros(20))
  }

  lemma {:induction false} SumOfZeros(s: seq<nat>)
    requires forall i | 0 <= i < |s| :: s[i] == 0
    ensures W.Sum(s) == 0
  {
    if s != [] { SumOfZeros(s[..|s| - 1]); }
  }

  lemma SecondHits(msg: Bytes)
    ensures !W.Hit(LateEngine(), msg, 0) && W.Hit(LateEngine(), msg, 1)
  {
    hide W.Checksum;
    var e := LateEngine();
    assert W.Compress(e, msg, 0) == Zeros(32)[..16] && W.Compress(e, msg, 1) == HalfUp()[..16];
    var none, half := W.Digits(e.p, W.Compress(e, msg, 0)), W.Digits(e.p, W.Compress(e, msg, 1));
    assert forall i | 0 <= i < 16 :: none[i] == W.Digit(e.p, W.Compress(e, msg, 0), i);
    assert forall i | 0 <= i < 16 :: half[i] == W.Digit(e.p, W.Compress(e, msg, 1), i);
    SumOfZeros(none);
    SumOfHalf(half, 16);
    assert half[..16] == half;
    W.ChecksumIsSum(e.p, none);
    W.ChecksumIsSum(e.p, half);
  }

  lemma SecondFound(msg: Bytes)
    ensures !W.Found(LateEngine(), msg, 0) && W.Found(LateEngine(), msg, 1)
  {
    hide LateEngine, W.Hit;
    SecondHits(msg);
  }

  lemma {:induction false} LateLayersSign(c: Ctx, i: nat, msg: Bytes, tree: nat)
    requires i <= 5
    ensures CanSign(LateEngine(), c, 1, i, msg, tree)
    decreases 5 - i
  {
    hide LateEngine, SubtreeRoot, Above, W.Found;
    var e := LateEngine();
    SecondFound(msg);
    if i < 5 { LateLayersSign(c, i + 1, SubtreeRoot(e, c, i, tree), Above(e.p, tree)); }
  }

  /** Nothing at all is accepted under a cap that no search meets. */
  lemma CappedRejectsAll(sig: seq<Bytes>, m: Bytes, pk: Bytes)
    requires |pk| == 32
    ensures !Verifies(LateEngine(), 0, sig, m, pk)
  {
    hide LateEngine, G.MHash, G.TreeIndex, G.LeafIndex, F.ForsIndex, F.ForsIndices, F.PkFromSig, ForsBlocks, HtLen,
      W.Found, HtRoot, Params.DigestBytes;
    var e := LateEngine();
    if Verifies(e, 0, sig, m, pk) {
      var d, pub, f := e.hashMsg(sig[0], pk, m), pk[..16], 1 + ForsBlocks(e.p);
      ForsBlocksIs(e.p);
      var tree, leaf := G.TreeIndex(e.p, d), G.LeafIndex(e.p, d);
      var root := F.PkFromSig(e, pub, tree, leaf, F.ForsIndices(e.p, G.MHash(e.p, d)), sig[1..f]);
      FirstLayerRejects(pub, root, tree, leaf, sig[f..]);
    }
  }

  lemma FirstLayerRejects(pub: Bytes, msg: Bytes, tree: nat, leaf: nat, sig: seq<Bytes>)
    requires |sig| == HtLen(LateEngine().p, 5)
    ensures HtRoot(LateEngine(), pub, 0, 0, msg, tree, leaf, sig) == Reject
  {
    hide LateEngine, W.Found;
    SecondFound(msg);
  }

  lemma LateIndexIsZero(r: Bytes, pk: Bytes, m: Bytes)
    ensures F.ForsIndex(LateEngine().p, G.MHash(LateEngine().p, LateEngine().hashMsg(r, pk, m)), 7) == 0
  {
    ZeroBits(7 * 16, 16);
    var e := LateEngine();
    assert G.MHash(e.p, e.hashMsg(r, pk, m)) == Zeros(16);
  }

  /** The root that key generation computes. */
  ghost function PublicRoot(e: Engine, c: Ctx): (r: Bytes)
    ensures |r| == e.p.n
  {
    RootLength(e, c, e.p.d - 1, 0);
    SubtreeRoot(e, c, e.p.d - 1, 0)
  }

  /** The public key of two seeds. */
  ghost function LatePk(pub: Bytes, skSeed: Bytes): (pk: Bytes)
    requires |pub| == 16
    ensures |pk| == 32
  {
    pub + PublicRoot(LateEngine(), Ctx(pub, skSeed))
  }

  /** A signature with the second counter in every layer. */
  ghost function LateSig(pub: Bytes, skSeed: Bytes, m: Bytes): seq<Bytes>
    requires |pub| == 16
  {
    var e := LateEngine();
    SigOf(e, Ctx(pub, skSeed), 1, Zeros(16), e.hashMsg(Zeros(16), LatePk(pub, skSeed), m))
  }

  /**
   One input: a signature, under the key of any two seeds and on any message, that verifies
   outside a stats session and is rejected inside one whose cap is the first counter.
   */
  lemma SessionRejects(pub: Bytes, skSeed: Bytes, m: Bytes)
    requires |pub| == 16
    ensures Verifies(LateEngine(), 0xFFFF, LateSig(pub, skSeed, m), m, LatePk(pub, skSeed))
    ensures !Verifies(LateEngine(), LateEngine().p.wotscCap, LateSig(pub, skSeed, m), m, LatePk(pub, skSeed))
  {
    hide LateEngine, SubtreeRoot, Verifies, SigOf, CanSign, F.ForsPk, F.ForsIndex, G.MHash, G.TreeIndex, G.LeafIndex,
      Params.DigestBytes;
    var e, c, pk := LateEngine(), Ctx(pub, skSeed), LatePk(pub, skSeed);
    assert pk[..16] == pub && pk[16..] == SubtreeRoot(e, c, 4, 0);
    var d := e.hashMsg(Zeros(16), pk, m);
    LateIndexIsZero(Zeros(16), pk, m);
    LateLayersSign(c, 0, F.ForsPk(e, c, G.TreeIndex(e.p, d), G.LeafIndex(e.p, d)), G.TreeIndex(e.p, d));
    Completeness(e, c, 1, 0xFFFF, Zeros(16), m, pk);
    CappedRejectsAll(LateSig(pub, skSeed, m), m, pk);
  }
}
