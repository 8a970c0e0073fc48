/**
 FORS+C (sign.c): the randomizer is salted with a counter until the index of the compressed
 FORS tree is zero, so that tree need not be signed.
 */
module Grind {
  import opened Bits
  import opened Engine
  import opened Address
  import opened Fors
  import opened Stats
  import W = Wots

  // ---------- exclusive or of bytes ----------

  /** Bitwise exclusive or of the `n` low bits. */
  function XorBits(a: nat, b: nat, n: nat): (r: nat)
    ensures r < Pow2(n)
  {
    if n == 0 then 0 else (a % 2 + b % 2) % 2 + 2 * XorBits(a / 2, b / 2, n - 1)
  }

  lemma XorStep(a: nat, b: nat, n: nat, rest: nat)
    requires n > 0 && XorBits(a / 2, b / 2, n - 1) == rest
    ensures XorBits(a, b, n) / 2 == rest && XorBits(a, b, n) % 2 == (a % 2 + b % 2) % 2
  {
  }

  lemma {:induction false} XorCancels(a: nat, b: nat, n: nat)
    requires b < Pow2(n)
    ensures XorBits(a, XorBits(a, b, n), n) == b
    decreases n
  {
    if n > 0 {
      XorCancels(a / 2, b / 2, n - 1);
      var y := XorBits(a / 2, b / 2, n - 1);
      XorStep(a, b, n, y);
      XorStep(a, XorBits(a, b, n), n, b / 2);
    }
  }

  lemma {:induction false} XorZero(a: nat, n: nat)
    requires a < Pow2(n)
    ensures XorBits(a, 0, n) == a
    decreases n
  {
    if n > 0 { XorZero(a / 2, n - 1); }
  }

  function Xor(a: byte, b: byte): byte {
    SmallPowers();
    XorBits(a, b, 8)
  }

  lemma XorInjective(a: byte, b: byte, b': byte)
    requires Xor(a, b) == Xor(a, b')
    ensures b == b'
  {
    SmallPowers();
    XorCancels(a, b, 8);
    XorCancels(a, b', 8);
  }

  // ---------- salts ----------

  /** The randomizer tried for counter `ctr`: its first four bytes are xored with the counter. */
  function Salt(r: Bytes, ctr: nat): (s: Bytes)
    requires |r| >= 4
    ensures |s| == |r|
  {
    [Xor(r[0], ctr % 256), Xor(r[1], ctr / 0x100 % 256), Xor(r[2], ctr / 0x1_0000 % 256),
      Xor(r[3], ctr / 0x100_0000 % 256)] + r[4..]
  }

  lemma SaltZero(r: Bytes)
    requires |r| >= 4
    ensures Salt(r, 0) == r
  {
    SmallPowers();
    XorZero(r[0], 8);
    XorZero(r[1], 8);
    XorZero(r[2], 8);
    XorZero(r[3], 8);
  }

  /** The grind never tries the same salt twice. */
  lemma SaltInjective(r: Bytes, i: nat, j: nat)
    requires |r| >= 4 && i < 0x1_0000_0000 && j < 0x1_0000_0000
    ensures Salt(r, i) == Salt(r, j) <==> i == j
  {
    hide Xor;
    if Salt(r, i) == Salt(r, j) {
      assert Salt(r, i)[0] == Salt(r, j)[0] && Salt(r, i)[1] == Salt(r, j)[1] && Salt(r, i)[2] == Salt(r, j)[2]
        && Salt(r, i)[3] == Salt(r, j)[3];
      XorInjective(r[0], i % 256, j % 256);
      XorInjective(r[1], i / 0x100 % 256, j / 0x100 % 256);
      XorInjective(r[2], i / 0x1_0000 % 256, j / 0x1_0000 % 256);
      XorInjective(r[3], i / 0x100_0000 % 256, j / 0x100_0000 % 256);
      BytesOfCounter(i);
      BytesOfCounter(j);
    }
  }

  /** What is xored into the randomizer is the counter, least significant byte first; the rest of it stays. */
  lemma SaltReadsBack(r: Bytes, ctr: nat)
    requires |r| >= 4 && ctr < 0x1_0000_0000
    ensures var s := Salt(r, ctr);
            FromLE([Xor(r[0], s[0]), Xor(r[1], s[1]), Xor(r[2], s[2]), Xor(r[3], s[3])]) == ctr && s[4..] == r[4..]
  {
    hide FromLE;
    SmallPowers();
    XorCancels(r[0], ctr % 256, 8);
    XorCancels(r[1], ctr / 0x100 % 256, 8);
    XorCancels(r[2], ctr / 0x1_0000 % 256, 8);
    XorCancels(r[3], ctr / 0x100_0000 % 256, 8);
    BytesOfCounter(ctr);
    FourBytes(ctr % 256, ctr / 0x100 % 256, ctr / 0x1_0000 % 256, ctr / 0x100_0000 % 256);
  }

  lemma FourBytes(a: byte, b: byte, c: byte, d: byte)
    ensures FromLE([a, b, c, d]) == a as int + 0x100 * b as int + 0x1_0000 * c as int + 0x100_0000 * d as int
  {
    assert [a, b, c, d][1..] == [b, c, d] && [b, c, d][1..] == [c, d] && [c, d][1..] == [d] && [d][1..] == [];
    assert FromLE([d]) == d as int;
    assert FromLE([c, d]) == c as int + 256 * d as int;
    assert FromLE([b, c, d]) == b as int + 256 * FromLE([c, d]);
  }

  lemma BytesOfCounter(i: nat)
    requires i < 0x1_0000_0000
    ensures i == i % 256 + 0x100 * (i / 0x100 % 256) + 0x1_0000 * (i / 0x1_0000 % 256)
        + 0x100_0000 * (i / 0x100_0000 % 256)
  {
    DivNext(i, 0x100);
    DivNext(i, 0x1_0000);
    var q := i / 0x100_0000;
    assert i / 0x1_0000 == 256 * q + i / 0x1_0000 % 256;
    assert i / 0x100 == 256 * (i / 0x1_0000) + i / 0x100 % 256;
    assert q < 256 && q % 256 == q;
  }

  // ---------- the digest ----------

  /** The three parts of a message digest (hash_sha2.c): FORS message, tree and leaf index. */
  function MHash(p: Params, d: Bytes): (r: Bytes)
    requires |d| == p.DigestBytes()
    ensures |r| == p.ForsMsgBytes()
  {
    d[..p.ForsMsgBytes()]
  }

  function TreeIndex(p: Params, d: Bytes): (r: nat)
    requires |d| == p.DigestBytes()
    ensures r < Pow2(p.TreeBits())
  {
    FromBE(d[p.ForsMsgBytes()..p.ForsMsgBytes() + p.TreeBytes()]) % Pow2(p.TreeBits())
  }

  function LeafIndex(p: Params, d: Bytes): (r: nat)
    requires |d| == p.DigestBytes()
    ensures r < Pow2(p.h)
  {
    FromBE(d[p.ForsMsgBytes() + p.TreeBytes()..]) % Pow2(p.h)
  }

  method HashMessage(e: Engine, r: Bytes, pk: Bytes, m: Bytes) returns (mhash: Bytes, tree: nat, leaf: nat)
    ensures var d := e.hashMsg(r, pk, m);
            mhash == MHash(e.p, d) && tree == TreeIndex(e.p, d) && leaf == LeafIndex(e.p, d)
  {
    hide Params.ForsMsgBytes, Params.TreeBytes, Params.LeafBytes;
    var d := e.hashMsg(r, pk, m);
    var f, t := e.p.ForsMsgBytes(), e.p.TreeBytes();
    mhash := d[..f];
    var v := BytesToUll(d[f..f + t]);
    tree := v % Pow2(e.p.TreeBits());
    v := BytesToUll(d[f + t..]);
    leaf := v % Pow2(e.p.h);
  }

  lemma FitsBytes(x: nat, bits: nat, bytes: nat)
    requires x < Pow2(bits) && bits <= 8 * bytes
    ensures FromBE(BE(x, bytes)) % Pow2(bits) == x
  {
    hide BE, FromBE;
    Pow2Mono(bits, 8 * bytes);
    Pow256Is(bytes);
    FromBEOfBE(x, bytes);
    DivModUnique(x, Pow2(bits), 0, x);
  }

  /** The digest is read as it is laid out: FORS message, tree and leaf, big-endian, with nothing left over. */
  lemma DigestSplits(p: Params, mhash: Bytes, tree: nat, leaf: nat)
    requires |mhash| == p.ForsMsgBytes() && tree < Pow2(p.TreeBits()) && leaf < Pow2(p.h)
    ensures var d := mhash + BE(tree, p.TreeBytes()) + BE(leaf, p.LeafBytes());
            |d| == p.DigestBytes() && MHash(p, d) == mhash && TreeIndex(p, d) == tree && LeafIndex(p, d) == leaf
  {
    hide BE, FromBE, Pow2, Params.ForsMsgBytes, Params.TreeBits;
    var f, t := p.ForsMsgBytes(), p.TreeBytes();
    var d := mhash + BE(tree, t) + BE(leaf, p.LeafBytes());
    assert d[..f] == mhash && d[f..f + t] == BE(tree, t) && d[f + t..] == BE(leaf, p.LeafBytes());
    WholeBytes(p.TreeBits());
    WholeBytes(p.h);
    FitsBytes(tree, p.TreeBits(), t);
    FitsBytes(leaf, p.h, p.LeafBytes());
  }

  // ---------- the grind ----------

  /** Salt number `ctr` makes the compressed index zero. */
  ghost predicate Good(e: Engine, r: Bytes, pk: Bytes, m: Bytes, ctr: nat)
    requires |r| == e.p.n
  {
    ForsIndex(e.p, MHash(e.p, e.hashMsg(Salt(r, ctr), pk, m)), e.p.trees) == 0
  }

  /** The first good salt number from `from` below `cap`, or `cap`. */
  ghost function FirstGood(e: Engine, r: Bytes, pk: Bytes, m: Bytes, from: nat, cap: nat): (c: nat)
    requires |r| == e.p.n && from <= cap
    ensures from <= c <= cap
    ensures forall x | from <= x < c :: !Good(e, r, pk, m, x)
    ensures c < cap ==> Good(e, r, pk, m, c)
    decreases cap - from
  {
    if from == cap || Good(e, r, pk, m, from) then from else FirstGood(e, r, pk, m, from + 1, cap)
  }

  /** The stats after a grind. */
  ghost function AfterGrind(p: Params, was: Rec, ctr: nat): Rec {
    if ctr < p.forscCap then was.RecordForsc(ctr + 1) else was.RecordForsc(p.forscCap).RecordForscCap()
  }

  lemma GoodStep(e: Engine, r: Bytes, pk: Bytes, m: Bytes, ctr: nat)
    requires |r| == e.p.n && ctr < e.p.forscCap
    ensures FirstGood(e, r, pk, m, e.p.forscCap, e.p.forscCap) == e.p.forscCap
    ensures FirstGood(e, r, pk, m, ctr, e.p.forscCap) ==
            if ForsIndex(e.p, MHash(e.p, e.hashMsg(Salt(r, ctr), pk, m)), e.p.trees) == 0 then ctr
              else FirstGood(e, r, pk, m, ctr + 1, e.p.forscCap)
  {
  }

  /**
   The salt loop of `crypto_sign_signature`, with its 32-bit counters. It stops at the first
   good salt, or at the cap; the exit taken when the counter wraps round (result -1) is
   never reached.
   */
  method GrindSalt(e: Engine, r0: Bytes, pk: Bytes, m: Bytes, cur: SignStats?)
    returns (rc: int, r: Bytes, mhash: Bytes, tree: nat, leaf: nat)
    requires |r0| == e.p.n
    modifies if cur == null then {} else {cur}
    ensures var c := FirstGood(e, r0, pk, m, 0, e.p.forscCap);
            && rc == (if c < e.p.forscCap then 0 else W.LIMIT_EXCEEDED)
            && (rc == 0 ==> r == Salt(r0, c))
            && (cur != null ==> cur.r == AfterGrind(e.p, old(cur.r), c))
    ensures var d := e.hashMsg(r, pk, m);
            mhash == MHash(e.p, d) && tree == TreeIndex(e.p, d) && leaf == LeafIndex(e.p, d)
  {
    hide Salt, MHash, TreeIndex, LeafIndex, Good, ForsIndex, FirstGood, Params.ForsMsgBytes, Params.DigestBytes;
    r := r0;
    SaltZero(r0);
    var ctr, attempts := 0, 0;
    while true
      invariant 0 <= ctr < e.p.forscCap && attempts == ctr && r == Salt(r0, ctr)
      invariant FirstGood(e, r0, pk, m, 0, e.p.forscCap) == FirstGood(e, r0, pk, m, ctr, e.p.forscCap)
      invariant cur != null ==> cur.r == old(cur.r)
      decreases e.p.forscCap - ctr
    {
      attempts := (attempts + 1) % 0x1_0000_0000;
      mhash, tree, leaf := HashMessage(e, r, pk, m);
      var idx := CompressedIndex(e.p, mhash);
      GoodStep(e, r0, pk, m, ctr);
      if idx == 0 {
        if cur != null { cur.r := cur.r.RecordForsc(attempts); }
        return 0, r, mhash, tree, leaf;
      }
      if attempts >= e.p.forscCap {
        if cur != null {
          cur.r := cur.r.RecordForsc(attempts);
          cur.r := cur.r.RecordForscCap();
        }
        return W.LIMIT_EXCEEDED, r, mhash, tree, leaf;
      }
      ctr := (ctr + 1) % 0x1_0000_0000;
      if ctr == 0 {
        assert false;  // the source returns -1 here: every salt has been tried
      }
      r := Salt(r0, ctr);
    }
  }
}
