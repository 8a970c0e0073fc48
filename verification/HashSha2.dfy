/**
 hash_sha2.c: the message hash functions over incremental SHA-2. Midstates are cached and
 block boundaries are straddled by hand; the results are plain HMAC (section 2 of RFC 2104),
 MGF1 (appendix B.2.1 of RFC 8017) and H_msg (FIPS 205 section 11.2.1).
 */
module HashSha2 {
  import opened Bits
  import opened Address
  import opened Sha2
  import G = Grind

  /** SHA-512 counts bytes in 64 bits; SHA-256 needs no such bound. */
  predicate Fits(h: Hasher, len: nat) {
    h.v == SHA512 ==> len < 0x1_0000_0000_0000_0000
  }

  // ---------- HMAC ----------

  /** Every byte xored with `pad`. */
  function XorAll(s: Bytes, pad: byte): (r: Bytes)
    ensures |r| == |s|
  {
    seq(|s|, i requires 0 <= i < |s| => G.Xor(pad, s[i]))
  }

  /** An HMAC key or a public seed, extended with zeros to a whole block. */
  function ZeroExtend(h: Hasher, key: Bytes): (r: Bytes)
    requires |key| <= h.v.block
    ensures |r| == h.v.block && r[..|key|] == key && forall i | |key| <= i < |r| :: r[i] == 0
  {
    key + Zeros(h.v.block - |key|)
  }

  ghost function Hmac(h: Hasher, key: Bytes, text: Bytes): (r: Bytes)
    requires |key| <= h.v.block
    ensures |r| == h.v.out
  {
    Hash(h, XorAll(ZeroExtend(h, key), 0x5c) + Hash(h, XorAll(ZeroExtend(h, key), 0x36) + text))
  }

  /** The pad-xored key block as the code builds it: xored key bytes, then plain pad bytes. */
  method PadKey(h: Hasher, key: Bytes, pad: byte) returns (buf: Bytes)
    requires |key| <= h.v.block
    ensures buf == XorAll(ZeroExtend(h, key), pad)
  {
    var xored := seq(|key|, i requires 0 <= i < |key| => G.Xor(pad, key[i]));
    buf := xored + seq(h.v.block - |key|, _ => pad);
    SmallPowers();
    G.XorZero(pad, 8);
    forall i | 0 <= i < h.v.block ensures buf[i] == XorAll(ZeroExtend(h, key), pad)[i] {}
  }

  /** Absorbs the message behind a short prefix: one buffer if they fit in `inbuf`, else a filled buffer first. */
  method AbsorbBehind(h: Hasher, state: array<byte>, front: Bytes, m: Bytes, room: nat, ghost prefix: Bytes)
      returns (out: Bytes)
    requires Absorbed(h, state[..], prefix) && |front| <= room && room % h.v.block == 0
        && Fits(h, |prefix| + |front| + |m|)
    modifies state
    ensures out == Hash(h, prefix + front + m)
  {
    hide Absorbed, Hash;
    if |front| + |m| < room {
      out := IncFinalize(h, state, front + m, prefix);
      assert prefix + (front + m) == prefix + front + m;
    } else {
      var k := room - |front|;
      IncBlocks(h, state, front + m[..k], prefix);
      out := IncFinalize(h, state, m[k..], prefix + (front + m[..k]));
      assert m == m[..k] + m[k..];
      assert prefix + (front + m[..k]) + m[k..] == prefix + front + m;
    }
  }

  /** `gen_message_random`: HMAC of `optrand || m`, truncated. */
  method GenMessageRandom(h: Hasher, n: nat, skPrf: Bytes, optrand: Bytes, m: Bytes) returns (r: Bytes)
    requires |skPrf| == |optrand| == n <= h.v.out && Fits(h, h.v.block + n + |m|)
    ensures r == Hmac(h, skPrf, optrand + m)[..n]
  {
    hide Absorbed, Hash, XorAll, ZeroExtend;
    var state := new byte[h.v.out + 8];
    var ipad := PadKey(h, skPrf, 0x36);
    IncInit(h, state);
    IncBlocks(h, state, ipad, []);
    assert [] + ipad == ipad;
    var inner := AbsorbBehind(h, state, optrand, m, h.v.block, ipad);
    assert ipad + optrand + m == ipad + (optrand + m);
    var opad := PadKey(h, skPrf, 0x5c);
    var out := Sha(h, opad + inner);
    r := out[..n];
  }

  // ---------- MGF1 ----------

  /** The concatenation of the first `k` counter blocks. */
  ghost function CounterBlocks(h: Hasher, seed: Bytes, k: nat): (r: Bytes)
    ensures |r| == k * h.v.out
  {
    if k == 0 then []
    else
      assert k * h.v.out == (k - 1) * h.v.out + h.v.out;
      CounterBlocks(h, seed, k - 1) + Hash(h, seed + BE(k - 1, 4))
  }

  /** The leading `outlen` bytes of as many counter blocks as that takes. */
  ghost function Mgf1(h: Hasher, seed: Bytes, outlen: nat): (r: Bytes)
    ensures |r| == outlen
  {
    var k := Rounds(h, outlen);
    CounterBlocks(h, seed, k)[..outlen]
  }

  /** `outlen / hLen`, rounded up. */
  function Rounds(h: Hasher, outlen: nat): (k: nat)
    ensures outlen <= k * h.v.out < outlen + h.v.out
  {
    (outlen + h.v.out - 1) / h.v.out
  }

  lemma RoundsIs(h: Hasher, outlen: nat, i: nat)
    requires i * h.v.out <= outlen < (i + 1) * h.v.out
    ensures Rounds(h, outlen) == if outlen == i * h.v.out then i else i + 1
  {
    if h.v == SHA256 {
    } else {
    }
  }

  lemma NextBlock(h: Hasher, i: nat)
    ensures (i + 1) * h.v.out == i * h.v.out + h.v.out
  {
  }

  /**
   One counter block from the cached midstate: `state` is a clone of `seeded`, the counter goes
   behind the rest of the seed.
   */
  method CounterBlock(h: Hasher, seeded: array<byte>, state: array<byte>, tail: array<byte>, rem: nat, i: nat,
      ghost whole: Bytes) returns (block: Bytes)
    requires Absorbed(h, seeded[..], whole) && state.Length == seeded.Length && state != seeded && tail != seeded
        && tail != state
    requires rem + 4 <= tail.Length && Fits(h, |whole| + rem + 4)
    modifies state, tail
    ensures tail[..rem] == old(tail[..rem])
    ensures block == Hash(h, whole + tail[..rem] + BE(i, 4))
  {
    hide Absorbed, Hash, BE;
    ghost var cached := seeded[..];
    forall j | 0 <= j < state.Length { state[j] := seeded[j]; }
    U32ToBytes(tail, rem, i);
    assert state[..] == cached;
    assert tail[..rem + 4] == tail[..rem] + tail[rem..rem + 4];
    block := IncFinalize(h, state, tail[..rem + 4], whole);
    assert whole + tail[..rem + 4] == whole + tail[..rem] + BE(i, 4);
  }

  /** `mgf1_X_cached`: the whole blocks of the seed are absorbed once and the state cloned per counter. */
  method Mgf1Cached(h: Hasher, seed: Bytes, outlen: nat) returns (out: Bytes)
    requires Fits(h, |seed| + 4)
    ensures out == Mgf1(h, seed, outlen)
  {
    hide Absorbed, Hash, BE, Rounds;
    var rem := |seed| % h.v.block;
    var whole := seed[..|seed| - rem];
    WholePart(h.v, |seed|);
    var seeded := new byte[h.v.out + 8];
    var state := new byte[h.v.out + 8];
    var tail := new byte[h.v.block + 4];
    IncInit(h, seeded);
    if |whole| > 0 {
      IncBlocks(h, seeded, whole, []);
    }
    assert [] + whole == whole;
    ghost var cached := seeded[..];
    forall j | 0 <= j < rem { tail[j] := seed[|whole| + j]; }
    assert tail[..rem] == seed[|whole|..];
    assert whole + tail[..rem] == seed && seeded[..] == cached;
    out := [];
    var i := 0;
    NextBlock(h, 0);
    while (i + 1) * h.v.out <= outlen
      invariant i * h.v.out <= outlen && whole + tail[..rem] == seed && Absorbed(h, seeded[..], whole)
      invariant out == CounterBlocks(h, seed, i)
      decreases outlen - i * h.v.out
    {
      NextBlock(h, i);
      var block := CounterBlock(h, seeded, state, tail, rem, i, whole);
      out := out + block;
      i := i + 1;
    }
    RoundsIs(h, outlen, i);
    NextBlock(h, i);
    if outlen > i * h.v.out {
      var block := CounterBlock(h, seeded, state, tail, rem, i, whole);
      assert CounterBlocks(h, seed, i + 1) == out + block;
      out := out + block[..outlen - i * h.v.out];
    }
    assert out == CounterBlocks(h, seed, Rounds(h, outlen))[..outlen];
  }

  // ---------- H_msg ----------

  /** The digest of FIPS 205 section 11.2.1: MGF1(R || PK.seed || H(R || PK || M)). */
  ghost function HMsg(h: Hasher, n: nat, r: Bytes, pk: Bytes, m: Bytes, outlen: nat): (d: Bytes)
    requires n <= |pk|
    ensures |d| == outlen
  {
    Mgf1(h, r + pk[..n] + Hash(h, r + pk + m), outlen)
  }

  /** The size of the buffer that holds `R || PK`, rounded up to whole blocks. */
  function RoundUp(h: Hasher, len: nat): (room: nat)
    ensures len <= room && room % h.v.block == 0
  {
    if h.v == SHA256 then Up64(len) else Up128(len)
  }

  function Up64(len: nat): (room: nat)
    ensures len <= room && room % 64 == 0
  {
    (len + 63) / 64 * 64
  }

  function Up128(len: nat): (room: nat)
    ensures len <= room && room % 128 == 0
  {
    (len + 127) / 128 * 128
  }

  /** The hashing half of `hash_message`. */
  method HashMessageBytes(h: Hasher, n: nat, r: Bytes, pk: Bytes, m: Bytes, outlen: nat) returns (d: Bytes)
    requires n <= |pk| && Fits(h, |r| + |pk| + |m|) && Fits(h, |r| + n + h.v.out + 4)
    ensures d == HMsg(h, n, r, pk, m, outlen)
  {
    hide Absorbed, Hash, Mgf1;
    var state := new byte[h.v.out + 8];
    IncInit(h, state);
    var front := r + pk;
    var inner := AbsorbBehind(h, state, front, m, RoundUp(h, |front|), []);
    assert [] + front + m == r + pk + m;
    d := Mgf1Cached(h, r + pk[..n] + inner, outlen);
  }

  // ---------- the tweakable hash and the PRF ----------

  /** `seed_state`: the state every `thash` and `prf_addr` starts from. */
  method SeedState(h: Hasher, pub: Bytes) returns (seeded: array<byte>)
    requires |pub| <= h.v.block
    ensures fresh(seeded) && Absorbed(h, seeded[..], ZeroExtend(h, pub))
  {
    hide Absorbed;
    seeded := new byte[h.v.out + 8];
    IncInit(h, seeded);
    IncBlocks(h, seeded, ZeroExtend(h, pub), []);
    assert [] + ZeroExtend(h, pub) == ZeroExtend(h, pub);
  }

  lemma AbsorbedLength(h: Hasher, st: Bytes, prefix: Bytes)
    requires Absorbed(h, st, prefix)
    ensures |st| == h.v.out + 8
  {
  }

  /**
   `thash` and `prf_addr`: the 22 leading bytes of the address buffer and the input, hashed from
   a clone of the seeded state, truncated.
   */
  method SeededHash(h: Hasher, n: nat, seeded: array<byte>, addr: array<byte>, off: nat, input: Bytes,
      ghost pub: Bytes) returns (out: Bytes)
    requires |pub| <= h.v.block && n <= h.v.out && Absorbed(h, seeded[..], ZeroExtend(h, pub))
    requires off + 32 <= addr.Length && Fits(h, h.v.block + 22 + |input|)
    ensures out == Hash(h, ZeroExtend(h, pub) + Hashed(addr, off) + input)[..n]
  {
    hide Absorbed, Hash, ZeroExtend;
    ghost var cached := seeded[..];
    assert |cached| == h.v.out + 8 by { AbsorbedLength(h, cached, ZeroExtend(h, pub)); }
    var state := new byte[seeded.Length];
    forall j | 0 <= j < state.Length { state[j] := seeded[j]; }
    assert state[..] == cached;
    var buf := addr[off..off + 22] + input;
    var digest := IncFinalize(h, state, buf, ZeroExtend(h, pub));
    assert ZeroExtend(h, pub) + buf == ZeroExtend(h, pub) + Hashed(addr, off) + input;
    out := digest[..n];
  }
}
