/**
 The engine of the shipped profile: `thash`, `prf_addr`, `gen_message_random` and `hash_message`
 over SHA-256. The byte-level methods of the hash modules, scalar and eight-lane, compute its
 functions, so everything proved for an arbitrary engine holds of them.
 */
module Sha2Engine {
  import opened Bits
  import opened Address
  import opened Engine
  import opened Sha2
  import opened HashSha2
  import opened Sha256Rounds
  import opened Sha256Blocks
  import opened Sha256x8
  import opened Blocks
  import X8 = LeafGenX8
  import Session
  import AddressRuns

  /** The hash of a seed, the 22 bytes of an address and an input. */
  ghost function Seeded(p: Params, h: Hasher, pub: Bytes, address: Bytes, input: Bytes): (r: Bytes)
    requires p.Valid() && h.v == SHA256
    ensures |r| == p.n
  {
    if |pub| <= 64 then Hash(h, ZeroExtend(h, pub) + address + input)[..p.n] else Zeros(p.n)
  }

  ghost function SeededBytes(p: Params, h: Hasher, pub: Bytes, a: Adrs, input: Bytes): (r: Bytes)
    requires p.Valid() && h.v == SHA256
    ensures |r| == p.n
  {
    Seeded(p, h, pub, Enc(a), input)
  }

  ghost function PrfMsgBytes(p: Params, h: Hasher, skPrf: Bytes, optrand: Bytes, m: Bytes): (r: Bytes)
    requires p.Valid() && h.v == SHA256
    ensures |r| == p.n
  {
    if |skPrf| <= 64 then Hmac(h, skPrf, optrand + m)[..p.n] else Zeros(p.n)
  }

  ghost function HashMsgBytes(p: Params, h: Hasher, r: Bytes, pk: Bytes, m: Bytes): (d: Bytes)
    requires p.Valid() && h.v == SHA256
    ensures |d| == p.DigestBytes()
  {
    if p.n <= |pk| then HMsg(h, p.n, r, pk, m, p.DigestBytes()) else Zeros(p.DigestBytes())
  }

  ghost function EngineOf(p: Params, h: Hasher, k: Hasher): (e: Engine)
    requires p.Valid() && h.v == SHA256 && k.v == SHA512
    ensures e.p == p && e.Valid()
  {
    RawEngine(p,
              (pub, a, ins) => SeededBytes(p, h, pub, a, Flat(ins)),
              (pub, sk, a) => SeededBytes(p, h, pub, a, sk),
              m => Hash(h, m),
              m => Hash(k, m),
              (skPrf, optrand, m) => PrfMsgBytes(p, h, skPrf, optrand, m),
              (r, pk, m) => HashMsgBytes(p, h, r, pk, m))
  }

  /**
   `thash` (thash_sha2_simple.c): hashes the bytes of an address buffer; for a buffer that the
   address functions filled, that is the engine's `thash` at the fields.
   */
  method Thash(p: Params, h: Hasher, ghost k: Hasher, seeded: array<byte>, addr: array<byte>, off: nat,
      ins: seq<Bytes>, ghost pub: Bytes)
    returns (out: Bytes)
    requires p.Valid() && h.v == SHA256 && k.v == SHA512 && |pub| <= 64 && Absorbed(h, seeded[..], ZeroExtend(h, pub))
    requires off + 32 <= addr.Length
    ensures out == Seeded(p, h, pub, Hashed(addr, off), Flat(ins))
    ensures ClearAt(addr, off) ==> out == EngineOf(p, h, k).thash(pub, At(addr, off), ins)
  {
    hide Absorbed, Hash, ZeroExtend, Enc, At, ClearAt, Hashed;
    out := SeededHash(h, p.n, seeded, addr, off, Flat(ins), pub);
    if ClearAt(addr, off) { HashedIsEnc(addr, off); }
  }

  /** `prf_addr`. */
  method PrfAddr(p: Params, h: Hasher, ghost k: Hasher, seeded: array<byte>, addr: array<byte>, off: nat, sk: Bytes,
      ghost pub: Bytes)
    returns (out: Bytes)
    requires p.Valid() && h.v == SHA256 && k.v == SHA512 && |pub| <= 64 && Absorbed(h, seeded[..], ZeroExtend(h, pub))
    requires off + 32 <= addr.Length
    ensures out == Seeded(p, h, pub, Hashed(addr, off), sk)
    ensures ClearAt(addr, off) ==> out == EngineOf(p, h, k).prf(pub, sk, At(addr, off))
  {
    hide Absorbed, Hash, ZeroExtend, Enc, At, ClearAt, Hashed;
    out := SeededHash(h, p.n, seeded, addr, off, sk, pub);
    if ClearAt(addr, off) { HashedIsEnc(addr, off); }
  }

  /** After any history of address calls, `thash` on a variable hashes at the position the history names. */
  method ThashAfter(p: Params, h: Hasher, ghost k: Hasher, seeded: array<byte>, n: nat, ops: seq<AddressRuns.Op>,
      i: nat, ins: seq<Bytes>, ghost pub: Bytes)
    returns (out: Bytes)
    requires p.Valid() && h.v == SHA256 && k.v == SHA512 && |pub| <= 64 && Absorbed(h, seeded[..], ZeroExtend(h, pub))
    requires AddressRuns.AllOn(ops, n) && i < n
    ensures out == EngineOf(p, h, k).thash(pub, AddressRuns.After(n, ops)[i], ins)
  {
    hide Absorbed, ZeroExtend, Enc, At, ClearAt, Hashed, SeededBytes, Seeded, Clear, Fields, AddressRuns.After,
      AddressRuns.Slot;
    ghost var cached := seeded[..];
    var mem := AddressRuns.Run(n, ops);
    AddressRuns.SlotIs(mem, i);
    assert seeded[..] == cached;
    out := Thash(p, h, k, seeded, mem, 32 * i, ins, pub);
  }

  /** `gen_message_random`. */
  method PrfMsg(p: Params, h: Hasher, ghost k: Hasher, skPrf: Bytes, optrand: Bytes, m: Bytes) returns (r: Bytes)
    requires p.Valid() && h.v == SHA256 && k.v == SHA512 && |skPrf| == |optrand| == p.n
    ensures r == EngineOf(p, h, k).prfMsg(skPrf, optrand, m)
  {
    hide Hmac;
    r := GenMessageRandom(h, p.n, skPrf, optrand, m);
  }

  /** The digest of `hash_message`. */
  method HashMsg(p: Params, h: Hasher, ghost k: Hasher, r: Bytes, pk: Bytes, m: Bytes) returns (d: Bytes)
    requires p.Valid() && h.v == SHA256 && k.v == SHA512 && |pk| == 2 * p.n
    ensures d == EngineOf(p, h, k).hashMsg(r, pk, m)
  {
    hide HMsg, Params.DigestBytes;
    d := HashMessageBytes(h, p.n, r, pk, m, p.DigestBytes());
  }

  /** `slh_dsa_derandomize` on its buffers: the secret key is exactly one block and is absorbed on its own. */
  method DerandomizeBytes(p: Params, h: Hasher, ghost k: Hasher, m: Bytes, sk: Bytes) returns (seed: Bytes)
    requires p.Valid() && h.v == SHA256 && k.v == SHA512 && |sk| == 64
    ensures seed == Session.SeedOf(EngineOf(p, h, k), m, sk)
  {
    hide Absorbed, Hash;
    var state := new byte[40];
    IncInit(h, state);
    IncBlocks(h, state, sk, []);
    assert [] + sk == sk;
    var digest0 := IncFinalize(h, state, m, sk);
    var digest1 := Sha(h, digest0 + [1]);
    seed := digest0 + digest1;
  }

  // ---------- eight lanes ----------

  /** The fields of eight addresses in one buffer. */
  ghost function Lanes(adrs: array<byte>): (r: seq<Adrs>)
    requires adrs.Length == 256
    reads adrs
    ensures |r| == 8
  {
    seq(8, j requires 0 <= j < 8 reads adrs => At(adrs, 32 * j))
  }

  ghost predicate LanesClear(adrs: array<byte>)
    requires adrs.Length == 256
    reads adrs
  {
    forall j | 0 <= j < 8 :: ClearAt(adrs, 32 * j)
  }

  ghost predicate LaneInputs(adrs: array<byte>, ins: seq<Bytes>, bufs: seq<Bytes>, k: nat)
    requires adrs.Length == 256
    reads adrs
  {
    |ins| == 8 && k <= 8 && k == |bufs| && forall j | 0 <= j < k :: bufs[j] == Hashed(adrs, 32 * j) + ins[j]
  }

  /** The packing, hashing and truncation that `thashx8` and `prf_addrx8` share. */
  method SeededX8(p: Params, h: Hasher, o: Ops, seeded: array<byte>, adrs: array<byte>, ins: seq<Bytes>, len: nat,
      ghost pub: Bytes)
    returns (out: seq<Bytes>)
    requires p.Valid() && IsSha256(h, o) && |pub| <= 64 && Absorbed(h, seeded[..], ZeroExtend(h, pub))
    requires adrs.Length == 256 && EightOf(ins, len)
    ensures |out| == 8 && forall j | 0 <= j < 8 :: out[j] == Seeded(p, h, pub, Hashed(adrs, 32 * j), ins[j])
  {
    hide Hash, ZeroExtend, IsSha256, Absorb;
    assert h.v == SHA256 by { IsVariant(h, o); }
    ghost var cached := seeded[..];
    var bufs := [];
    for j := 0 to 8
      invariant LaneInputs(adrs, ins, bufs, j)
    {
      bufs := bufs + [adrs[32 * j..32 * j + 22] + ins[j]];
    }
    assert EightOf(bufs, 22 + len);
    var digests := Sha256x8Seeded(h, o, seeded[..], 512, bufs, 22 + len, ZeroExtend(h, pub));
    out := [];
    for j := 0 to 8
      invariant |out| == j && forall l | 0 <= l < j :: out[l] == Seeded(p, h, pub, Hashed(adrs, 32 * l), ins[l])
    {
      assert ZeroExtend(h, pub) + Hashed(adrs, 32 * j) + ins[j] == ZeroExtend(h, pub) + bufs[j];
      out := out + [digests[j][..p.n]];
    }
  }

  lemma LaneAddress(adrs: array<byte>, j: nat)
    requires adrs.Length == 256 && LanesClear(adrs) && j < 8
    ensures Hashed(adrs, 32 * j) == Enc(Lanes(adrs)[j])
  {
    hide Enc, At, Hashed;
    HashedIsEnc(adrs, 32 * j);
  }

  /** `thashx8`: eight independent scalar calls, at the eight addresses of one buffer. */
  method ThashX8(p: Params, h: Hasher, ghost k: Hasher, o: Ops, seeded: array<byte>, adrs: array<byte>,
      ins: seq<seq<Bytes>>, inblocks: nat, ghost pub: Bytes)
    returns (out: seq<Bytes>)
    requires p.Valid() && IsSha256(h, o) && k.v == SHA512 && |pub| <= 64 && Absorbed(h, seeded[..], ZeroExtend(h, pub))
    requires adrs.Length == 256 && |ins| == 8 && forall j | 0 <= j < 8 :: |ins[j]| == inblocks && Sized(ins[j], p.n)
    ensures LanesClear(adrs) ==> out == X8.ThashX8(EngineOf(p, h, k), pub, Lanes(adrs), ins)
  {
    hide Absorbed, Hash, ZeroExtend, Enc, IsSha256, Seeded, Lanes, LanesClear, Hashed;
    assert h.v == SHA256 by { IsVariant(h, o); }
    forall j | 0 <= j < 8 ensures |Flat(ins[j])| == inblocks * p.n {
      FlatLength(ins[j], p.n);
    }
    out := SeededX8(p, h, o, seeded, adrs, seq(8, j requires 0 <= j < 8 => Flat(ins[j])), inblocks * p.n, pub);
    if LanesClear(adrs) {
      forall j | 0 <= j < 8 ensures out[j] == EngineOf(p, h, k).thash(pub, Lanes(adrs)[j], ins[j]) {
        LaneAddress(adrs, j);
      }
    }
  }

  /** `prf_addrx8`: eight independent scalar calls, at the eight addresses of one buffer. */
  method PrfAddrX8(p: Params, h: Hasher, ghost k: Hasher, o: Ops, seeded: array<byte>, adrs: array<byte>, sk: Bytes,
      ghost pub: Bytes)
    returns (out: seq<Bytes>)
    requires p.Valid() && IsSha256(h, o) && k.v == SHA512 && |pub| <= 64 && Absorbed(h, seeded[..], ZeroExtend(h, pub))
    requires adrs.Length == 256
    ensures LanesClear(adrs) ==> out == X8.PrfX8(EngineOf(p, h, k), pub, sk, Lanes(adrs))
  {
    hide Absorbed, Hash, ZeroExtend, Enc, IsSha256, Seeded, Lanes, LanesClear, Hashed;
    assert h.v == SHA256 by { IsVariant(h, o); }
    out := SeededX8(p, h, o, seeded, adrs, seq(8, _ => sk), |sk|, pub);
    if LanesClear(adrs) {
      forall j | 0 <= j < 8 ensures out[j] == EngineOf(p, h, k).prf(pub, sk, Lanes(adrs)[j]) {
        LaneAddress(adrs, j);
      }
    }
  }
}
