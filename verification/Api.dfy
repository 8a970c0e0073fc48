/**
 src/bitcoinpqc.c with src/slh_dsa/keygen.c and verify.c: the public C interface. Buffers come
 from an allocator that may refuse; an output structure owns the buffers it points to. A
 buffer is freed only while it is live, and as many bytes of it are wiped as the recorded size
 says, so a double free, a stray free or a wipe past the end would fail to verify and a leak
 would show in the set of live buffers.
 */
module Api {
  import opened Bits
  import opened Engine
  import opened Stats
  import opened RandomSource
  import opened S = Sign
  import opened Blocks
  import opened Session
  import W = Wots

  datatype Error = OK | BadArg | BadKey | BadSignature | SigningLimit | OutOfMemory

  const KEYGEN_MIN := 128
  const KEYGEN_NO_MEMORY := -102
  const SIZE_MAX := 0xFFFF_FFFF_FFFF_FFFF

  // ---------- memory ----------

  class Buffer {
    var data: Bytes

    constructor (size: nat)
      ensures |data| == size
    {
      data := Zeros(size);
    }
  }

  /** The allocator: the buffers that have been handed out and not yet returned. */
  class Heap {
    var live: set<Buffer>

    constructor ()
      ensures live == {}
    {
      live := {};
    }

    /** `malloc`; whether it refuses is up to the environment. */
    method Alloc(size: nat, refuse: bool) returns (b: Buffer?)
      modifies this
      ensures refuse ==> b == null && live == old(live)
      ensures !refuse ==> b != null && fresh(b) && |b.data| == size && live == old(live) + {b}
    {
      if refuse { return null; }
      b := new Buffer(size);
      live := live + {b};
    }

    /** `bitcoin_pqc_secure_zero(b, size)` followed by `free(b)`. */
    method WipeAndFree(b: Buffer?, size: nat)
      requires b != null ==> b in live && size <= |b.data|
      modifies this, if b == null then {} else {b}
      ensures live == old(live) - {b}
      ensures b != null ==> b.data == Wiped(old(b.data), size)
    {
      if b == null { return; }
      b.data := Zeros(size) + b.data[size..];
      live := live - {b};
    }
  }

  /** A buffer whose first `size` bytes have been cleared. */
  function Wiped(data: Bytes, size: nat): (r: Bytes)
    requires size <= |data|
    ensures |r| == |data| && (size == |data| ==> r == Zeros(size))
  {
    Zeros(size) + data[size..]
  }

  /** `bitcoin_pqc_keypair_t`. */
  class KeyPair {
    var publicKey: Buffer?
    var secretKey: Buffer?
    var publicSize: nat
    var secretSize: nat

    constructor ()
      ensures Empty()
    {
      publicKey, secretKey, publicSize, secretSize := null, null, 0, 0;
    }

    predicate Empty()
      reads this
    {
      publicKey == null && secretKey == null && publicSize == 0 && secretSize == 0
    }

    function Owned(): set<Buffer>
      reads this
    {
      (if publicKey == null then {} else {publicKey}) + (if secretKey == null then {} else {secretKey})
    }

    /** Either pointer is null or names a live buffer of at least the recorded size, and the two are different. */
    predicate Owns(heap: Heap)
      reads this, heap, Owned()
    {
      && Owned() <= heap.live && (publicKey != null ==> publicKey != secretKey)
      && (publicKey != null ==> publicSize <= |publicKey.data|)
      && (secretKey != null ==> secretSize <= |secretKey.data|)
    }
  }

  /** `bitcoin_pqc_signature_t`. */
  class Sig {
    var signature: Buffer?
    var size: nat

    constructor ()
      ensures Empty()
    {
      signature, size := null, 0;
    }

    predicate Empty()
      reads this
    {
      signature == null && size == 0
    }
  }

  // ---------- key generation ----------

  /** The eight bytes of a size, least significant first (`store_u64_le`). */
  function LE(x: nat, n: nat): (r: Bytes)
    ensures |r| == n
  {
    if n == 0 then [] else [x % 256] + LE(x / 256, n - 1)
  }

  /** KEYGEN_DERIVE_DOMAIN. */
  const DOMAIN: string := "libbitcoinpqc-qbit/slh-dsa-sha2-128s-bounded30/keygen/v1"

  /** The domain string as bytes, and the zero behind it. */
  function Domain(): (r: Bytes)
    ensures |r| == 57
  {
    seq(|DOMAIN|, i requires 0 <= i < |DOMAIN| => DOMAIN[i] as int % 256) + [0]
  }

  /** The seed derived from caller entropy: domain, zero, size and data under SHA-512. */
  function KeygenSeed(e: Engine, random: Bytes): (r: Bytes)
    requires 3 * e.p.n <= 64
    ensures |r| == 3 * e.p.n
  {
    e.sha512(Domain() + LE(|random|, 8) + random)[..3 * e.p.n]
  }

  lemma {:induction false} LEOfFromLE(b: Bytes)
    ensures LE(FromLE(b), |b|) == b
  {
    if b != [] {
      LEOfFromLE(b[1..]);
      assert b == [b[0]] + b[1..];
    }
  }

  /** A byte string laid out as `derive_keygen_seed_v1` fills its buffer for `random`. */
  ghost predicate KeygenLayout(x: Bytes, random: Bytes) {
    && |x| == 65 + |random| && |DOMAIN| == 56
    && (forall i | 0 <= i < 56 :: x[i] == DOMAIN[i] as int % 256) && x[56] == 0
    && FromLE(x[57..65]) == |random| && x[65..] == random
  }

  /** The seed is the hash of the domain, a zero, the size least significant byte first, and the entropy. */
  lemma KeygenHashes(e: Engine, random: Bytes, x: Bytes)
    requires 3 * e.p.n <= 64 && KeygenLayout(x, random)
    ensures KeygenSeed(e, random) == e.sha512(x)[..3 * e.p.n]
  {
    hide FromLE, LE;
    LEOfFromLE(x[57..65]);
    assert x == x[..57] + x[57..65] + x[65..];
    assert x[..57] == Domain();
  }

  /** Different entropy, of any lengths, is hashed from different inputs. */
  lemma KeygenInputsDiffer(random: Bytes, x: Bytes, random': Bytes, x': Bytes)
    requires KeygenLayout(x, random) && KeygenLayout(x', random')
    ensures x == x' <==> random == random'
  {
    hide FromLE, LE;
    if random == random' {
      LEOfFromLE(x[57..65]);
      LEOfFromLE(x'[57..65]);
      assert x == x[..57] + x[57..65] + x[65..] && x' == x'[..57] + x'[57..65] + x'[65..];
      assert x[..57] == x'[..57];
    }
  }

  /** `slh_dsa_keygen` behind its argument checks; `refuse` is what `malloc` answers for the derivation buffer. */
  method SlhKeygen(e: Engine, avx2: bool, heap: Heap, random: Bytes, refuse: bool)
      returns (rc: int, pk: Bytes, sk: Bytes)
    requires 3 * e.p.n <= 64
    modifies heap
    ensures heap.live == old(heap.live)
    ensures rc == if |random| < KEYGEN_MIN || |random| > SIZE_MAX - 65 then -1
                  else if refuse then KEYGEN_NO_MEMORY else 0
    ensures rc == 0 ==>
        |pk| == 2 * e.p.n && |sk| == 4 * e.p.n && sk[..3 * e.p.n] == KeygenSeed(e, random) && pk == sk[2 * e.p.n..]
        && GoodKey(e, sk)
  {
    hide GoodKey;
    pk, sk := [], [];
    if |random| < KEYGEN_MIN { return -1, pk, sk; }
    if |random| > SIZE_MAX - 65 { return -1, pk, sk; }
    var input := heap.Alloc(65 + |random|, refuse);
    if input == null { return KEYGEN_NO_MEMORY, pk, sk; }
    input.data := Domain() + LE(|random|, 8) + random;
    var digest := e.sha512(input.data);
    var seed := digest[..3 * e.p.n];
    heap.WipeAndFree(input, 65 + |random|);
    rc, pk, sk := SeedKeypair(e, avx2, seed);
  }

  /** What `bitcoin_pqc_keygen` answers. */
  function KeygenError(usable: bool, random: Option<Bytes>, refusePk: bool, refuseSk: bool, refuseSeed: bool): Error {
    if !usable || random.None? || |random.value| < KEYGEN_MIN then BadArg
    else if refusePk || refuseSk then OutOfMemory
    else if |random.value| > SIZE_MAX - 65 then BadKey
    else if refuseSeed then OutOfMemory
    else OK
  }

  /** `bitcoin_pqc_keygen`. On failure nothing is leaked and the structure is untouched. */
  method Keygen(e: Engine, avx2: bool, heap: Heap, keypair: KeyPair?, random: Option<Bytes>, refusePk: bool,
      refuseSk: bool, refuseSeed: bool)
    returns (err: Error)
    requires 3 * e.p.n <= 64
    modifies heap, if keypair == null then {} else {keypair}
    ensures err == KeygenError(keypair != null && old(keypair.Empty()), random, refusePk, refuseSk, refuseSeed)
    ensures err != OK ==> heap.live == old(heap.live)
    ensures err != OK && keypair != null ==>
      && keypair.publicKey == old(keypair.publicKey) && keypair.secretKey == old(keypair.secretKey)
      && keypair.publicSize == old(keypair.publicSize) && keypair.secretSize == old(keypair.secretSize)
    ensures err == OK ==>
      && keypair.publicKey != null && keypair.secretKey != null && keypair.publicKey != keypair.secretKey
      && fresh(keypair.publicKey) && fresh(keypair.secretKey)
      && heap.live == old(heap.live) + {keypair.publicKey, keypair.secretKey}
      && keypair.publicSize == 2 * e.p.n == |keypair.publicKey.data|
      && keypair.secretSize == 4 * e.p.n == |keypair.secretKey.data|
      && keypair.secretKey.data[..3 * e.p.n] == KeygenSeed(e, random.value)
      && GoodKey(e, keypair.secretKey.data) && keypair.publicKey.data == keypair.secretKey.data[2 * e.p.n..]
  {
    hide GoodKey, KeygenSeed;
    if keypair == null || random.None? { return BadArg; }
    if !keypair.Empty() { return BadArg; }
    if |random.value| < KEYGEN_MIN { return BadArg; }
    var pk := heap.Alloc(2 * e.p.n, refusePk);
    var sk := heap.Alloc(4 * e.p.n, refuseSk);
    if pk == null || sk == null {
      heap.WipeAndFree(pk, 2 * e.p.n);
      heap.WipeAndFree(sk, 4 * e.p.n);
      return OutOfMemory;
    }
    var rc, pub, sec := SlhKeygen(e, avx2, heap, random.value, refuseSeed);
    if rc != 0 {
      heap.WipeAndFree(pk, 2 * e.p.n);
      heap.WipeAndFree(sk, 4 * e.p.n);
      return if rc == KEYGEN_NO_MEMORY then OutOfMemory else BadKey;
    }
    pk.data, sk.data := pub, sec;
    keypair.publicKey, keypair.secretKey := pk, sk;
    keypair.publicSize, keypair.secretSize := 2 * e.p.n, 4 * e.p.n;
    return OK;
  }

  /** `bitcoin_pqc_secret_key_validate`. */
  method SecretKeyValidate(e: Engine, avx2: bool, sk: Option<Bytes>) returns (err: Error)
    ensures err == if sk.None? then BadArg else if GoodKey(e, sk.value) then OK else BadKey
  {
    hide GoodKey;
    if sk.None? { return BadArg; }
    var rc := ValidateKey(e, avx2, sk);
    return if rc != 0 then BadKey else OK;
  }

  /**
   `bitcoin_pqc_keypair_free`: both buffers go back, as many of their bytes wiped as the recorded
   sizes say; the structure is empty, and a second call does nothing.
   */
  method KeypairFree(heap: Heap, keypair: KeyPair?)
    requires keypair != null ==> keypair.Owns(heap)
    modifies heap, if keypair == null then {} else {keypair} + keypair.Owned()
    ensures keypair == null ==> heap.live == old(heap.live)
    ensures keypair != null ==> keypair.Empty() && heap.live == old(heap.live) - old(keypair.Owned())
    ensures keypair != null && old(keypair.publicKey) != null ==>
      old(keypair.publicKey).data == Wiped(old(keypair.publicKey.data), old(keypair.publicSize))
    ensures keypair != null && old(keypair.secretKey) != null ==>
      old(keypair.secretKey).data == Wiped(old(keypair.secretKey.data), old(keypair.secretSize))
  {
    if keypair == null { return; }
    if keypair.publicKey != null {
      heap.WipeAndFree(keypair.publicKey, keypair.publicSize);
      keypair.publicKey := null;
    }
    if keypair.secretKey != null {
      heap.WipeAndFree(keypair.secretKey, keypair.secretSize);
      keypair.secretKey := null;
    }
    keypair.publicSize, keypair.secretSize := 0, 0;
  }

  // ---------- verification ----------

  /** A byte string of signature size that verifies, with counters up to `v`, once cut into blocks. */
  ghost predicate Accepts(e: Engine, v: nat, pk: Bytes, m: Bytes, sig: Bytes) {
    |pk| == 2 * e.p.n && |sig| == SigBytes(e.p) && Verifies(e, v, Split(sig, e.p.n), m, pk)
  }

  /** `slh_dsa_verify` behind its argument checks. An open stats session caps the search and is recorded into. */
  method SlhVerify(e: Engine, tls: Thread, sig: Bytes, m: Bytes, pk: Bytes) returns (rc: int)
    requires |pk| == 2 * e.p.n && |sig| == SigBytes(e.p)
    modifies if tls.stats == null then {} else {tls.stats}
    ensures rc == if Accepts(e, W.Cap(e.p, tls.stats), pk, m, sig) then 0 else -1
    ensures tls.stats != null ==> tls.stats.r == VerifyRec(e, Split(sig, e.p.n), m, pk, old(tls.stats.r))
  {
    hide Verifies, SigBytes, VerifyRec;
    rc := S.Verify(e, Split(sig, e.p.n), m, pk, tls.stats);
  }

  ghost function VerifyError(e: Engine, v: nat, pk: Option<Bytes>, m: Message, sig: Option<Bytes>): Error {
    if pk.None? || sig.None? || m.Bad() then BadArg
    else if |pk.value| != 2 * e.p.n then BadKey
    else if Accepts(e, v, pk.value, m.Text(), sig.value) then OK else BadSignature
  }

  /** `bitcoin_pqc_verify`. Between public calls no stats session is open, and the search is not capped. */
  method Verify(e: Engine, tls: Thread, pk: Option<Bytes>, m: Message, sig: Option<Bytes>) returns (err: Error)
    modifies if tls.stats == null then {} else {tls.stats}
    ensures err == VerifyError(e, W.Cap(e.p, tls.stats), pk, m, sig)
  {
    hide Verifies, SigBytes, VerifyRec;
    if pk.None? || sig.None? { return BadArg; }
    if m.Bad() { return BadArg; }
    if |pk.value| != 2 * e.p.n { return BadKey; }
    if |sig.value| != SigBytes(e.p) { return BadSignature; }
    var rc := SlhVerify(e, tls, sig.value, m.Text(), pk.value);
    return if rc != 0 then BadSignature else OK;
  }

  /** The largest WOTS+C counter the verification of a byte string needs; 0 if it is not of signature size. */
  ghost function EffortOf(e: Engine, pk: Bytes, m: Bytes, sig: Bytes): nat
    requires |pk| == 2 * e.p.n
  {
    if |sig| != SigBytes(e.p) then 0
    else
      assert |Split(sig, e.p.n)| == SigLen(e.p) by { FlatOfSplit(sig, e.p.n, SigLen(e.p)); }
      SigEffort(e, Split(sig, e.p.n), m, pk)
  }

  /**
   When an open stats session changes the answer of verification: exactly for a valid signature
   that needs a counter above the signing cap, whose answer turns from OK to BAD_SIGNATURE.
   */
  lemma SessionMatters(e: Engine, pk: Option<Bytes>, m: Message, sig: Option<Bytes>)
    ensures VerifyError(e, e.p.wotscCap, pk, m, sig)
         == if VerifyError(e, 0xFFFF, pk, m, sig) == OK && EffortOf(e, pk.value, m.Text(), sig.value) > e.p.wotscCap
            then BadSignature else VerifyError(e, 0xFFFF, pk, m, sig)
  {
    hide Verifies, SigEffort, SigLen;
    if pk.Some? && sig.Some? && |pk.value| == 2 * e.p.n && |sig.value| == SigBytes(e.p) {
      FlatOfSplit(sig.value, e.p.n, SigLen(e.p));
      SigLenHere(e.p);
      CappedVerifier(e, e.p.wotscCap, Split(sig.value, e.p.n), m.Text(), pk.value);
    }
  }

  lemma SigLenHere(p: Params)
    ensures SigLen(p) == 1 + ForsBlocks(p) + Hypertree.HtLen(p, p.d)
  {
  }

  // ---------- signing ----------

  /** What `bitcoin_pqc_sign` answers. BAD_SIGNATURE is not among the answers. */
  ghost function SignError(e: Engine, usable: bool, sk: Option<Bytes>, m: Message, refuse: bool): Error {
    if sk.None? || !usable || m.Bad() then BadArg
    else if |sk.value| != 4 * e.p.n then BadKey
    else if refuse then OutOfMemory
    else if !GoodKey(e, sk.value) then BadKey
    else if Signs(e, sk.value, m.Text()) then OK
    else SigningLimit
  }

  /** A session's signature passes the check that follows it, and any other with at least the signing cap. */
  lemma SelfCheckPasses(e: Engine, sk: Bytes, m: Bytes, v: nat)
    requires GoodKey(e, sk) && Signs(e, sk, m) && e.p.wotscCap <= v
    ensures Accepts(e, v, sk[2 * e.p.n..], m, Flat(SigFor(e, sk, m)))
  {
    hide Verifies, Signature, Succeeds, GoodKey, Hypertree.HtLen, ForsBlocks;
    assert |sk| == 4 * e.p.n by { KeyLength(e, sk); }
    var o := OptRand(e, sk, m);
    SignedMessagesVerify(e, sk, o, m, e.p.wotscCap, v);
    SignatureSized(e, sk, o, m, e.p.wotscCap);
    SigLenIs(e.p);
    SplitOfFlat(SigFor(e, sk, m), e.p.n);
  }

  lemma KeyLength(e: Engine, sk: Bytes)
    requires GoodKey(e, sk)
    ensures |sk| == 4 * e.p.n
  {
  }

  lemma SigForSized(e: Engine, sk: Bytes, m: Bytes)
    requires |sk| == 4 * e.p.n
    ensures |Flat(SigFor(e, sk, m))| == SigBytes(e.p)
  {
    hide Signature, Hypertree.HtLen, ForsBlocks;
    SignatureSized(e, sk, OptRand(e, sk, m), m, e.p.wotscCap);
    SigLenIs(e.p);
  }

  /**
   `bitcoin_pqc_sign` and `bitcoin_pqc_sign_with_stats`. The buffer is handed to the caller on
   success and returned to the allocator, wiped, otherwise. The answer is the one of
   `SignError`: after the argument checks a good key yields OK, SIGNING_LIMIT or
   OUT_OF_MEMORY, so neither the self-check nor the generic failure path is ever taken.
   */
  method Sign(e: Engine, avx2: bool, heap: Heap, tls: Thread, sk: Option<Bytes>, m: Message, out: Sig?,
      stats: SignStats?, refuse: bool)
    returns (err: Error)
    modifies heap, tls, if out == null then {} else {out}, if stats == null then {} else {stats}
    ensures err == SignError(e, out != null && old(out.Empty()), sk, m, refuse)
    ensures err == OK || err == SigningLimit ==> tls.Idle()
    ensures err != OK && err != SigningLimit ==>
      tls.source == old(tls.source) && tls.offset == old(tls.offset) && tls.failed == old(tls.failed)
        && tls.stats == old(tls.stats)
    ensures err != OK ==> heap.live == old(heap.live)
    ensures err != OK && out != null ==> out.signature == old(out.signature) && out.size == old(out.size)
    ensures err == OK ==>
      && out.signature != null && fresh(out.signature) && heap.live == old(heap.live) + {out.signature}
      && out.size == SigBytes(e.p) == |out.signature.data|
      && out.signature.data == Flat(SigFor(e, sk.value, m.Text()))
      && Accepts(e, 0xFFFF, sk.value[2 * e.p.n..], m.Text(), out.signature.data)
    ensures stats != null ==>
        stats.r == if err == OK || err == SigningLimit then StatsFor(e, sk.value, m.Text()) else old(stats.r)
  {
    hide Accepts, SigFor, StatsFor, GoodKey, Signs, SigBytes, SigLen, Flat;
    if sk.None? || out == null { return BadArg; }
    if m.Bad() { return BadArg; }
    if !out.Empty() { return BadArg; }
    if |sk.value| != 4 * e.p.n { return BadKey; }
    var pk := sk.value[2 * e.p.n..];
    var buf := heap.Alloc(SigBytes(e.p), refuse);
    if buf == null { return OutOfMemory; }
    var len := new SizeOut();
    var sig := new Bytes[SigLen(e.p)];  // the blocks of `buf`
    var rc := SignWithStats(e, avx2, tls, sig, len, Message(m.Text()), sk, stats);
    buf.data := Flat(sig[..]);
    SigForSized(e, sk.value, m.Text());
    if rc != 0 { ClearedSize(sig[..], e.p); }
    if rc != 0 || len.v != SigBytes(e.p) {
      heap.WipeAndFree(buf, SigBytes(e.p));
      err := if rc == W.LIMIT_EXCEEDED then SigningLimit else if rc == BAD_KEY then BadKey else BadSignature;
    } else {
      var check := SlhVerify(e, tls, buf.data, m.Text(), pk);
      if check != 0 {
        heap.WipeAndFree(buf, SigBytes(e.p));
        err := BadSignature;
      } else {
        out.signature, out.size := buf, len.v;
        err := OK;
      }
    }
    if rc == 0 { SelfCheckPasses(e, sk.value, m.Text(), 0xFFFF); }
  }

  /** The blocks of a cleared buffer are as many bytes as a signature. */
  lemma ClearedSize(blocks: seq<Bytes>, p: Params)
    requires Cleared(blocks, p.n) && |blocks| == SigLen(p)
    ensures |Flat(blocks)| == SigBytes(p)
  {
    hide SigLen;
    FlatLength(blocks, p.n);
  }

  /** `bitcoin_pqc_signature_free`. */
  method SignatureFree(heap: Heap, out: Sig?)
    requires out != null && out.signature != null ==> out.signature in heap.live && out.size <= |out.signature.data|
    modifies heap, if out == null then {} else {out}, if out == null || out.signature == null then {}
        else {out.signature}
    ensures out == null ==> heap.live == old(heap.live)
    ensures out != null ==> out.Empty() && heap.live == old(heap.live) - {old(out.signature)}
    ensures out != null && old(out.signature) != null ==>
      old(out.signature).data == Wiped(old(out.signature.data), old(out.size))
  {
    if out == null { return; }
    if out.signature != null {
      heap.WipeAndFree(out.signature, out.size);
      out.signature := null;
    }
    out.size := 0;
  }
}
