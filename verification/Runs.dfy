/**
 Runs of the public interface: any sequence of calls, with any arguments and any refusals of
 the allocator, on one thread that keeps one key pair, one signature structure and one record.
 */
module Runs {
  import opened Bits
  import opened Engine
  import opened Stats
  import opened RandomSource
  import opened Session
  import opened Blocks
  import opened Api
  import S = Sign

  datatype Call =
    | CallKeygen(random: Option<Bytes>, refusePk: bool, refuseSk: bool, refuseSeed: bool)
    | CallValidate(sk: Option<Bytes>)
    | CallSign(sk: Option<Bytes>, m: Message, withStats: bool, refuse: bool)  // with a key of the caller's own
    | CallSignHere(m: Message, withStats: bool, refuse: bool)                 // with the key pair of the client
    | CallVerify(pk: Option<Bytes>, m: Message, sig: Option<Bytes>)
    | CallKeypairFree
    | CallSignatureFree

  /** No signing call of a run has answered BAD_SIGNATURE. */
  predicate NoBadSignature(calls: seq<Call>, errs: seq<Error>) {
    |errs| <= |calls| &&
    forall i | 0 <= i < |errs| :: calls[i].CallSign? || calls[i].CallSignHere? ==> errs[i] != BadSignature
  }

  class Client {
    const e: Engine
    const heap: Heap
    const tls: Thread
    const keys: KeyPair
    const sig: Sig
    const record: SignStats

    constructor (e: Engine)
      ensures Valid() && fresh(Repr()) && heap.live == {} && this.e == e
    {
      this.e := e;
      heap := new Heap();
      tls := new Thread();
      keys := new KeyPair();
      sig := new Sig();
      record := new SignStats();
    }

    function Repr(): set<object>
      reads this, keys, sig
    {
      {this, heap, tls, keys, sig, record} + keys.Owned() + Held()
    }

    function Held(): set<Buffer>
      reads sig
    {
      if sig.signature == null then {} else {sig.signature}
    }

    /** The key pair is empty or complete and consistent, with its buffers' sizes. */
    ghost predicate KeysValid()
      reads this, keys, keys.Owned()
    {
      keys.Empty() ||
      (&& keys.publicKey != null && keys.secretKey != null && keys.publicKey != keys.secretKey
       && keys.publicSize == |keys.publicKey.data| && keys.secretSize == |keys.secretKey.data|
       && S.GoodKey(e, keys.secretKey.data) && keys.publicKey.data == keys.secretKey.data[2 * e.p.n..])
    }

    /**
     What every run keeps: no session is open on the thread, the live buffers are exactly
     those the two structures own, none is owned twice, and every size is that of its buffer.
     */
    ghost predicate Valid()
      reads this, heap, tls, keys, sig, keys.Owned(), Held()
    {
      && tls.Idle()
      && heap.live == keys.Owned() + Held() && keys.Owned() !! Held()
      && KeysValid()
      && sig.size == (if sig.signature == null then 0 else |sig.signature.data|)
    }

    method GenerateKeys(avx2: bool, random: Option<Bytes>, refusePk: bool, refuseSk: bool, refuseSeed: bool)
    returns (err: Error)
      requires Valid() && 3 * e.p.n <= 64
      modifies Repr()
      ensures Valid() && fresh(Repr() - old(Repr()))
      ensures err == KeygenError(old(keys.Empty()), random, refusePk, refuseSk, refuseSeed)
      ensures err == OK ==> keys.secretKey != null && keys.secretKey.data[..3 * e.p.n] == KeygenSeed(e, random.value)
    {
      hide S.GoodKey, KeygenSeed;
      err := Keygen(e, avx2, heap, keys, random, refusePk, refuseSk, refuseSeed);
    }

    method SignMessage(avx2: bool, sk: Option<Bytes>, m: Message, withStats: bool, refuse: bool) returns (err: Error)
      requires Valid()
      modifies Repr()
      ensures Valid() && fresh(Repr() - old(Repr()))
      ensures err == SignError(e, old(sig.Empty()), sk, m, refuse)
      ensures withStats && (err == OK || err == SigningLimit) ==> record.r == StatsFor(e, sk.value, m.Text())
      ensures err == OK ==> sig.signature != null && sig.signature.data == Flat(SigFor(e, sk.value, m.Text()))
    {
      hide S.GoodKey, Accepts, Signs, SigFor, StatsFor, Flat, SigBytes;
      ghost var owned := keys.Owned();
      err := Api.Sign(e, avx2, heap, tls, sk, m, sig, if withStats then record else null, refuse);
      assert keys.Owned() == owned;
    }

    method FreeKeys()
      requires Valid()
      modifies Repr()
      ensures Valid() && fresh(Repr() - old(Repr()))
      ensures keys.Empty() && heap.live == Held() == old(Held())
      ensures forall b | b in old(keys.Owned()) :: b.data == Zeros(old(|b.data|))
    {
      KeypairFree(heap, keys);
    }

    method FreeSignature()
      requires Valid()
      modifies Repr()
      ensures Valid() && fresh(Repr() - old(Repr()))
      ensures sig.Empty() && heap.live == keys.Owned() == old(keys.Owned())
      ensures forall b | b in old(Held()) :: b.data == Zeros(old(|b.data|))
    {
      hide S.GoodKey;
      SignatureFree(heap, sig);
    }

    /** One public call. */
    method Step(call: Call, avx2: bool) returns (err: Error)
      requires Valid() && 3 * e.p.n <= 64
      modifies Repr()
      ensures Valid() && fresh(Repr() - old(Repr()))
      ensures call.CallKeygen? ==>
        err == KeygenError(old(keys.Empty()), call.random, call.refusePk, call.refuseSk, call.refuseSeed)
      ensures call.CallValidate? ==>
        err == if call.sk.None? then BadArg else if S.GoodKey(e, call.sk.value) then OK else BadKey
      ensures call.CallSign? ==> err == SignError(e, old(sig.Empty()), call.sk, call.m, call.refuse)
      ensures call.CallSign? || call.CallSignHere? ==> err != BadSignature
      ensures call.CallSignHere? && !call.m.Bad() && old(keys.secretKey != null && sig.Empty()) ==>
        err in {OK, SigningLimit, OutOfMemory}
      ensures call.CallVerify? ==> err == VerifyError(e, 0xFFFF, call.pk, call.m, call.sig)
      ensures call.CallKeypairFree? ==> keys.Empty() && heap.live == Held() == old(Held())
      ensures call.CallSignatureFree? ==> sig.Empty() && heap.live == keys.Owned() == old(keys.Owned())
    {
      hide S.GoodKey, Accepts, Signs, KeygenSeed, StatsFor, SigFor, Flat;
      match call
      case CallKeygen(random, r1, r2, r3) =>
        err := GenerateKeys(avx2, random, r1, r2, r3);
      case CallValidate(sk) =>
        err := SecretKeyValidate(e, avx2, sk);
      case CallSign(sk, m, withStats, refuse) =>
        err := SignMessage(avx2, sk, m, withStats, refuse);
      case CallSignHere(m, withStats, refuse) =>
        var sk := if keys.secretKey == null then None else Some(keys.secretKey.data);
        if keys.secretKey != null { KeyLength(e, keys.secretKey.data); }
        err := SignMessage(avx2, sk, m, withStats, refuse);
      case CallVerify(pk, m, s) =>
        err := Verify(e, tls, pk, m, s);
      case CallKeypairFree =>
        FreeKeys();
        err := OK;
      case CallSignatureFree =>
        FreeSignature();
        err := OK;
    }

    /** The invariant holds after every run, and freeing both structures leaves nothing live. */
    method Run(calls: seq<Call>, avx2: bool) returns (errs: seq<Error>)
      requires Valid() && 3 * e.p.n <= 64
      modifies Repr()
      ensures Valid() && |errs| == |calls| && heap.live == {}
      ensures NoBadSignature(calls, errs)
    {
      hide Valid;
      errs := [];
      for i := 0 to |calls|
        invariant Valid() && |errs| == i && fresh(Repr() - old(Repr()))
        invariant NoBadSignature(calls, errs)
      {
        var err := Step(calls[i], avx2);
        errs := errs + [err];
      }
      var _ := Step(CallKeypairFree, avx2);
      var _ := Step(CallSignatureFree, avx2);
    }
  }

  /** Generate, sign, verify: whenever the first two succeed, the third does, on either backend. */
  method RoundTrip(e: Engine, avx2: bool, avx2': bool, random: Bytes, m: Message)
      returns (made: Error, signed: Error, checked: Error)
    requires 3 * e.p.n <= 64
    ensures made == OK && signed == OK ==> checked == OK
    ensures made == OK ==> signed in {OK, SigningLimit} || m.Bad()
    ensures made == OK <==> KEYGEN_MIN <= |random| <= SIZE_MAX - 65
  {
    hide S.GoodKey, Accepts, Signs, SigFor, StatsFor, KeygenSeed, Flat, SigBytes;
    var heap := new Heap();
    var tls := new Thread();
    var keys := new KeyPair();
    var sig := new Sig();
    made := Keygen(e, avx2, heap, keys, Some(random), false, false, false);
    signed, checked := BadArg, BadArg;
    if made != OK { return; }
    KeyLength(e, keys.secretKey.data);
    signed := Api.Sign(e, avx2', heap, tls, Some(keys.secretKey.data), m, sig, null, false);
    if signed != OK { return; }
    checked := Verify(e, tls, Some(keys.publicKey.data), m, Some(sig.signature.data));
  }
}
