/**
 src/slh_dsa/sign.c, validate.c and utils.c: the signing session. It validates the key, derives
 the randomness from key and message, installs the thread-local random source and stats
 record, signs, and takes everything down again, clearing the output on every failure.
 */
module Session {
  import opened Bits
  import opened Engine
  import opened Stats
  import opened RandomSource
  import opened MerkleSign
  import opened Hypertree
  import opened Sign
  import opened Blocks
  import G = Grind
  import F = Fors
  import W = Wots

  datatype Option<T> = None | Some(value: T)

  /** A message pointer with its length: null with a claimed length, or a buffer. */
  datatype Message = NullMessage(len: nat) | Message(bytes: Bytes) {

    /** `(!m && mlen != 0)`. */
    predicate Bad() { NullMessage? && len != 0 }

    /** A null message of length zero is the empty message. */
    function Text(): Bytes { if Message? then bytes else [] }
  }

  /** SLH_DSA_SIGN_ERROR_BAD_KEY. */
  const BAD_KEY := -101

  // ---------- comparing and validating ----------

  function OrBits(a: nat, b: nat, n: nat): nat {
    if n == 0 then 0 else (if a % 2 == 1 || b % 2 == 1 then 1 else 0) + 2 * OrBits(a / 2, b / 2, n - 1)
  }

  lemma {:induction false} OrZero(a: nat, b: nat, n: nat)
    requires a < Pow2(n) && b < Pow2(n)
    ensures OrBits(a, b, n) == 0 <==> a == 0 && b == 0
    ensures OrBits(a, b, n) < Pow2(n)
    decreases n
  {
    if n > 0 { OrZero(a / 2, b / 2, n - 1); }
  }

  lemma XorZeroIff(a: byte, b: byte)
    ensures G.Xor(a, b) == 0 <==> a == b
  {
    SmallPowers();
    G.XorCancels(a, b, 8);
    G.XorZero(a, 8);
    G.XorCancels(a, 0, 8);
  }

  /** `bytes_equal`: differences are accumulated, never branched on. */
  method BytesEqual(lhs: Bytes, rhs: Bytes) returns (equal: bool)
    requires |lhs| == |rhs|
    ensures equal <==> lhs == rhs
  {
    hide G.Xor, OrBits, Pow2;
    SmallPowers();
    var diff: nat := 0;
    for i := 0 to |lhs|
      invariant diff < 256 && (diff == 0 <==> lhs[..i] == rhs[..i])
    {
      XorZeroIff(lhs[i], rhs[i]);
      OrZero(diff, G.Xor(lhs[i], rhs[i]), 8);
      diff := OrBits(diff, G.Xor(lhs[i], rhs[i]), 8);
      assert lhs[..i + 1] == lhs[..i] + [lhs[i]] && rhs[..i + 1] == rhs[..i] + [rhs[i]];
    }
    assert lhs[..|lhs|] == lhs && rhs[..|lhs|] == rhs;
    return diff == 0;
  }

  /** `slh_dsa_secret_key_validate`: accepts exactly the keys whose root matches their seeds. */
  method ValidateKey(e: Engine, avx2: bool, sk: Option<Bytes>) returns (rc: int)
    ensures rc == if sk.Some? && GoodKey(e, sk.value) then 0 else -1
  {
    hide SubtreeRoot;
    if sk.None? || |sk.value| != 4 * e.p.n { return -1; }
    var n, key := e.p.n, sk.value;
    var failed, root := MerkleGenRoot(e, Ctx(key[2 * n..3 * n], key[..n]), avx2);
    RootLength(e, CtxOf(e.p, key), e.p.d - 1, 0);
    var equal := BytesEqual(root, key[3 * n..]);
    return if equal then 0 else -1;
  }

  // ---------- derandomising ----------

  /** The 64 bytes that stand in for randomness: two chained hashes of key and message. */
  function SeedOf(e: Engine, m: Bytes, sk: Bytes): (r: Bytes)
    ensures |r| == 64
  {
    var d := e.sha256(sk + m);
    d + e.sha256(d + [1])
  }

  /** The first half is the hash of key and message, the second that of the first half and a one. */
  lemma SeedHashes(e: Engine, m: Bytes, sk: Bytes, x: Bytes, y: Bytes)
    requires |x| == |sk| + |m| && x[..|sk|] == sk && x[|sk|..] == m
    requires |y| == 33 && y[..32] == e.sha256(x) && y[32] == 1
    ensures SeedOf(e, m, sk)[..32] == e.sha256(x) && SeedOf(e, m, sk)[32..] == e.sha256(y)
  {
    assert x == sk + m && y == e.sha256(x) + [1];
  }

  /** `slh_dsa_derandomize`: a null argument marks the random source failed. */
  method Derandomize(e: Engine, tls: Thread, seed: array?<byte>, m: Message, sk: Option<Bytes>)
    requires seed != null ==> seed.Length == 64
    modifies tls`failed, if seed == null then {} else {seed}
    ensures seed != null ==> seed[..] == if m.Bad() || sk.None? then Zeros(64) else SeedOf(e, m.Text(), sk.value)
    ensures tls.failed == (old(tls.failed) || seed == null || m.Bad() || sk.None?)
  {
    if seed == null || m.Bad() || sk.None? {
      if seed != null {
        forall i | 0 <= i < 64 { seed[i] := 0; }
      }
      tls.failed := true;
      return;
    }
    var digest0 := e.sha256(sk.value + m.Text());
    var digest1 := e.sha256(digest0 + [1]);
    forall i | 0 <= i < 32 { seed[i] := digest0[i]; }
    forall i | 0 <= i < 32 { seed[32 + i] := digest1[i]; }
    assert seed[..] == digest0 + digest1;
  }

  // ---------- what a session does, without its state ----------

  /** The randomizer input of a session: the leading bytes of the derived seed. */
  function OptRand(e: Engine, sk: Bytes, m: Bytes): (r: Bytes)
    ensures |r| == e.p.n
  {
    SeedOf(e, m, sk)[..e.p.n]
  }

  /** A session with a good key signs rather than running into a cap. */
  ghost predicate Signs(e: Engine, sk: Bytes, m: Bytes)
    requires |sk| == 4 * e.p.n
  {
    Succeeds(e, sk, OptRand(e, sk, m), m, e.p.wotscCap)
  }

  /** The signature of a session: a function of key and message alone. */
  ghost function SigFor(e: Engine, sk: Bytes, m: Bytes): (s: seq<Bytes>)
    requires |sk| == 4 * e.p.n
    ensures |s| == SigLen(e.p)
  {
    Signature(e, sk, OptRand(e, sk, m), m, e.p.wotscCap)
  }

  ghost function StatsFor(e: Engine, sk: Bytes, m: Bytes): Rec
    requires |sk| == 4 * e.p.n
  {
    SessionRec(e, sk, OptRand(e, sk, m), m, Fresh(e.p.forscCap, e.p.wotscCap))
  }

  /** The return code of a session with usable pointers. */
  ghost function ResultFor(e: Engine, sk: Bytes, m: Bytes): (rc: int)
    requires |sk| == 4 * e.p.n
    ensures rc == 0 || rc == BAD_KEY || rc == W.LIMIT_EXCEEDED
  {
    if !GoodKey(e, sk) then BAD_KEY else if Signs(e, sk, m) then 0 else W.LIMIT_EXCEEDED
  }

  lemma CycleIsPrefix(data: Bytes, n: nat)
    requires data != [] && n <= |data|
    ensures Cycle(data, 0, n) == data[..n]
  {
    forall k | 0 <= k < n ensures Cycle(data, 0, n)[k] == data[..n][k] {
      CycleOffset(k, |data|);
    }
  }

  // ---------- the session ----------

  class SizeOut {
    var v: nat

    constructor ()
    {
      v := 0;
    }
  }

  ghost predicate Cleared(blocks: seq<Bytes>, n: nat) {
    forall i | 0 <= i < |blocks| :: blocks[i] == Zeros(n)
  }

  /** `bitcoin_pqc_secure_zero(sig, CRYPTO_BYTES)` and `*siglen = 0`, each only through a non-null pointer. */
  method ClearOutput(sig: array?<Bytes>, siglen: SizeOut?, n: nat)
    modifies if sig == null then {} else {sig}, if siglen == null then {} else {siglen}
    ensures sig != null ==> Cleared(sig[..], n)
    ensures siglen != null ==> siglen.v == 0
  {
    if sig != null {
      forall i | 0 <= i < sig.Length { sig[i] := Zeros(n); }
    }
    if siglen != null { siglen.v := 0; }
  }

  /**
   `slh_dsa_sign_with_stats`, from any state of the thread. The result, the signature and the
   record depend on key and message alone: not on the thread's history, not on whether the
   caller asked for the record, and not on the backend. A rejected call leaves the thread as it
   was, every other call leaves it idle.
   */
  method SignWithStats(e: Engine, avx2: bool, tls: Thread, sig: array?<Bytes>, siglen: SizeOut?, m: Message,
      sk: Option<Bytes>, stats: SignStats?)
    returns (rc: int)
    requires sig != null ==> sig.Length == SigLen(e.p)
    requires sk.Some? ==> |sk.value| == 4 * e.p.n
    modifies tls, if sig == null then {} else {sig}, if siglen == null then {} else {siglen}, if stats == null
        then {} else {stats}
    ensures rc == 0 || rc == W.LIMIT_EXCEEDED ==> tls.Idle()
    ensures rc == -1 || rc == BAD_KEY ==>
      tls.source == old(tls.source) && tls.offset == old(tls.offset) && tls.failed == old(tls.failed)
        && tls.stats == old(tls.stats)
    ensures sig == null || siglen == null || m.Bad() || sk.None? ==> rc == -1
    ensures sig != null && siglen != null && !m.Bad() && sk.Some? ==> rc == ResultFor(e, sk.value, m.Text())
    ensures rc == 0 ==> sig[..] == SigFor(e, sk.value, m.Text()) && siglen.v == SigBytes(e.p)
    ensures rc != 0 && sig != null ==> Cleared(sig[..], e.p.n)
    ensures rc != 0 && siglen != null ==> siglen.v == 0
    ensures stats != null && (rc == 0 || rc == W.LIMIT_EXCEEDED) ==> stats.r == StatsFor(e, sk.value, m.Text())
    ensures stats != null && (rc == -1 || rc == BAD_KEY) ==> stats.r == old(stats.r)
  {
    hide Succeeds, Signature, SessionRec, ForsBlocks, HtLen, Cycle, GoodKey, SeedOf;
    if sig == null || siglen == null || m.Bad() || sk.None? {
      ClearOutput(sig, siglen, e.p.n);
      return -1;
    }
    rc := ValidateKey(e, avx2, sk);
    if rc != 0 {
      ClearOutput(sig, siglen, e.p.n);
      return BAD_KEY;
    }
    var scratch := new SignStats();
    var active := if stats != null then stats else scratch;
    tls.ClearFailure();
    var seed := new byte[64];
    Derandomize(e, tls, seed, Message(m.Text()), sk);
    if tls.failed {
      assert false;  // the source clears the output and returns -1 here: deriving the seed cannot have failed
    }
    tls.InitSource(seed[..]);
    tls.BeginStats(active, e.p);
    CycleIsPrefix(seed[..], e.p.n);
    var len;
    rc, len := SignSignature(e, avx2, tls, sig, m.Text(), sk.value);
    siglen.v := len;
    var failed := tls.failed;
    tls.EndStats();
    tls.RestoreSource();
    if failed || rc != 0 {
      ClearOutput(sig, siglen, e.p.n);
      if failed { rc := -1; }
    }
  }

  // ---------- the record ----------

  /** The attempts of the layers a signer gets through, from layer `i` up. */
  ghost function Tried(e: Engine, c: Ctx, i: nat, msg: Bytes, tree: nat): (r: seq<nat>)
    requires i <= e.p.d
    ensures |r| <= e.p.d - i && forall x | x in r :: 1 <= x <= e.p.wotscCap + 1
    ensures |r| == e.p.d - i <==> CanSign(e, c, e.p.wotscCap, i, msg, tree)
    decreases e.p.d - i
  {
    if i == e.p.d || !W.Found(e, msg, e.p.wotscCap) then []
    else [W.Search(e, msg, 0, e.p.wotscCap) + 1] + Tried(e, c, i + 1, SubtreeRoot(e, c, i, tree), Above(e.p, tree))
  }

  lemma {:induction false} RecordCons(r: Rec, x: nat, rest: seq<nat>)
    ensures RecordAll(r, [x] + rest) == RecordAll(r.RecordWotsc(x), rest)
  {
    var all := [x] + rest;
    if rest == [] {
      assert all[..0] == [] && RecordAll(r, []) == r;
    } else {
      var n := |rest| - 1;
      assert all[..|all| - 1] == [x] + rest[..n];
      RecordCons(r, x, rest[..n]);
    }
  }

  /** The searches a signer records: those it got through and, if it stopped, the one at the cap. */
  ghost function Recorded(e: Engine, c: Ctx, i: nat, msg: Bytes, tree: nat): (r: seq<nat>)
    requires i <= e.p.d
    ensures |r| <= e.p.d - i && forall x | x in r :: 1 <= x <= e.p.wotscCap + 1
  {
    Tried(e, c, i, msg, tree) + (if CanSign(e, c, e.p.wotscCap, i, msg, tree) then [] else [e.p.wotscCap + 1])
  }

  lemma RecordEnd(r: Rec)
    ensures RecordAll(r, []) == r
  {
  }

  lemma {:induction false} SignedRecIs(e: Engine, c: Ctx, i: nat, msg: Bytes, tree: nat, was: Rec)
    requires i <= e.p.d
    ensures SignedRec(e, c, i, msg, tree, was)
         == var r := RecordAll(was, Recorded(e, c, i, msg, tree));
            if CanSign(e, c, e.p.wotscCap, i, msg, tree) then r else r.RecordWotscCap()
    decreases e.p.d - i
  {
    hide SubtreeRoot, Above, W.Search, RecordAll;
    var r := Recorded(e, c, i, msg, tree);
    if i == e.p.d {
      RecordEnd(was);
    } else if W.Found(e, msg, e.p.wotscCap) {
      var x, root, above := W.Search(e, msg, 0, e.p.wotscCap) + 1, SubtreeRoot(e, c, i, tree), Above(e.p, tree);
      SignedRecIs(e, c, i + 1, root, above, was.RecordWotsc(x));
      assert r == [x] + Recorded(e, c, i + 1, root, above);
      RecordCons(was, x, Recorded(e, c, i + 1, root, above));
    } else {
      var cap := e.p.wotscCap + 1;
      assert r == [cap] + [];
      RecordCons(was, cap, []);
      RecordEnd(was.RecordWotsc(cap));
    }
  }

  lemma {:induction false} RecordForscCommutes(r: Rec, x: nat, layers: seq<nat>)
    ensures RecordAll(r.RecordForsc(x), layers) == RecordAll(r, layers).RecordForsc(x)
  {
    if layers != [] { RecordForscCommutes(r, x, layers[..|layers| - 1]); }
  }

  /** What the fields of a record say after the grind settled on salt `no` and the searches `tried`. */
  ghost predicate Reports(p: Params, r: Rec, no: nat, tried: seq<nat>) {
    && r.forscAttempts == no + 1 <= r.forscMax == p.forscCap && !r.forscCapped
    && r.layerCount == |tried| <= |r.wotscAttempts| && r.wotscAttempts[..|tried|] == tried
    && (forall x | x in tried :: 1 <= x <= r.wotscMax) && r.wotscMax == p.wotscCap + 1
    && IsMax(r.maxObserved, tried)
  }

  /** The layers part of a session. */
  ghost function SearchesOf(e: Engine, sk: Bytes, m: Bytes): (r: seq<nat>)
    requires |sk| == 4 * e.p.n
    ensures |r| <= e.p.d && forall x | x in r :: 1 <= x <= e.p.wotscCap + 1
  {
    var o, c := OptRand(e, sk, m), CtxOf(e.p, sk);
    var d := SaltedDigest(e, sk, o, m);
    var tree, leaf := G.TreeIndex(e.p, d), G.LeafIndex(e.p, d);
    Recorded(e, c, 0, F.ForsPk(e, c, tree, leaf), tree)
  }

  lemma SearchesAre(e: Engine, sk: Bytes, m: Bytes)
    requires |sk| == 4 * e.p.n && SaltNo(e, sk, OptRand(e, sk, m), m) < e.p.forscCap && e.p.d <= LAYERS
    ensures Reports(e.p, StatsFor(e, sk, m), SaltNo(e, sk, OptRand(e, sk, m), m), SearchesOf(e, sk, m))
    ensures StatsFor(e, sk, m).wotscCapped <==> !Signs(e, sk, m)
    ensures Signs(e, sk, m) ==> |SearchesOf(e, sk, m)| == e.p.d
    ensures !Signs(e, sk, m) ==> var s := SearchesOf(e, sk, m); s != [] && s[|s| - 1] == e.p.wotscCap + 1
  {
    hide SaltNo, SaltedDigest, G.TreeIndex, G.LeafIndex, F.ForsPk, RecordAll, CanSign, OptRand, GoodKey, IsMax,
      SignedRec, Tried;
    var o := OptRand(e, sk, m);
    var d, c, no := SaltedDigest(e, sk, o, m), CtxOf(e.p, sk), SaltNo(e, sk, o, m);
    var tree, leaf := G.TreeIndex(e.p, d), G.LeafIndex(e.p, d);
    var pk := F.ForsPk(e, c, tree, leaf);
    var fresh', tried := Fresh(e.p.forscCap, e.p.wotscCap), Recorded(e, c, 0, pk, tree);
    SignedRecIs(e, c, 0, pk, tree, fresh'.RecordForsc(no + 1));
    RecordForscCommutes(fresh', no + 1, tried);
    RecordAllExact(e.p.forscCap, e.p.wotscCap, tried);
  }

  /** A successful session records exactly one search per layer, each within its cap, their maximum, and no cap flag. */
  lemma SuccessRecord(e: Engine, sk: Bytes, m: Bytes)
    requires |sk| == 4 * e.p.n && Signs(e, sk, m) && e.p.d <= LAYERS
    ensures var r := StatsFor(e, sk, m);
            && Reports(e.p, r, SaltNo(e, sk, OptRand(e, sk, m), m), SearchesOf(e, sk, m))
            && r.layerCount == e.p.d && !r.forscCapped && !r.wotscCapped
  {
    hide SaltNo, StatsFor, SearchesOf, OptRand, Signable;
    SearchesAre(e, sk, m);
  }

  /**
   A session that runs into a cap says which: either every salt was tried and no layer was
   started, or the last search recorded is the one that reached its cap, and it is the maximum.
   */
  lemma LimitRecord(e: Engine, sk: Bytes, m: Bytes)
    requires |sk| == 4 * e.p.n && !Signs(e, sk, m) && e.p.d <= LAYERS
    ensures var r, no, tried := StatsFor(e, sk, m), SaltNo(e, sk, OptRand(e, sk, m), m), SearchesOf(e, sk, m);
            if no == e.p.forscCap
            then r.forscCapped && !r.wotscCapped && r.forscAttempts == e.p.forscCap && r.layerCount == 0
              && r.maxObserved == 0
            else && Reports(e.p, r, no, tried) && r.wotscCapped
                 && 1 <= r.layerCount <= e.p.d && tried[r.layerCount - 1] == e.p.wotscCap + 1 == r.maxObserved
  {
    hide SearchesOf, OptRand, Signable, SignedRec, G.FirstGood;
    if SaltNo(e, sk, OptRand(e, sk, m), m) < e.p.forscCap {
      SearchesAre(e, sk, m);
      var tried := SearchesOf(e, sk, m);
      assert tried[|tried| - 1] in tried;
    }
  }

  // ---------- runs ----------

  datatype SignCall = SignCall(m: Message, sk: Option<Bytes>, wantStats: bool, avx2: bool)

  /** What a call returns: its code, the signature buffer afterwards, and the length written. */
  datatype Reply = Reply(rc: int, sig: seq<Bytes>, len: nat)

  /** The reply to a call, computed from the call alone. */
  ghost function ReplyTo(e: Engine, call: SignCall): Reply
    requires call.sk.Some? ==> |call.sk.value| == 4 * e.p.n
  {
    var cleared := seq(SigLen(e.p), _ => Zeros(e.p.n));
    if call.m.Bad() || call.sk.None? then Reply(-1, cleared, 0)
    else
      var rc := ResultFor(e, call.sk.value, call.m.Text());
      if rc == 0 then Reply(0, SigFor(e, call.sk.value, call.m.Text()), SigBytes(e.p)) else Reply(rc, cleared, 0)
  }

  ghost predicate WellFormed(e: Engine, calls: seq<SignCall>) {
    forall i | 0 <= i < |calls| :: calls[i].sk.Some? ==> |calls[i].sk.value| == 4 * e.p.n
  }

  ghost predicate Answered(e: Engine, calls: seq<SignCall>, replies: seq<Reply>)
    requires WellFormed(e, calls)
  {
    |replies| <= |calls| && forall i | 0 <= i < |replies| :: replies[i] == ReplyTo(e, calls[i])
  }

  lemma ClearedIs(blocks: seq<Bytes>, n: nat)
    requires Cleared(blocks, n)
    ensures blocks == seq(|blocks|, _ => Zeros(n))
  {
  }

  /** One call of a run, into a buffer and a record that earlier calls may have used. */
  method Serve(e: Engine, tls: Thread, sig: array<Bytes>, siglen: SizeOut, record: SignStats, call: SignCall)
      returns (reply: Reply)
    requires sig.Length == SigLen(e.p) && (call.sk.Some? ==> |call.sk.value| == 4 * e.p.n) && tls.Idle()
    modifies tls, sig, siglen, record
    ensures tls.Idle() && reply == ReplyTo(e, call)
  {
    hide ResultFor, SigFor, StatsFor, SigLen, SigBytes;
    var rc := SignWithStats(e, call.avx2, tls, sig, siglen, call.m, call.sk, if call.wantStats then record else null);
    if rc != 0 { ClearedIs(sig[..], e.p.n); }
    reply := Reply(rc, sig[..], siglen.v);
  }

  /**
   Safety over every run of signing calls on one thread, good and bad, with and without the
   record, on either backend: the thread is idle between calls, and each reply is what the
   call would have got on its own.
   */
  method Run(e: Engine, tls: Thread, calls: seq<SignCall>) returns (replies: seq<Reply>)
    requires WellFormed(e, calls) && tls.Idle()
    modifies tls
    ensures tls.Idle() && |replies| == |calls| && Answered(e, calls, replies)
  {
    hide ReplyTo, SigLen;
    var sig := new Bytes[SigLen(e.p)];
    var siglen := new SizeOut();
    var record := new SignStats();
    replies := [];
    for i := 0 to |calls|
      invariant tls.Idle() && |replies| == i && Answered(e, calls, replies) && sig.Length == SigLen(e.p)
    {
      var reply := Serve(e, tls, sig, siglen, record, calls[i]);
      replies := replies + [reply];
    }
  }
}
