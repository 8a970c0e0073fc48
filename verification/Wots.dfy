/**
 wots.c: WOTS+C. The message is re-hashed with a counter until its base-w digits have a fixed
 sum, so that no checksum chains are needed. The signer searches under a cap, the verifier
 over the whole two-byte counter range.
 */
module Wots {
  import opened Bits
  import opened Address
  import opened Engine
  import opened Spec
  import opened Stats

  /** BITCOINPQC_SIGN_LIMIT_EXCEEDED. */
  const LIMIT_EXCEEDED := -100

  // ---------- base-w digits ----------

  function Digit(p: Params, b: Bytes, i: nat): (r: nat)
    requires p.Valid() && |b| == p.n && i < p.Len()
    ensures r < p.w
  {
    if p.w == 256 then b[i] else if i % 2 == 0 then b[i / 2] / 16 else b[i / 2] % 16
  }

  function Digits(p: Params, b: Bytes): (r: seq<nat>)
    requires p.Valid() && |b| == p.n
    ensures |r| == p.Len() && forall x | x in r :: x < p.w
  {
    seq(p.Len(), i requires 0 <= i < p.Len() => Digit(p, b, i))
  }

  /** `base_w`: takes `logw` bits at a time off the front of the input. */
  method BaseW(p: Params, input: Bytes) returns (output: seq<nat>)
    requires p.Valid() && |input| == p.n
    ensures output == Digits(p, input)
  {
    hide Params.Target, Params.TreeBits;
    var at, bits, total := 0, 0, 0;
    output := [];
    while |output| < p.Len()
      invariant |output| <= p.Len() && output == Digits(p, input)[..|output|]
      invariant p.w == 256 ==> bits == 0 && at == |output|
      invariant p.w == 16 ==> bits == (if |output| % 2 == 0 then 0 else 4) && at == (|output| + 1) / 2
      invariant bits > 0 ==> total == input[at - 1]
      decreases p.Len() - |output|
    {
      if bits == 0 {
        total := input[at];
        at := at + 1;
        bits := 8;
      }
      bits := bits - p.LogW();
      var digit := total / (if bits == 0 then 1 else 16) % p.w;
      assert digit == Digit(p, input, |output|);
      output := output + [digit];
    }
  }

  // ---------- the counter search ----------

  function Sum(s: seq<nat>): nat {
    if s == [] then 0 else Sum(s[..|s| - 1]) + s[|s| - 1]
  }

  /** The distance of the digits from the chain tops: the checksum the search fixes. */
  function Checksum(p: Params, lens: seq<nat>): int {
    if lens == [] then 0 else Checksum(p, lens[..|lens| - 1]) + (p.w - 1 - lens[|lens| - 1])
  }

  /** The candidate message for a counter. */
  function Compress(e: Engine, msg: Bytes, counter: nat): (r: Bytes)
    ensures |r| == e.p.n
  {
    e.sha256(msg + [counter / 256 % 256, counter % 256])[..e.p.n]
  }

  predicate Hit(e: Engine, msg: Bytes, counter: nat) {
    Checksum(e.p, Digits(e.p, Compress(e, msg, counter))) == e.p.Target()
  }

  /** The bytes hashed are the message and the counter, most significant byte first. */
  lemma CompressHashes(e: Engine, msg: Bytes, counter: nat, x: Bytes)
    requires counter < 0x1_0000 && |x| == |msg| + 2 && x[..|msg|] == msg && FromBE(x[|msg|..]) == counter
    ensures Compress(e, msg, counter) == e.sha256(x)[..e.p.n]
  {
    hide BE, FromBE;
    var tail := x[|msg|..];
    BEOfFromBE(tail);
    assert BE(counter, 2) == [counter / 256 % 256, counter % 256] by {
      BEUnfold(counter, 2);
      BEUnfold(counter / 256, 1);
      BEUnfold(counter / 256 / 256, 0);
    }
    assert x == msg + tail;
  }

  /** What is hashed for a counter. */
  function Input(msg: Bytes, counter: nat): Bytes { msg + BE(counter, 2) }

  /**
   Binding: equal candidate messages of different messages, or of different counters, are an
   explicit pair of different inputs with the same truncated hash.
   */
  lemma CompressBinds(e: Engine, msg: Bytes, counter: nat, msg': Bytes, counter': nat)
    requires |msg| == |msg'| && counter < 0x1_0000 && counter' < 0x1_0000 && (msg, counter) != (msg', counter')
    requires Compress(e, msg, counter) == Compress(e, msg', counter')
    ensures var x, y := Input(msg, counter), Input(msg', counter');
            x != y && e.sha256(x)[..e.p.n] == e.sha256(y)[..e.p.n]
  {
    hide BE, FromBE;
    var x, y := Input(msg, counter), Input(msg', counter');
    TwoBytes(counter);
    TwoBytes(counter');
    assert x[..|msg|] == msg && y[..|msg|] == msg' && x[|msg|..] == BE(counter, 2) && y[|msg|..] == BE(counter', 2);
    CompressHashes(e, msg, counter, x);
    CompressHashes(e, msg', counter', y);
  }

  lemma TwoBytes(counter: nat)
    requires counter < 0x1_0000
    ensures FromBE(BE(counter, 2)) == counter
  {
    assert Pow256(2) == 0x1_0000;
    FromBEOfBE(counter, 2);
  }

  /** The digits are those of the input, most significant first: the input can be read back from them. */
  lemma DigitsReadBack(p: Params, b: Bytes, i: nat)
    requires p.Valid() && |b| == p.n && i < p.n
    ensures p.w == 256 ==> Digits(p, b)[i] == b[i]
    ensures p.w == 16 ==> 16 * Digits(p, b)[2 * i] + Digits(p, b)[2 * i + 1] == b[i]
  {
    hide Params.TreeBits;
  }

  /** Different candidate messages have different chain lengths. */
  lemma DigitsInjective(p: Params, b: Bytes, b': Bytes)
    requires p.Valid() && |b| == |b'| == p.n && Digits(p, b) == Digits(p, b')
    ensures b == b'
  {
    hide Digits, Params.Valid;
    forall i | 0 <= i < p.n ensures b[i] == b'[i] {
      DigitsReadBack(p, b, i);
      DigitsReadBack(p, b', i);
      assert p.w == 16 || p.w == 256 by { EitherW(p); }
    }
  }

  lemma EitherW(p: Params)
    requires p.Valid()
    ensures p.w == 16 || p.w == 256
  {
  }

  /** The least counter from `from` up to `cap` that hits the target, or `cap + 1`. */
  ghost function Search(e: Engine, msg: Bytes, from: nat, cap: nat): (r: nat)
    requires from <= cap + 1
    ensures from <= r <= cap + 1
    ensures forall x | from <= x < r :: !Hit(e, msg, x)
    ensures r <= cap ==> Hit(e, msg, r)
    decreases cap + 1 - from
  {
    if from == cap + 1 || Hit(e, msg, from) then from else Search(e, msg, from + 1, cap)
  }

  /** Raising the cap never changes a search that succeeded. */
  lemma {:induction false} SearchMonotone(e: Engine, msg: Bytes, cap: nat, cap': nat)
    requires cap <= cap' && Search(e, msg, 0, cap) <= cap
    ensures Search(e, msg, 0, cap') == Search(e, msg, 0, cap)
  {
    hide Hit;
    var r, r' := Search(e, msg, 0, cap), Search(e, msg, 0, cap');
    assert Hit(e, msg, r);
    assert r' <= r;
    assert Hit(e, msg, r');
  }

  /** The chain lengths both sides sign and verify with, when the search under `cap` succeeds. */
  ghost function Lengths(e: Engine, msg: Bytes, cap: nat): (r: seq<nat>)
    ensures |r| == e.p.Len() && forall x | x in r :: x < e.p.w
  {
    Digits(e.p, Compress(e, msg, Search(e, msg, 0, cap)))
  }

  ghost predicate Found(e: Engine, msg: Bytes, cap: nat) {
    Search(e, msg, 0, cap) <= cap
  }

  lemma {:induction false} ChecksumIsSum(p: Params, lens: seq<nat>)
    ensures Checksum(p, lens) == (p.w - 1) * |lens| - Sum(lens)
  {
    if lens != [] {
      ChecksumIsSum(p, lens[..|lens| - 1]);
      MulSucc(p.w - 1, |lens| - 1);
    }
  }

  lemma MulSucc(a: int, b: int)
    ensures a * (b + 1) == a * b + a
  {
  }

  lemma {:induction false} SumDominated(x: seq<nat>, y: seq<nat>)
    requires |x| == |y| && forall i | 0 <= i < |x| :: x[i] <= y[i]
    ensures Sum(x) <= Sum(y)
    ensures Sum(x) == Sum(y) ==> x == y
  {
    if x != [] {
      var n := |x| - 1;
      SumDominated(x[..n], y[..n]);
      assert x == x[..n] + [x[n]] && y == y[..n] + [y[n]];
    }
  }

  /**
   Why the checksum chains can be dropped: of two different accepted length vectors neither is
   dominated by the other, so no signature can be advanced along the chains into another.
   */
  lemma NoDomination(e: Engine, msg: Bytes, msg': Bytes, c: nat, c': nat)
    requires Hit(e, msg, c) && Hit(e, msg', c')
    ensures var x, y := Digits(e.p, Compress(e, msg, c)), Digits(e.p, Compress(e, msg', c'));
            x == y || ((exists i :: 0 <= i < |x| && x[i] < y[i]) && (exists i :: 0 <= i < |x| && y[i] < x[i]))
  {
    var x, y := Digits(e.p, Compress(e, msg, c)), Digits(e.p, Compress(e, msg', c'));
    ChecksumIsSum(e.p, x);
    ChecksumIsSum(e.p, y);
    if forall i | 0 <= i < |x| :: x[i] <= y[i] { SumDominated(x, y); }
    if forall i | 0 <= i < |x| :: y[i] <= x[i] { SumDominated(y, x); }
  }

  /** `wotsc_hash_counter`. */
  method HashCounter(e: Engine, msg: Bytes, counter: nat) returns (compressed: Bytes, checksum: int)
    ensures compressed == Compress(e, msg, counter)
    ensures checksum == Checksum(e.p, Digits(e.p, compressed))
  {
    var hashIn := msg + [counter / 256 % 256, counter % 256];
    compressed := e.sha256(hashIn)[..e.p.n];
    var lengths := BaseW(e.p, compressed);
    checksum := 0;
    var i := 0;
    while i < |lengths|
      invariant 0 <= i <= |lengths| && checksum == Checksum(e.p, lengths[..i])
    {
      assert lengths[..i + 1][..i] == lengths[..i];
      checksum := checksum + (e.p.w - 1 - lengths[i]);
      i := i + 1;
    }
    assert lengths[..i] == lengths;
  }

  /** `wotsc_compress_message_checked_bounded`: the least hit, counted into the stats of the session. */
  method CompressBounded(e: Engine, msg: Bytes, maxCounter: nat, cur: SignStats?)
      returns (rc: int, compressed: Bytes, counter: nat)
    modifies if cur == null then {} else {cur}
    ensures rc == if Found(e, msg, maxCounter) then 0 else LIMIT_EXCEEDED
    ensures rc == 0 ==> counter == Search(e, msg, 0, maxCounter) && compressed == Compress(e, msg, counter)
    ensures cur != null && rc == 0 ==> cur.r == old(cur.r).RecordWotsc(counter + 1)
    ensures cur != null && rc != 0 ==> cur.r == old(cur.r).RecordWotsc(maxCounter + 1).RecordWotscCap()
  {
    hide Hit, Compress;
    counter := 0;
    while true
      invariant counter <= maxCounter && Search(e, msg, 0, maxCounter) == Search(e, msg, counter, maxCounter)
      invariant cur != null ==> cur.r == old(cur.r)
      decreases maxCounter - counter
    {
      var attempts := counter + 1;
      var checksum;
      compressed, checksum := HashCounter(e, msg, counter);
      HitIs(e, msg, counter);
      if checksum == e.p.Target() {
        if cur != null { cur.r := cur.r.RecordWotsc(attempts); }
        return 0, compressed, counter;
      }
      if counter == maxCounter {
        if cur != null {
          cur.r := cur.r.RecordWotsc(attempts);
          cur.r := cur.r.RecordWotscCap();
        }
        return LIMIT_EXCEEDED, compressed, counter;
      }
      counter := counter + 1;
    }
  }

  lemma HitIs(e: Engine, msg: Bytes, counter: nat)
    ensures Hit(e, msg, counter) <==> Checksum(e.p, Digits(e.p, Compress(e, msg, counter))) == e.p.Target()
  {
  }

  /** The cap in force: the signing cap inside a stats session, the full two-byte range outside. */
  function Cap(p: Params, cur: SignStats?): nat {
    if cur != null then p.wotscCap else 0xFFFF
  }

  /** The record after one search inside a stats session, successful or not. */
  ghost function SearchRec(e: Engine, msg: Bytes, was: Rec): Rec {
    if Found(e, msg, e.p.wotscCap) then was.RecordWotsc(Search(e, msg, 0, e.p.wotscCap) + 1)
    else was.RecordWotsc(e.p.wotscCap + 1).RecordWotscCap()
  }

  /** `chain_lengths`. */
  method ChainLengths(e: Engine, msg: Bytes, cur: SignStats?) returns (rc: int, lengths: seq<nat>)
    modifies if cur == null then {} else {cur}
    ensures rc == if Found(e, msg, Cap(e.p, cur)) then 0 else LIMIT_EXCEEDED
    ensures rc == 0 ==> lengths == Lengths(e, msg, Cap(e.p, cur))
    ensures cur != null ==> cur.r == SearchRec(e, msg, old(cur.r))
  {
    lengths := [];
    var compressed, counter;
    rc, compressed, counter := CompressBounded(e, msg, Cap(e.p, cur), cur);
    if rc != 0 { return; }
    lengths := BaseW(e.p, compressed);
  }

  /** A search under a smaller cap succeeds exactly if the larger search ends within it. */
  lemma CappedSearch(e: Engine, msg: Bytes, v: nat, v': nat)
    requires v <= v'
    ensures Search(e, msg, 0, v') <= v <==> Found(e, msg, v)
  {
    hide Hit;
    if Found(e, msg, v) {
      SearchMonotone(e, msg, v, v');
    }
  }

  /** A verifier whose range is at least the signer's cap finds what a signer that succeeded found. */
  lemma SignerAndVerifierAgree(e: Engine, msg: Bytes, cap: nat, v: nat)
    requires cap <= v && Found(e, msg, cap)
    ensures Found(e, msg, v) && Search(e, msg, 0, v) == Search(e, msg, 0, cap)
        && Lengths(e, msg, v) == Lengths(e, msg, cap)
  {
    SearchMonotone(e, msg, cap, v);
  }

  // ---------- completing the chains ----------

  /** `steps` hashes along chain `i` from value `v` at position `start`. */
  ghost function Advance(e: Engine, pub: Bytes, layer: nat, tree: nat, kp: nat, i: nat, v: Bytes, start: nat,
      steps: nat): Bytes
    decreases steps
  {
    if steps == 0 then v
    else e.thash(pub, ChainPos(layer, tree, WOTS, kp, i, start + steps - 1),
      [Advance(e, pub, layer, tree, kp, i, v, start, steps - 1)])
  }

  /** The public key a verifier derives. */
  ghost function PkFromSig(e: Engine, pub: Bytes, layer: nat, tree: nat, kp: nat, sig: seq<Bytes>,
      lens: seq<nat>): (r: seq<Bytes>)
    requires |sig| == |lens|
    ensures |r| == |lens|
  {
    seq(|lens|, i requires 0 <= i < |lens| =>
      Advance(e, pub, layer, tree, kp, i, sig[i], lens[i], if lens[i] < e.p.w then e.p.w - 1 - lens[i] else 0))
  }

  lemma {:induction false} AdvanceChain(e: Engine, c: Ctx, layer: nat, tree: nat, kp: nat, i: nat, start: nat,
      steps: nat)
    ensures Advance(e, c.pub, layer, tree, kp, i, Chain(e, c, layer, tree, kp, i, start), start, steps)
         == Chain(e, c, layer, tree, kp, i, start + steps)
  {
    hide ChainPos;
    if steps > 0 {
      AdvanceChain(e, c, layer, tree, kp, i, start, steps - 1);
    }
  }

  /** WOTS round trip: completing a signature for the same lengths gives the public key it came from. */
  lemma WotsRoundTrip(e: Engine, c: Ctx, layer: nat, tree: nat, kp: nat, lens: seq<nat>)
    requires |lens| == e.p.Len() && forall x | x in lens :: x < e.p.w
    ensures PkFromSig(e, c.pub, layer, tree, kp, WotsSig(e, c, layer, tree, kp, lens), lens)
        == WotsPk(e, c, layer, tree, kp)
  {
    hide Advance, Chain;
    var sig := WotsSig(e, c, layer, tree, kp, lens);
    forall i | 0 <= i < |lens|
      ensures PkFromSig(e, c.pub, layer, tree, kp, sig, lens)[i] == Chain(e, c, layer, tree, kp, i, e.p.w - 1)
    {
      assert lens[i] in lens;
      AdvanceChain(e, c, layer, tree, kp, i, lens[i], e.p.w - 1 - lens[i]);
    }
  }

  /**
   The address names WOTS key pair `kp`, respectively one chain of it; the hash number is whatever
   was hashed last.
   */
  predicate OnKey(f: Adrs, layer: nat, tree: nat, kp: nat) {
    f.(c := 0, w := 0) == Pos(layer, tree, WOTS, kp) && f.w < 256
  }

  predicate OnChain(f: Adrs, layer: nat, tree: nat, kp: nat, i: nat) {
    OnKey(f, layer, tree, kp) && f.c == i % 0x100
  }

  lemma HashStep(f: Adrs, layer: nat, tree: nat, kp: nat, i: nat, k: nat)
    requires OnChain(f, layer, tree, kp, i) && k < 256
    ensures f.SetHash(k) == ChainPos(layer, tree, WOTS, kp, i, k) && OnChain(f.SetHash(k), layer, tree, kp, i)
  {
  }

  lemma ChainSwitch(f: Adrs, layer: nat, tree: nat, kp: nat, i: nat)
    requires OnKey(f, layer, tree, kp)
    ensures OnChain(f.SetChain(i), layer, tree, kp, i)
  {
  }

  /** The steps `gen_chain` takes: it also stops at `w`. */
  function Steps(p: Params, start: nat, steps: nat): nat {
    if start + steps <= p.w then steps else if start <= p.w then p.w - start else 0
  }

  /** `gen_chain`, with its second bound `i < w`. */
  method GenChain(e: Engine, pub: Bytes, input: Bytes, start: nat, steps: nat, addr: Addr, ghost layer: nat,
      ghost tree: nat, ghost kp: nat, ghost i: nat)
    returns (out: Bytes)
    requires OnChain(addr.f, layer, tree, kp, i)
    modifies addr
    ensures OnChain(addr.f, layer, tree, kp, i)
    ensures out == Advance(e, pub, layer, tree, kp, i, input, start, Steps(e.p, start, steps))
  {
    hide ChainPos, OnChain;
    out := input;
    var k := start;
    while k < start + steps && k < e.p.w
      invariant start <= k <= start + Steps(e.p, start, steps) && OnChain(addr.f, layer, tree, kp, i)
      invariant out == Advance(e, pub, layer, tree, kp, i, input, start, k - start)
    {
      HashStep(addr.f, layer, tree, kp, i, k);
      addr.f := addr.f.SetHash(k);
      out := e.thash(pub, addr.f, [out]);
      k := k + 1;
    }
  }

  lemma PkFromSigAt(e: Engine, pub: Bytes, layer: nat, tree: nat, kp: nat, sig: seq<Bytes>, lens: seq<nat>, i: nat)
    requires |sig| == |lens| && i < |lens| && lens[i] < e.p.w
    ensures PkFromSig(e, pub, layer, tree, kp, sig, lens)[i] == Advance(e, pub, layer, tree, kp, i, sig[i], lens[i],
        e.p.w - 1 - lens[i])
  {
    hide Advance;
  }

  /** `wots_pk_from_sig`: fails exactly if no counter in the range in force hits the target. */
  method WotsPkFromSig(e: Engine, pub: Bytes, sig: seq<Bytes>, msg: Bytes, addr: Addr, cur: SignStats?,
                       ghost layer: nat, ghost tree: nat, ghost kp: nat)
    returns (rc: int, pk: seq<Bytes>)
    requires |sig| == e.p.Len() && OnKey(addr.f, layer, tree, kp)
    modifies addr, if cur == null then {} else {cur}
    ensures OnKey(addr.f, layer, tree, kp)
    ensures rc == if Found(e, msg, Cap(e.p, cur)) then 0 else -1
    ensures rc == 0 ==> pk == PkFromSig(e, pub, layer, tree, kp, sig, Lengths(e, msg, Cap(e.p, cur)))
    ensures cur != null ==> cur.r == SearchRec(e, msg, old(cur.r))
  {
    hide ChainPos, Advance, OnKey, PkFromSig, Found, Lengths, SearchRec;
    var lens;
    pk := [];
    rc, lens := ChainLengths(e, msg, cur);
    if rc != 0 { return -1, []; }
    var i := 0;
    while i < e.p.Len()
      invariant 0 <= i <= e.p.Len() && |pk| == i && OnKey(addr.f, layer, tree, kp)
      invariant pk == PkFromSig(e, pub, layer, tree, kp, sig, lens)[..i]
      invariant cur != null ==> cur.r == SearchRec(e, msg, old(cur.r))
    {
      assert lens[i] in lens;
      PkFromSigAt(e, pub, layer, tree, kp, sig, lens, i);
      ChainSwitch(addr.f, layer, tree, kp, i);
      addr.f := addr.f.SetChain(i);
      var v := GenChain(e, pub, sig[i], lens[i], e.p.w - 1 - lens[i], addr, layer, tree, kp, i);
      pk := pk + [v];
      i := i + 1;
    }
  }
}
