/**
 sha256avx.c and sha256x8.c: SHA-256 in eight lanes. A vector is eight 32-bit words, one per
 lane; every vector instruction used by the rounds acts on each lane alone.
 */
module Sha256x8 {
  import opened Bits
  import opened Address
  import opened Sha2
  import opened Sha256Rounds
  import opened Sha256Blocks

  type Vec = v: seq<word> | |v| == 8 witness [0, 0, 0, 0, 0, 0, 0, 0]

  function Map(f: word -> word, x: Vec): (r: Vec)
    ensures forall l | 0 <= l < 8 :: r[l] == f(x[l])
  {
    seq(8, l requires 0 <= l < 8 => f(x[l]))
  }

  function Map3(f: (word, word, word) -> word, x: Vec, y: Vec, z: Vec): (r: Vec)
    ensures forall l | 0 <= l < 8 :: r[l] == f(x[l], y[l], z[l])
  {
    seq(8, l requires 0 <= l < 8 => f(x[l], y[l], z[l]))
  }

  /** ADD32. */
  function VAdd(x: Vec, y: Vec): (r: Vec)
    ensures forall l | 0 <= l < 8 :: r[l] == Add(x[l], y[l])
  {
    seq(8, l requires 0 <= l < 8 => Add(x[l], y[l]))
  }

  /** `_mm256_set1_epi32`. */
  function Set1(x: word): (r: Vec)
    ensures forall l | 0 <= l < 8 :: r[l] == x
  {
    seq(8, _ => x)
  }

  // ---------- rotating registers ----------

  /**
   The slot of `s` that plays register `r` (0 for a, ..., 7 for h) in round `t`: the argument lists
   of SHA256ROUND_AVX rotate.
   */
  function Slot(t: nat, r: nat): (i: nat)
    ensures i < 8
  {
    (r + 7 * t) % 8
  }

  /** The registers of lane `l` in round `t`. */
  function Lane(s: seq<Vec>, t: nat, l: nat): Regs
    requires |s| == 8 && l < 8
  {
    Regs(s[Slot(t, 0)][l], s[Slot(t, 1)][l], s[Slot(t, 2)][l], s[Slot(t, 3)][l], s[Slot(t, 4)][l], s[Slot(t, 5)][l],
      s[Slot(t, 6)][l], s[Slot(t, 7)][l])
  }

  /** ADD5_32 of the round macro. */
  function VT0(o: Ops, s: seq<Vec>, t: nat, w: Vec): Vec
    requires |s| == 8
  {
    var e, f, g, h := s[Slot(t, 4)], s[Slot(t, 5)], s[Slot(t, 6)], s[Slot(t, 7)];
    VAdd(VAdd(VAdd(VAdd(h, Map(o.S1, e)), Map3(o.ch, e, f, g)), Set1(o.k(t))), w)
  }

  /** SHA256ROUND_AVX: only the slots of `d` and `h` are written. */
  function RoundX8(o: Ops, s: seq<Vec>, t: nat, w: Vec): (r: seq<Vec>)
    requires |s| == 8
    ensures |r| == 8
  {
    var a, b, c, d := s[Slot(t, 0)], s[Slot(t, 1)], s[Slot(t, 2)], s[Slot(t, 3)];
    var t0 := VT0(o, s, t, w);
    var t1 := VAdd(Map(o.S0, a), Map3(o.maj, a, b, c));
    s[Slot(t, 3) := VAdd(d, t0)][Slot(t, 7) := VAdd(t0, t1)]
  }

  lemma SumOfFive(a: word, b: word, c: word, d: word, e: word)
    ensures Add(Add(Add(Add(a, b), c), d), e) == (a + b + c + d + e) % 0x1_0000_0000
  {
    hide Add;
    AddIs(a, b);
    AddAcc(a + b, c);
    AddAcc(a + b + c, d);
    AddAcc(a + b + c + d, e);
  }

  lemma SlotStep(t: nat, r: nat)
    requires r < 8
    ensures Slot(t + 1, r) == if r == 0 then Slot(t, 7) else Slot(t, r - 1)
  {
    assert (r + 7 * (t + 1)) % 8 == ((r + 7) + 7 * t) % 8;
  }

  lemma SlotDistinct(t: nat, r: nat, q: nat)
    requires r < 8 && q < 8 && r != q
    ensures Slot(t, r) != Slot(t, q)
  {
  }

  lemma SlotFacts(t: nat)
    ensures Slot(t + 1, 0) == Slot(t, 7) && Slot(t + 1, 1) == Slot(t, 0) && Slot(t + 1, 2) == Slot(t, 1)
        && Slot(t + 1, 3) == Slot(t, 2)
    ensures Slot(t + 1, 4) == Slot(t, 3) && Slot(t + 1, 5) == Slot(t, 4) && Slot(t + 1, 6) == Slot(t, 5)
        && Slot(t + 1, 7) == Slot(t, 6)
    ensures Slot(t, 3) != Slot(t, 7)
    ensures Slot(t, 3) !in {Slot(t, 0), Slot(t, 1), Slot(t, 2), Slot(t, 4), Slot(t, 5), Slot(t, 6)}
    ensures Slot(t, 7) !in {Slot(t, 0), Slot(t, 1), Slot(t, 2), Slot(t, 4), Slot(t, 5), Slot(t, 6)}
  {
    hide Slot;
    SlotStep(t, 0); SlotStep(t, 1); SlotStep(t, 2); SlotStep(t, 3);
    SlotStep(t, 4); SlotStep(t, 5); SlotStep(t, 6); SlotStep(t, 7);
    SlotDistinct(t, 3, 0); SlotDistinct(t, 3, 1); SlotDistinct(t, 3, 2); SlotDistinct(t, 3, 4); SlotDistinct(t, 3,
      5); SlotDistinct(t, 3, 6);
    SlotDistinct(t, 7, 0); SlotDistinct(t, 7, 1); SlotDistinct(t, 7, 2); SlotDistinct(t, 7, 4); SlotDistinct(t, 7,
      5); SlotDistinct(t, 7, 6);
    SlotDistinct(t, 3, 7);
  }

  /** One rotated vector round is one shifted scalar round in every lane. */
  lemma RoundLane(o: Ops, s: seq<Vec>, t: nat, w: Vec, l: nat)
    requires |s| == 8 && l < 8
    ensures Lane(RoundX8(o, s, t, w), t + 1, l) == Round(o, Lane(s, t, l), t, w[l])
  {
    hide Slot, Add;
    var r := Lane(s, t, l);
    SumOfFive(r.h, o.S1(r.e), o.ch(r.e, r.f, r.g), o.k(t), w[l]);
    AddIs(o.S0(r.a), o.maj(r.a, r.b, r.c));
    assert VT0(o, s, t, w)[l] == T1(o, r, t, w[l]);
    SlotFacts(t);
    var n := RoundX8(o, s, t, w);
    assert n[Slot(t, 7)][l] == Add(T1(o, r, t, w[l]), T2(o, r));
    assert n[Slot(t, 3)][l] == Add(r.d, T1(o, r, t, w[l]));
    assert n[Slot(t, 0)] == s[Slot(t, 0)] && n[Slot(t, 1)] == s[Slot(t, 1)] && n[Slot(t, 2)] == s[Slot(t, 2)];
    assert n[Slot(t, 4)] == s[Slot(t, 4)] && n[Slot(t, 5)] == s[Slot(t, 5)] && n[Slot(t, 6)] == s[Slot(t, 6)];
  }

  // ---------- transpose ----------

  function UnpackLo32(a: Vec, b: Vec): Vec { [a[0], b[0], a[1], b[1], a[4], b[4], a[5], b[5]] }

  function UnpackHi32(a: Vec, b: Vec): Vec { [a[2], b[2], a[3], b[3], a[6], b[6], a[7], b[7]] }

  function UnpackLo64(a: Vec, b: Vec): Vec { [a[0], a[1], b[0], b[1], a[4], a[5], b[4], b[5]] }

  function UnpackHi64(a: Vec, b: Vec): Vec { [a[2], a[3], b[2], b[3], a[6], a[7], b[6], b[7]] }

  /** `_mm256_permute2x128_si256` with selector 0x20 and 0x31. */
  function LowHalves(a: Vec, b: Vec): Vec { [a[0], a[1], a[2], a[3], b[0], b[1], b[2], b[3]] }

  function HighHalves(a: Vec, b: Vec): Vec { [a[4], a[5], a[6], a[7], b[4], b[5], b[6], b[7]] }

  /** Rows 0 to 3 and rows 4 to 7 of one half of the shuffle network: column `j` or `j + 4` of four rows. */
  function Quad(a: Vec, b: Vec, c: Vec, d: Vec): seq<Vec> {
    var t0, t1, t2, t3 := UnpackLo32(a, b), UnpackHi32(a, b), UnpackLo32(c, d), UnpackHi32(c, d);
    [UnpackLo64(t0, t2), UnpackHi64(t0, t2), UnpackLo64(t1, t3), UnpackHi64(t1, t3)]
  }

  lemma QuadIs(a: Vec, b: Vec, c: Vec, d: Vec)
    ensures var q := Quad(a, b, c, d); |q| == 4 && forall j | 0 <= j < 4 ::
        q[j] == [a[j], b[j], c[j], d[j], a[j + 4], b[j + 4], c[j + 4], d[j + 4]]
  {
  }

  /** `transpose`: the 24 shuffles of the source. */
  function Transpose(s: seq<Vec>): (r: seq<Vec>)
    requires |s| == 8
    ensures |r| == 8
  {
    var p, q := Quad(s[0], s[1], s[2], s[3]), Quad(s[4], s[5], s[6], s[7]);
    [LowHalves(p[0], q[0]), LowHalves(p[1], q[1]), LowHalves(p[2], q[2]), LowHalves(p[3], q[3]),
     HighHalves(p[0], q[0]), HighHalves(p[1], q[1]), HighHalves(p[2], q[2]), HighHalves(p[3], q[3])]
  }

  /** The shuffle network is a matrix transpose. */
  lemma TransposeIs(s: seq<Vec>, i: nat, j: nat)
    requires |s| == 8 && i < 8 && j < 8
    ensures Transpose(s)[i][j] == s[j][i]
  {
    hide Quad;
    QuadIs(s[0], s[1], s[2], s[3]);
    QuadIs(s[4], s[5], s[6], s[7]);
    var p, q := Quad(s[0], s[1], s[2], s[3]), Quad(s[4], s[5], s[6], s[7]);
    assert Transpose(s)[i] == if i < 4 then LowHalves(p[i], q[i]) else HighHalves(p[i - 4], q[i - 4]);
    var col: Vec := [s[0][i], s[1][i], s[2][i], s[3][i], s[4][i], s[5][i], s[6][i], s[7][i]];
    if i < 4 {
      assert p[i] == [s[0][i], s[1][i], s[2][i], s[3][i], s[0][i + 4], s[1][i + 4], s[2][i + 4], s[3][i + 4]];
      assert q[i] == [s[4][i], s[5][i], s[6][i], s[7][i], s[4][i + 4], s[5][i + 4], s[6][i + 4], s[7][i + 4]];
      assert LowHalves(p[i], q[i]) == col;
    } else {
      assert p[i - 4] == [s[0][i - 4], s[1][i - 4], s[2][i - 4], s[3][i - 4], s[0][i], s[1][i], s[2][i], s[3][i]];
      assert q[i - 4] == [s[4][i - 4], s[5][i - 4], s[6][i - 4], s[7][i - 4], s[4][i], s[5][i], s[6][i], s[7][i]];
      assert HighHalves(p[i - 4], q[i - 4]) == col;
    }
  }

  // ---------- the transform ----------

  /** Eight inputs of one length. */
  ghost predicate EightOf(data: seq<Bytes>, len: nat) {
    |data| == 8 && forall l | 0 <= l < 8 :: |data[l]| == len
  }

  /** BYTESWAP(LOAD(data + 4 * k)): eight consecutive big-endian words. */
  function Load(data: Bytes, k: nat): (v: Vec)
    requires 4 * k + 32 <= |data|
    ensures forall j | 0 <= j < 8 :: v[j] == WordAt(data, k + j)
  {
    [WordAt(data, k), WordAt(data, k + 1), WordAt(data, k + 2), WordAt(data, k + 3), WordAt(data, k + 4),
      WordAt(data, k + 5), WordAt(data, k + 6), WordAt(data, k + 7)]
  }

  /** The first `k` schedule vectors hold schedule words of each lane's block. */
  ghost predicate Sched(o: Ops, data: seq<Bytes>, w: seq<Vec>, k: nat)
    requires EightOf(data, 64)
  {
    k <= |w| && forall j, l | 0 <= j < k && 0 <= l < 8 :: w[j][l] == W(o, Words(data[l]), j)
  }

  /** Every lane has done `t` rounds. */
  ghost predicate InRound(o: Ops, s0: seq<Vec>, data: seq<Bytes>, s: seq<Vec>, t: nat)
    requires EightOf(data, 64) && |s0| == 8
  {
    |s| == 8 && forall l | 0 <= l < 8 :: Lane(s, t, l) == Rounds(o, Lane(s0, 0, l), Words(data[l]), t)
  }

  /** Every lane of `s` is the compression of that lane of `s0` with that lane's block. */
  ghost predicate Compressed(o: Ops, s0: seq<Vec>, data: seq<Bytes>, s: seq<Vec>)
    requires EightOf(data, 64) && |s0| == 8
  {
    |s| == 8 && forall l | 0 <= l < 8 :: Lane(s, 0, l) == Compress(o, Lane(s0, 0, l), Words(data[l]))
  }

  /** The sixteen loaded and transposed vectors. */
  function LoadWords(data: seq<Bytes>): (w: seq<Vec>)
    requires EightOf(data, 64)
    ensures |w| == 16
  {
    var lo := [Load(data[0], 0), Load(data[1], 0), Load(data[2], 0), Load(data[3], 0), Load(data[4], 0),
      Load(data[5], 0), Load(data[6], 0), Load(data[7], 0)];
    var hi := [Load(data[0], 8), Load(data[1], 8), Load(data[2], 8), Load(data[3], 8), Load(data[4], 8),
      Load(data[5], 8), Load(data[6], 8), Load(data[7], 8)];
    Transpose(lo) + Transpose(hi)
  }

  lemma LoadedWord(data: seq<Bytes>, j: nat, l: nat)
    requires EightOf(data, 64) && j < 16 && l < 8
    ensures LoadWords(data)[j][l] == WordAt(data[l], j)
  {
    hide Transpose, WordAt;
    var lo := [Load(data[0], 0), Load(data[1], 0), Load(data[2], 0), Load(data[3], 0), Load(data[4], 0),
      Load(data[5], 0), Load(data[6], 0), Load(data[7], 0)];
    var hi := [Load(data[0], 8), Load(data[1], 8), Load(data[2], 8), Load(data[3], 8), Load(data[4], 8),
      Load(data[5], 8), Load(data[6], 8), Load(data[7], 8)];
    if j < 8 {
      TransposeIs(lo, j, l);
      assert lo[l] == Load(data[l], 0);
    } else {
      TransposeIs(hi, j - 8, l);
      assert hi[l] == Load(data[l], 8);
      assert Load(data[l], 8)[j - 8] == WordAt(data[l], j);
    }
  }

  lemma SchedStart(o: Ops, data: seq<Bytes>, w: seq<Vec>)
    requires EightOf(data, 64) && |w| >= 16 && w[..16] == LoadWords(data)
    ensures Sched(o, data, w, 16)
  {
    hide LoadWords, WordAt;
    forall j, l | 0 <= j < 16 && 0 <= l < 8
      ensures w[j][l] == W(o, Words(data[l]), j)
    {
      LoadedWord(data, j, l);
      assert w[j] == w[..16][j];
    }
  }

  /** ADD4_32 of a schedule step. */
  function Expand(o: Ops, w: seq<Vec>, t: nat): Vec
    requires 16 <= t <= |w|
  {
    VAdd(VAdd(VAdd(Map(o.s1, w[t - 2]), w[t - 16]), w[t - 7]), Map(o.s0, w[t - 15]))
  }

  lemma SumOfFour(a: word, b: word, c: word, d: word)
    ensures Add(Add(Add(a, b), c), d) == (a + b + c + d) % 0x1_0000_0000
  {
    hide Add;
    AddIs(a, b);
    AddAcc(a + b, c);
    AddAcc(a + b + c, d);
  }

  lemma ExpandLane(o: Ops, data: seq<Bytes>, w: seq<Vec>, t: nat, l: nat)
    requires EightOf(data, 64) && 16 <= t < |w| && Sched(o, data, w, t) && l < 8
    ensures Expand(o, w, t)[l] == W(o, Words(data[l]), t)
  {
    hide Add, Words, W;
    var m := Words(data[l]);
    WStep(o, m, t);
    SumOfFour(o.s1(w[t - 2][l]), w[t - 16][l], w[t - 7][l], o.s0(w[t - 15][l]));
    assert w[t - 2][l] == W(o, m, t - 2) && w[t - 16][l] == W(o, m, t - 16);
    assert w[t - 7][l] == W(o, m, t - 7) && w[t - 15][l] == W(o, m, t - 15);
  }

  lemma SchedStep(o: Ops, data: seq<Bytes>, w: seq<Vec>, t: nat)
    requires EightOf(data, 64) && 16 <= t < |w| && Sched(o, data, w, t)
    ensures Sched(o, data, w[t := Expand(o, w, t)], t + 1)
  {
    hide Expand, Words, W;
    forall l | 0 <= l < 8
      ensures Expand(o, w, t)[l] == W(o, Words(data[l]), t)
    {
      ExpandLane(o, data, w, t, l);
    }
  }

  lemma InRoundStep(o: Ops, s0: seq<Vec>, data: seq<Bytes>, s: seq<Vec>, w: seq<Vec>, t: nat, k: nat)
    requires EightOf(data, 64) && |s0| == 8 && InRound(o, s0, data, s, t) && t < k && Sched(o, data, w, k)
    ensures InRound(o, s0, data, RoundX8(o, s, t, w[t]), t + 1)
  {
    hide RoundX8, Lane, Words, W, Round;
    forall l | 0 <= l < 8
      ensures Lane(RoundX8(o, s, t, w[t]), t + 1, l) == Rounds(o, Lane(s0, 0, l), Words(data[l]), t + 1)
    {
      RoundLane(o, s, t, w[t], l);
    }
  }

  /** The feed-forward into the context. */
  function FeedX8(s: seq<Vec>, s0: seq<Vec>): (r: seq<Vec>)
    requires |s| == |s0| == 8
    ensures |r| == 8
  {
    seq(8, i requires 0 <= i < 8 => VAdd(s[i], s0[i]))
  }

  lemma Slot64(r: nat)
    requires r < 8
    ensures Slot(64, r) == r == Slot(0, r)
  {
  }

  /** After 64 rounds the registers are back in their own slots. */
  lemma FeedForwardLane(o: Ops, s0: seq<Vec>, data: seq<Bytes>, s: seq<Vec>, l: nat)
    requires EightOf(data, 64) && |s0| == 8 && InRound(o, s0, data, s, 64) && l < 8
    ensures Lane(FeedX8(s, s0), 0, l) == Compress(o, Lane(s0, 0, l), Words(data[l]))
  {
    hide Slot, Words, Rounds, Add;
    Slot64(0); Slot64(1); Slot64(2); Slot64(3); Slot64(4); Slot64(5); Slot64(6); Slot64(7);
    assert Lane(s, 64, l) == Rounds(o, Lane(s0, 0, l), Words(data[l]), 64);
  }

  lemma FeedForwardLanes(o: Ops, s0: seq<Vec>, data: seq<Bytes>, s: seq<Vec>)
    requires EightOf(data, 64) && |s0| == 8 && InRound(o, s0, data, s, 64)
    ensures Compressed(o, s0, data, FeedX8(s, s0))
  {
    hide FeedX8, Lane, Words, Rounds, Compress;
    forall l | 0 <= l < 8
      ensures Lane(FeedX8(s, s0), 0, l) == Compress(o, Lane(s0, 0, l), Words(data[l]))
    {
      FeedForwardLane(o, s0, data, s, l);
    }
  }

  /** `sha256_transform8x`. */
  method Transform8x(o: Ops, state: array<Vec>, data: seq<Bytes>)
    requires state.Length == 8 && EightOf(data, 64)
    modifies state
    ensures Compressed(o, old(state[..]), data, state[..])
  {
    hide LoadWords, Words, W, Rounds, RoundX8, Expand, Lane, Sched, InRound, Compressed, Add, Slot;
    ghost var s0 := state[..];
    var w := new Vec[64];
    var loaded := LoadWords(data);
    forall i | 0 <= i < 16 { w[i] := loaded[i]; }
    assert w[..][..16] == loaded;
    SchedStart(o, data, w[..]);
    var s := state[..];
    InRoundStart(o, s0, data);
    var t := 0;
    while t < 64
      invariant 0 <= t <= 64 && state[..] == s0 && |s| == 8
      invariant InRound(o, s0, data, s, t) && Sched(o, data, w[..], if t < 16 then 16 else t)
    {
      if t >= 16 {
        SchedStep(o, data, w[..], t);
        ghost var was := w[..];
        var next := Expand(o, w[..], t);
        w[t] := next;
        assert w[..] == was[t := next];
      }
      InRoundStep(o, s0, data, s, w[..], t, if t < 16 then 16 else t + 1);
      s := RoundX8(o, s, t, w[t]);
      t := t + 1;
    }
    FeedForwardLanes(o, s0, data, s);
    forall i | 0 <= i < 8 { state[i] := VAdd(s[i], state[i]); }
    assert state[..] == FeedX8(s, s0);
  }

  lemma InRoundStart(o: Ops, s0: seq<Vec>, data: seq<Bytes>)
    requires EightOf(data, 64) && |s0| == 8
    ensures InRound(o, s0, data, s0, 0)
  {
    hide Lane, Words;
  }

  // ---------- padding ----------

  /** Lane `l` of the block buffer. */
  function Block(mb: Bytes, l: nat): (r: Bytes)
    requires |mb| == 512 && l < 8
    ensures |r| == 64
  {
    mb[64 * l..64 * l + 64]
  }

  function Blocks(mb: Bytes): (r: seq<Bytes>)
    requires |mb| == 512
    ensures |r| == 8 && forall l | 0 <= l < 8 :: r[l] == Block(mb, l)
  {
    [Block(mb, 0), Block(mb, 1), Block(mb, 2), Block(mb, 3), Block(mb, 4), Block(mb, 5), Block(mb, 6), Block(mb, 7)]
  }

  /** 0x80 and zeros to the end of the block. */
  function Padded(rest: Bytes): (r: Bytes)
    requires |rest| < 64
    ensures |r| == 64
  {
    rest + [0x80] + Zeros(63 - |rest|)
  }

  /** The first `k` lanes are padded and the rest untouched. */
  ghost predicate PaddedTo(was: Bytes, mb: Bytes, len: nat, k: nat) {
    && |was| == |mb| == 512 && len < 64 && k <= 8
    && (forall l | 0 <= l < k :: Block(mb, l) == Padded(Block(was, l)[..len]))
    && mb[64 * k..] == was[64 * k..]
  }

  lemma LaneKept(a: Bytes, b: Bytes, k: nat, l: nat)
    requires |a| == |b| == 512 && k < 8 && l < 8 && (l < k ==> a[..64 * k] == b[..64 * k])
        && (l > k ==> a[64 * k + 64..] == b[64 * k + 64..]) && l != k
    ensures Block(a, l) == Block(b, l)
  {
    forall i | 64 * l <= i < 64 * l + 64 ensures a[i] == b[i] {
      if l < k {
        assert a[..64 * k][i] == b[..64 * k][i];
      } else {
        var c := 64 * k + 64;
        assert a[c..][i - c] == b[c..][i - c];
      }
    }
  }

  lemma PaddedStep(was: Bytes, mb: Bytes, mb': Bytes, len: nat, k: nat)
    requires k < 8 && PaddedTo(was, mb, len, k) && |mb'| == 512
    requires mb'[..64 * k] == mb[..64 * k] && mb'[64 * k + 64..] == mb[64 * k + 64..]
        && Block(mb', k) == Padded(Block(mb, k)[..len])
    ensures PaddedTo(was, mb', len, k + 1)
  {
    hide Padded, Block;
    forall l | 0 <= l < k + 1 ensures Block(mb', l) == Padded(Block(was, l)[..len]) {
      if l < k {
        LaneKept(mb', mb, k, l);
      } else {
        SameTail(was, mb, k);
      }
    }
    assert mb[64 * k + 64..] == mb[64 * k..][64..];
    assert was[64 * k + 64..] == was[64 * k..][64..];
  }

  lemma SameTail(a: Bytes, b: Bytes, k: nat)
    requires |a| == |b| == 512 && k < 8 && a[64 * k..] == b[64 * k..]
    ensures Block(a, k) == Block(b, k)
  {
    assert Block(a, k) == a[64 * k..][..64];
    assert Block(b, k) == b[64 * k..][..64];
  }

  /** One lane of the padding loop: byte by byte, in place. */
  method PadLane(mb: array<byte>, k: nat, len: nat)
    requires mb.Length == 512 && len < 64 && k < 8
    modifies mb
    ensures mb[..64 * k] == old(mb[..64 * k]) && mb[64 * k + 64..] == old(mb[64 * k + 64..])
    ensures Block(mb[..], k) == Padded(old(Block(mb[..], k))[..len])
  {
    var base := 64 * k;
    var cur := len;
    mb[base + cur] := 0x80;
    cur := cur + 1;
    while cur < 64
      invariant len + 1 <= cur <= 64
      invariant forall i | 0 <= i < 512 && (i < base + len || base + cur <= i) :: mb[i] == old(mb[i])
      invariant mb[base + len] == 0x80 && forall i | base + len < i < base + cur :: mb[i] == 0
    {
      mb[base + cur] := 0;
      cur := cur + 1;
    }
    ghost var b := Block(mb[..], k);
    forall i | 0 <= i < 64 ensures b[i] == Padded(old(Block(mb[..], k))[..len])[i] {}
    assert b == Padded(old(Block(mb[..], k))[..len]);
  }

  method PadLanes(mb: array<byte>, len: nat)
    requires mb.Length == 512 && len < 64
    modifies mb
    ensures PaddedTo(old(mb[..]), mb[..], len, 8)
  {
    hide Padded, Block, PaddedTo;
    ghost var was := mb[..];
    assert PaddedTo(was, mb[..], len, 0) by { PaddedNone(was, len); }
    var i := 0;
    while i < 8
      invariant 0 <= i <= 8 && PaddedTo(was, mb[..], len, i)
    {
      ghost var cur := mb[..];
      assert cur[..64 * i] == mb[..64 * i] && cur[64 * i + 64..] == mb[64 * i + 64..];
      PadLane(mb, i, len);
      assert mb[..][..64 * i] == mb[..64 * i] && mb[..][64 * i + 64..] == mb[64 * i + 64..];
      PaddedStep(was, cur, mb[..], len, i);
      i := i + 1;
    }
  }

  lemma PaddedNone(was: Bytes, len: nat)
    requires |was| == 512 && len < 64
    ensures PaddedTo(was, was, len, 0)
  {
  }

  /** The first `k` lanes end in the eight bytes of `bits`; nothing else changed. */
  ghost predicate LengthTo(was: Bytes, mb: Bytes, bits: nat, k: nat) {
    && |was| == |mb| == 512 && k <= 8
    && (forall l | 0 <= l < k :: Block(mb, l) == Block(was, l)[..56] + BE(bits, 8))
    && mb[64 * k..] == was[64 * k..]
  }

  lemma LengthStep(was: Bytes, mb: Bytes, mb': Bytes, bits: nat, k: nat)
    requires k < 8 && LengthTo(was, mb, bits, k) && |mb'| == 512
    requires mb'[..64 * k + 56] == mb[..64 * k + 56] && mb'[64 * k + 56..64 * k + 64] == BE(bits, 8)
        && mb'[64 * k + 64..] == mb[64 * k + 64..]
    ensures LengthTo(was, mb', bits, k + 1)
  {
    hide Block, BE;
    forall l | 0 <= l < k + 1 ensures Block(mb', l) == Block(was, l)[..56] + BE(bits, 8) {
      assert mb'[..64 * k] == mb'[..64 * k + 56][..64 * k];
      assert mb[..64 * k] == mb[..64 * k + 56][..64 * k];
      if l < k {
        LaneKept(mb', mb, k, l);
      } else {
        SameTail(was, mb, k);
        LengthLane(mb, mb', bits, k);
      }
    }
    assert mb[64 * k + 64..] == mb[64 * k..][64..];
    assert was[64 * k + 64..] == was[64 * k..][64..];
  }

  lemma LengthLane(mb: Bytes, mb': Bytes, bits: nat, k: nat)
    requires k < 8 && |mb| == |mb'| == 512 && mb'[..64 * k + 56] == mb[..64 * k + 56]
        && mb'[64 * k + 56..64 * k + 64] == BE(bits, 8)
    ensures Block(mb', k) == Block(mb, k)[..56] + BE(bits, 8)
  {
    hide BE;
    assert Block(mb', k) == mb'[..64 * k + 56][64 * k..] + mb'[64 * k + 56..64 * k + 64];
    assert Block(mb, k)[..56] == mb[..64 * k + 56][64 * k..];
  }

  /** The loop that writes the bit length into each lane's block. */
  method StoreLengths(mb: array<byte>, bits: nat)
    requires mb.Length == 512
    modifies mb
    ensures LengthTo(old(mb[..]), mb[..], bits, 8)
  {
    hide Block, LengthTo, BE;
    ghost var was := mb[..];
    assert LengthTo(was, mb[..], bits, 0) by { LengthNone(was, bits); }
    var i := 0;
    while i < 8
      invariant 0 <= i <= 8 && LengthTo(was, mb[..], bits, i)
    {
      ghost var cur := mb[..];
      assert cur[..64 * i + 56] == mb[..64 * i + 56] && cur[64 * i + 64..] == mb[64 * i + 64..];
      UllToBytes(mb, 64 * i + 56, 8, bits);
      assert mb[..][..64 * i + 56] == mb[..64 * i + 56] && mb[..][64 * i + 64..] == mb[64 * i + 64..];
      assert mb[..][64 * i + 56..64 * i + 64] == mb[64 * i + 56..64 * i + 64];
      LengthStep(was, cur, mb[..], bits, i);
      i := i + 1;
    }
  }

  lemma LengthNone(was: Bytes, bits: nat)
    requires |was| == 512
    ensures LengthTo(was, was, bits, 0)
  {
  }

  // ---------- finalising ----------

  /** `sha256ctx`. */
  class Context {
    const s: array<Vec>
    const msgblocks: array<byte>
    var datalen: nat
    var msglen: nat

    ghost predicate Valid()
      reads this
    {
      s.Length == 8 && msgblocks.Length == 512 && datalen < 64
    }

    constructor ()
      ensures Valid() && fresh(s) && fresh(msgblocks)
    {
      s := new Vec[8];
      msgblocks := new byte[512];
      datalen, msglen := 0, 0;
    }
  }

  /** The chaining value of lane `l`. */
  function Cv(s: seq<Vec>, l: nat): (r: Bytes)
    requires |s| == 8 && l < 8
    ensures |r| == 32
  {
    BytesOf(Lane(s, 0, l))
  }

  lemma AbsorbBlock(h: Hasher, cv: Bytes, b: Bytes)
    requires h.v == SHA256 && |cv| == 32 && |b| == 64
    ensures Absorb(h, cv, b) == h.compress(cv, b)
  {
    assert b[..64] == b && b[64..] == [];
  }

  /** One vector transform absorbs one block in every lane. */
  lemma TransformAbsorbs(h: Hasher, o: Ops, s0: seq<Vec>, data: seq<Bytes>, s: seq<Vec>, l: nat)
    requires IsSha256(h, o) && EightOf(data, 64) && |s0| == 8 && Compressed(o, s0, data, s) && l < 8
    ensures Cv(s, l) == Absorb(h, Cv(s0, l), data[l])
  {
    hide BytesOf, Lane, Words, Compress, Absorb;
    CompressIs(h, o, Lane(s0, 0, l), data[l]);
    AbsorbBlock(h, Cv(s0, l), data[l]);
  }

  lemma FinalOneBlock(rest: Bytes, total: nat, bits: nat)
    requires |rest| < 56 && BE(bits, 8) == BE(8 * total, 8)
    ensures FinalBlocks(SHA256, rest, total) == Padded(rest)[..56] + BE(bits, 8)
  {
    hide BE;
  }

  lemma FinalTwoBlocks(rest: Bytes, total: nat, bits: nat)
    requires 56 <= |rest| < 64 && BE(bits, 8) == BE(8 * total, 8)
    ensures FinalBlocks(SHA256, rest, total) == Padded(rest) + (Zeros(56) + BE(bits, 8))
  {
    hide BE;
  }

  /** Every lane has absorbed its last one or two blocks. */
  ghost predicate Finalized(h: Hasher, s0: seq<Vec>, mb: Bytes, len: nat, total: nat, s: seq<Vec>)
    requires h.v == SHA256
  {
    && |s0| == |s| == 8 && |mb| == 512 && len < 64
    && forall l | 0 <= l < 8 :: Cv(s, l) == Absorb(h, Cv(s0, l), FinalBlocks(SHA256, Block(mb, l)[..len], total))
  }

  lemma FinalizedOne(h: Hasher, o: Ops, s0: seq<Vec>, mb0: Bytes, mb1: Bytes, mb2: Bytes, s: seq<Vec>, len: nat,
      total: nat, bits: nat)
    requires IsSha256(h, o) && |s0| == 8 && len < 56 && BE(bits, 8) == BE(8 * total, 8)
    requires PaddedTo(mb0, mb1, len, 8) && LengthTo(mb1, mb2, bits, 8) && EightOf(Blocks(mb2), 64)
        && Compressed(o, s0, Blocks(mb2), s)
    ensures Finalized(h, s0, mb0, len, total, s)
  {
    hide BE, Block, Padded, FinalBlocks, Absorb, Cv, Compress, Lane, Words, IsSha256;
    assert h.v == SHA256 by { IsVariant(h, o); }
    forall l | 0 <= l < 8 ensures Cv(s, l) == Absorb(h, Cv(s0, l), FinalBlocks(SHA256, Block(mb0, l)[..len], total)) {
      TransformAbsorbs(h, o, s0, Blocks(mb2), s, l);
      FinalOneBlock(Block(mb0, l)[..len], total, bits);
    }
  }

  lemma IsVariant(h: Hasher, o: Ops)
    requires IsSha256(h, o)
    ensures h.v == SHA256
  {
  }

  lemma FinalizedTwo(h: Hasher, o: Ops, s0: seq<Vec>, mb0: Bytes, mb1: Bytes, s1: seq<Vec>, zeros: Bytes, mb2: Bytes,
      s: seq<Vec>, len: nat, total: nat, bits: nat)
    requires IsSha256(h, o) && |s0| == 8 && 56 <= len < 64 && BE(bits, 8) == BE(8 * total, 8)
    requires PaddedTo(mb0, mb1, len, 8) && EightOf(Blocks(mb1), 64) && Compressed(o, s0, Blocks(mb1), s1)
    requires zeros == Zeros(512) && LengthTo(zeros, mb2, bits, 8) && EightOf(Blocks(mb2), 64)
        && Compressed(o, s1, Blocks(mb2), s)
    ensures Finalized(h, s0, mb0, len, total, s)
  {
    hide BE, Block, Padded, FinalBlocks, Absorb, Cv, Compress, Lane, Words, IsSha256;
    assert h.v == SHA256 by { IsVariant(h, o); }
    forall l | 0 <= l < 8 ensures Cv(s, l) == Absorb(h, Cv(s0, l), FinalBlocks(SHA256, Block(mb0, l)[..len], total)) {
      TransformAbsorbs(h, o, s0, Blocks(mb1), s1, l);
      TransformAbsorbs(h, o, s1, Blocks(mb2), s, l);
      FinalTwoBlocks(Block(mb0, l)[..len], total, bits);
      AbsorbSplit(h, Cv(s0, l), Block(mb1, l), Block(mb2, l));
      ZeroLane(l);
    }
  }

  lemma ZeroLane(l: nat)
    requires l < 8
    ensures Block(Zeros(512), l)[..56] == Zeros(56)
  {
  }

  /** STORE(out, BYTESWAP(v)). */
  function StoreVec(v: Vec): (r: Bytes)
    ensures |r| == 32
  {
    BytesOf(Regs(v[0], v[1], v[2], v[3], v[4], v[5], v[6], v[7]))
  }

  lemma StoredLane(s: seq<Vec>, l: nat)
    requires |s| == 8 && l < 8
    ensures StoreVec(Transpose(s)[l]) == Cv(s, l)
  {
    hide BytesOf, Transpose;
    TransposeIs(s, l, 0); TransposeIs(s, l, 1); TransposeIs(s, l, 2); TransposeIs(s, l, 3);
    TransposeIs(s, l, 4); TransposeIs(s, l, 5); TransposeIs(s, l, 6); TransposeIs(s, l, 7);
  }

  ghost predicate Stored(s: seq<Vec>, out: seq<Bytes>) {
    |s| == |out| == 8 && forall l | 0 <= l < 8 :: out[l] == Cv(s, l)
  }

  method StoreLanes(s: seq<Vec>) returns (out: seq<Bytes>)
    requires |s| == 8
    ensures Stored(s, out)
  {
    hide StoreVec, Transpose, Cv;
    var t := Transpose(s);
    out := [];
    for l := 0 to 8
      invariant |out| == l && forall j | 0 <= j < l :: out[j] == Cv(s, j)
    {
      StoredLane(s, l);
      out := out + [StoreVec(t[l])];
    }
  }

  lemma SameLength(bits: nat, total: nat)
    requires bits == BitsOf(total)
    ensures BE(bits, 8) == BE(8 * total, 8)
  {
    hide BE;
    Widths();
    BEMod(8 * total, 8);
  }

  /** `sha256_final8x`: `total` is the byte count whose eightfold the length field holds modulo 2^64. */
  method Final8x(h: Hasher, o: Ops, ctx: Context, ghost total: nat) returns (out: seq<Bytes>)
    requires IsSha256(h, o) && ctx.Valid()
    requires Plus(ctx.msglen, 8 * ctx.datalen) == BitsOf(total)
    modifies ctx, ctx.s, ctx.msgblocks
    ensures Finalized(h, old(ctx.s[..]), old(ctx.msgblocks[..]), old(ctx.datalen), total, ctx.s[..])
        && Stored(ctx.s[..], out)
  {
    hide Plus, BitsOf, IsSha256, Finalized, PaddedTo, LengthTo, Compressed, Block, Lane, Cv, Stored, Padded, BE,
      FinalBlocks, Absorb;
    assert h.v == SHA256 by { IsVariant(h, o); }
    ghost var s0, mb0, len := ctx.s[..], ctx.msgblocks[..], ctx.datalen;
    PadLanes(ctx.msgblocks, ctx.datalen);
    ghost var mb1 := ctx.msgblocks[..];
    assert ctx.s[..] == s0;
    if ctx.datalen >= 56 {
      Transform8x(o, ctx.s, Blocks(ctx.msgblocks[..]));
      ghost var after := ctx.s[..];
      assert Compressed(o, s0, Blocks(mb1), after);
      forall i | 0 <= i < 512 { ctx.msgblocks[i] := 0; }
      assert ctx.msgblocks[..] == Zeros(512) && ctx.s[..] == after;
    }
    ghost var s1 := ctx.s[..];
    ctx.msglen := Plus(ctx.msglen, 8 * ctx.datalen);
    SameLength(ctx.msglen, total);
    StoreLengths(ctx.msgblocks, ctx.msglen);
    assert ctx.s[..] == s1;
    Transform8x(o, ctx.s, Blocks(ctx.msgblocks[..]));
    if len < 56 {
      FinalizedOne(h, o, s0, mb0, mb1, ctx.msgblocks[..], ctx.s[..], len, total, ctx.msglen);
    } else {
      FinalizedTwo(h, o, s0, mb0, mb1, s1, Zeros(512), ctx.msgblocks[..], ctx.s[..], len, total, ctx.msglen);
    }
    out := StoreLanes(ctx.s[..]);
  }

  // ---------- whole messages ----------

  /** Every lane has absorbed the first `i` bytes of its input behind `cv`. */
  ghost predicate InputTo(h: Hasher, cv: Bytes, ins: seq<Bytes>, s: seq<Vec>, i: nat)
    requires h.v == SHA256 && |cv| == 32
  {
    && |s| == |ins| == 8
    && forall l | 0 <= l < 8 :: i <= |ins[l]| && Cv(s, l) == Absorb(h, cv, ins[l][..i])
  }

  function Slices(ins: seq<Bytes>, i: nat, k: nat): (r: seq<Bytes>)
    requires EightOf(ins, k) && i + 64 <= k
    ensures EightOf(r, 64) && forall l | 0 <= l < 8 :: r[l] == ins[l][i..i + 64]
  {
    seq(8, l requires 0 <= l < 8 => ins[l][i..i + 64])
  }

  lemma InputStep(h: Hasher, o: Ops, cv: Bytes, ins: seq<Bytes>, s: seq<Vec>, s': seq<Vec>, i: nat, k: nat)
    requires IsSha256(h, o) && |cv| == 32 && EightOf(ins, k) && i + 64 <= k && Aligned(i)
    requires InputTo(h, cv, ins, s, i) && Compressed(o, s, Slices(ins, i, k), s')
    ensures InputTo(h, cv, ins, s', i + 64)
  {
    hide Cv, Absorb, Lane, Compress, Words, IsSha256;
    assert h.v == SHA256 by { IsVariant(h, o); }
    forall l | 0 <= l < 8 ensures Cv(s', l) == Absorb(h, cv, ins[l][..i + 64]) {
      TransformAbsorbs(h, o, s, Slices(ins, i, k), s', l);
      AbsorbSplit(h, cv, ins[l][..i], ins[l][i..i + 64]);
      assert ins[l][..i + 64] == ins[l][..i] + ins[l][i..i + 64];
    }
  }

  /** The first `k` lanes of the block buffer start with what is left of their inputs. */
  ghost predicate CopiedTo(ins: seq<Bytes>, i: nat, len: nat, mb: Bytes, k: nat) {
    |ins| == 8 && |mb| == 512 && k <= 8 && len < 64
    && forall l | 0 <= l < k :: i + len == |ins[l]| && Block(mb, l)[..len] == ins[l][i..]
  }

  lemma CopiedStep(ins: seq<Bytes>, i: nat, len: nat, mb: Bytes, mb': Bytes, k: nat)
    requires CopiedTo(ins, i, len, mb, k) && k < 8 && |ins[k]| == i + len && |mb'| == 512
    requires mb'[..64 * k] == mb[..64 * k] && mb'[64 * k..64 * k + len] == ins[k][i..]
    ensures CopiedTo(ins, i, len, mb', k + 1)
  {
    hide Block;
    forall l | 0 <= l < k + 1 ensures i + len == |ins[l]| && Block(mb', l)[..len] == ins[l][i..] {
      if l < k {
        LaneKept(mb', mb, k, l);
      } else {
        BlockFront(mb', k, len);
      }
    }
  }

  lemma BlockFront(mb: Bytes, k: nat, len: nat)
    requires |mb| == 512 && k < 8 && len < 64
    ensures Block(mb, k)[..len] == mb[64 * k..64 * k + len]
  {
  }

  /** The eight `memcpy` calls that fill the front of the block buffer. */
  method CopyLanes(ins: seq<Bytes>, i: nat, len: nat, mb: array<byte>)
    requires mb.Length == 512 && len < 64 && EightOf(ins, i + len)
    modifies mb
    ensures CopiedTo(ins, i, len, mb[..], 8)
  {
    hide Block;
    for l := 0 to 8
      invariant CopiedTo(ins, i, len, mb[..], l)
    {
      ghost var was := mb[..];
      forall j | 0 <= j < len { mb[64 * l + j] := ins[l][i + j]; }
      assert mb[..][..64 * l] == was[..64 * l];
      assert mb[..][64 * l..64 * l + len] == ins[l][i..];
      CopiedStep(ins, i, len, was, mb[..], l);
    }
  }

  /** Every lane's output is the hash of the common prefix and that lane's input. */
  ghost predicate HashedX8(h: Hasher, prefix: Bytes, ins: seq<Bytes>, out: seq<Bytes>) {
    |ins| == |out| == 8 && forall l | 0 <= l < 8 :: out[l] == Hash(h, prefix + ins[l])
  }

  lemma RunEnds(h: Hasher, prefix: Bytes, ins: seq<Bytes>, s: seq<Vec>, mb: Bytes, s': seq<Vec>, out: seq<Bytes>,
      i: nat, len: nat)
    requires h.v == SHA256 && Aligned(|prefix|) && Aligned(i) && len < 64
    requires InputTo(h, Absorb(h, h.iv, prefix), ins, s, i) && CopiedTo(ins, i, len, mb, 8)
    requires Finalized(h, s, mb, len, |prefix| + i + len, s') && Stored(s', out)
    ensures HashedX8(h, prefix, ins, out)
  {
    hide Cv, Absorb, Block, FinalBlocks, Hash;
    var cv := Absorb(h, h.iv, prefix);
    forall l | 0 <= l < 8 ensures out[l] == Hash(h, prefix + ins[l]) {
      assert Cv(s, l) == Absorb(h, cv, ins[l][..i]) && Block(mb, l)[..len] == ins[l][i..];
      LaneEnds(h, prefix, ins[l], i, len);
    }
  }

  lemma LaneEnds(h: Hasher, prefix: Bytes, input: Bytes, i: nat, len: nat)
    requires h.v == SHA256 && Aligned(|prefix|) && Aligned(i) && len < 64 && |input| == i + len
    ensures Absorb(h, Absorb(h, Absorb(h, h.iv, prefix), input[..i]),
        FinalBlocks(SHA256, input[i..], |prefix| + i + len)) == Hash(h, prefix + input)
  {
    hide Absorb, FinalBlocks, Hash;
    var whole, rest := input[..i], input[i..];
    assert input == whole + rest;
    AbsorbIgnoresTail(h, Absorb(h, h.iv, prefix), whole, rest);
    WholeBlocks(SHA256, |prefix|, i);
    WholeBlocks(SHA256, |prefix| + i, len);
    AbsorbFinal(h, prefix, whole, rest, |prefix| + i + len);
  }

  /** A whole number of blocks. */
  predicate Aligned(i: nat) { i % 64 == 0 }

  /** A 64-bit count of the bits of `n` bytes. */
  function BitsOf(n: nat): nat { 8 * n % 0x1_0000_0000_0000_0000 }

  /** A 64-bit addition. */
  function Plus(a: nat, b: nat): nat { (a + b) % 0x1_0000_0000_0000_0000 }

  lemma BitCount(n: nat, k: nat)
    ensures Plus(BitsOf(n), 8 * k) == BitsOf(n + k)
  {
  }

  lemma AlignedStep(i: nat)
    ensures Aligned(0) && (Aligned(i) <==> Aligned(i + 64))
  {
  }

  /** `_sha256x8`, on a context that has absorbed `prefix` in every lane. */
  method Sha256x8Run(h: Hasher, o: Ops, ctx: Context, ins: seq<Bytes>, inlen: nat, ghost prefix: Bytes)
      returns (out: seq<Bytes>)
    requires IsSha256(h, o) && ctx.Valid() && EightOf(ins, inlen) && Aligned(|prefix|)
    requires ctx.msglen == BitsOf(|prefix|)
    requires InputTo(h, Absorb(h, h.iv, prefix), ins, ctx.s[..], 0)
    modifies ctx, ctx.s, ctx.msgblocks
    ensures HashedX8(h, prefix, ins, out)
  {
    hide IsSha256, Finalized, CopiedTo, InputTo, HashedX8, Compressed, Block, Lane, Cv, Stored, Absorb, EightOf,
      Aligned, BitsOf, Plus;
    assert h.v == SHA256 by { IsVariant(h, o); }
    ghost var cv := Absorb(h, h.iv, prefix);
    var i := 0;
    AlignedStep(0);
    while inlen - i >= 64
      invariant 0 <= i <= inlen && Aligned(i) && ctx.Valid()
      invariant ctx.msglen == BitsOf(|prefix| + i)
      invariant InputTo(h, cv, ins, ctx.s[..], i)
    {
      ghost var s := ctx.s[..];
      Transform8x(o, ctx.s, Slices(ins, i, inlen));
      InputStep(h, o, cv, ins, s, ctx.s[..], i, inlen);
      BitCount(|prefix| + i, 64);
      AlignedStep(i);
      i := i + 64;
      ctx.msglen := Plus(ctx.msglen, 512);
    }
    ghost var s := ctx.s[..];
    var len := inlen - i;
    CopyLanes(ins, i, len, ctx.msgblocks);
    ctx.datalen := len;
    assert ctx.s[..] == s;
    BitCount(|prefix| + i, len);
    ghost var mb := ctx.msgblocks[..];
    out := Final8x(h, o, ctx, |prefix| + i + len);
    RunEnds(h, prefix, ins, s, mb, ctx.s[..], out, i, len);
  }

  lemma BroadcastLane(h: Hasher, ins: seq<Bytes>, inlen: nat, seed: Bytes, s: seq<Vec>)
    requires h.v == SHA256 && |seed| == 32 && |s| == 8 && EightOf(ins, inlen)
    requires forall i | 0 <= i < 8 :: s[i] == Set1(WordAt(seed, i))
    ensures InputTo(h, seed, ins, s, 0)
  {
    hide WordAt, BytesOf, Set1, Slot;
    forall l | 0 <= l < 8 ensures Cv(s, l) == Absorb(h, seed, ins[l][..0]) {
      Slot64(0); Slot64(1); Slot64(2); Slot64(3); Slot64(4); Slot64(5); Slot64(6); Slot64(7);
      assert Lane(s, 0, l) == RegsOf(seed);
      BytesOfRegs(seed);
    }
  }

  /**
   `sha256x8_seeded`: from the chaining value of whole blocks `prefix`, every lane is the hash
   of the prefix followed by its own input, as the scalar finalize would give.
   */
  method Sha256x8Seeded(h: Hasher, o: Ops, seed: Bytes, seedlen: nat, ins: seq<Bytes>, inlen: nat,
      ghost prefix: Bytes) returns (out: seq<Bytes>)
    requires IsSha256(h, o) && EightOf(ins, inlen) && Aligned(|prefix|) && seedlen == BitsOf(|prefix|)
    requires |seed| >= 32 && seed[..32] == Absorb(h, h.iv, prefix)
    ensures HashedX8(h, prefix, ins, out)
  {
    hide IsSha256, Absorb, HashedX8, InputTo, WordAt, Set1, Aligned, BitsOf;
    assert h.v == SHA256 by { IsVariant(h, o); }
    var ctx := new Context();
    var cv := seed[..32];
    for i := 0 to 8
      invariant ctx.Valid() && fresh(ctx) && fresh(ctx.s) && fresh(ctx.msgblocks) && forall j | 0 <= j < i ::
          ctx.s[j] == Set1(WordAt(cv, j))
    {
      assert WordAt(cv, i) == WordAt(seed, i) by { SameWord(seed, i); }
      ctx.s[i] := Set1(WordAt(seed, i));
    }
    ctx.datalen := 0;
    ctx.msglen := seedlen;
    BroadcastLane(h, ins, inlen, cv, ctx.s[..]);
    out := Sha256x8Run(h, o, ctx, ins, inlen, prefix);
  }

  lemma SameWord(seed: Bytes, i: nat)
    requires |seed| >= 32 && i < 8
    ensures WordAt(seed[..32], i) == WordAt(seed, i)
  {
  }
}
