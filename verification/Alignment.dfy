/**
 When the eight-lane WOTS leaf generator honours a signing request (wotsx1.c): its test and its
 lane both assume groups that start at a multiple of eight.
 */
module Alignment {
  import opened Bits
  import opened Address
  import opened Engine
  import opened Spec
  import opened LeafGen
  import opened LeafGenX8
  import opened TreeHashX8

  /**
   Whatever is asked of `n` groups from `off` on, the buffer comes out as eight scalar leaves at a
   time would leave it.
   */
  ghost predicate HonoursRequests(off: nat, n: nat) {
    forall e: Engine, c: Ctx, layer: nat, tree: nat, job: Job, was: seq<Bytes> ::
      EmittedRows(e, c, WotsGen(layer, tree), job, off, n, was) == EmittedBelow(e, c, WotsGen(layer, tree), job, off,
        8 * n, was)
  }

  /** An engine that derives different chain starts for different key pairs. */
  ghost function PairEngine(): (e: Engine)
    ensures e.p == BOUNDED30
    ensures forall s, t, a :: e.prf(s, t, a) == BE(a.kp, 16)
  {
    Bounded30Sizes();
    RawEngine(BOUNDED30, (s, a, b) => Zeros(16), (s: Bytes, t: Bytes, a: Adrs) => BE(a.kp, 16), m => Zeros(32),
      m => Zeros(64),
              (s, o, m) => Zeros(16), (r, pk, m) => Zeros(20))
  }

  /** A request for the start of every chain of key pair `leaf`. */
  function StartsOf(leaf: nat): Job { Sign(0, seq(16, _ => 0), leaf) }

  lemma FirstBlock(c: Ctx, layer: nat, tree: nat, kp: nat)
    ensures WotsSig(PairEngine(), c, layer, tree, kp, StartsOf(kp).steps)[0] == BE(kp % 0x1_0000_0000, 16)
  {
    assert ChainPos(layer, tree, WOTSPRF, kp, 0, 0).kp == kp % 0x1_0000_0000;
  }

  lemma DifferentPairs(x: nat, y: nat)
    requires x < y < x + 8
    ensures BE(x % 0x1_0000_0000, 16) != BE(y % 0x1_0000_0000, 16)
  {
    hide BE;
    Widths();
    assert Pow256(16) >= 0x1_0000_0000 by { PowGrows(4, 16); }
    FromBEOfBE(x % 0x1_0000_0000, 16);
    FromBEOfBE(y % 0x1_0000_0000, 16);
  }

  lemma {:induction false} PowGrows(m: nat, n: nat)
    requires m <= n
    ensures Pow256(m) <= Pow256(n)
    decreases n
  {
    if m < n { PowGrows(m, n - 1); }
  }

  /** A group that starts elsewhere saves, for a request of its first key pair, another one. */
  lemma WrongPair(off: nat, n: nat)
    requires off % 8 != 0 && n >= 1
    ensures !HonoursRequests(off, n)
  {
    hide WotsSig, BE, EmittedRows, EmittedBelow;
    var e, c, job, was := PairEngine(), Ctx([], []), StartsOf(off), seq(16, _ => []);
    FirstWritten(off, n);
    DifferentPairs(off, off + off % 8);
    assert EmittedRows(e, c, WotsGen(0, 0), job, off, n, was) != EmittedBelow(e, c, WotsGen(0, 0), job, off, 8 * n,
      was);
  }

  lemma FirstWritten(off: nat, n: nat)
    requires n >= 1
    ensures var e, c, job, was := PairEngine(), Ctx([], []), StartsOf(off), seq(16, _ => []);
            && EmittedRows(e, c, WotsGen(0, 0), job, off, n, was)[0] == BE((off + off % 8) % 0x1_0000_0000, 16)
            && EmittedBelow(e, c, WotsGen(0, 0), job, off, 8 * n, was)[0] == BE(off % 0x1_0000_0000, 16)
  {
    hide WotsSig, BE, PairEngine;
    FirstBlock(Ctx([], []), 0, 0, off + off % 8);
    FirstBlock(Ctx([], []), 0, 0, off);
  }

  /**
   The exact condition: for all hash functions, keys, requests and buffers, `treehashx8` writes
   the signature that `treehashx1` writes if and only if the offset of the tree, that is the
   first key pair of a group, is a multiple of eight.
   */
  lemma AlignedExact(off: nat, n: nat)
    requires n >= 1
    ensures HonoursRequests(off, n) <==> off % 8 == 0
  {
    hide EmittedRows, EmittedBelow;
    if off % 8 == 0 {
      forall e: Engine, c: Ctx, layer: nat, tree: nat, job: Job, was: seq<Bytes>
        ensures EmittedRows(e, c, WotsGen(layer, tree), job, off, n, was) == EmittedBelow(e, c, WotsGen(layer, tree),
            job, off, 8 * n, was)
      {
        EmitAligned(e, c, WotsGen(layer, tree), job, off, n, was);
      }
    } else {
      WrongPair(off, n);
    }
  }

  /** One input: the group that starts at key pair 1, asked for key pair 3, writes the signature of key pair 4. */
  lemma GroupAtOne(e: Engine, c: Ctx, layer: nat, tree: nat, steps: seq<nat>, was: seq<Bytes>)
    requires |steps| == e.p.Len() <= |was|
    ensures EmittedX8(e, c, WotsGen(layer, tree), Sign(0, steps, 3), 1, was)
        == Patch(was, 0, WotsSig(e, c, layer, tree, 4, steps))
    ensures EmittedBelow(e, c, WotsGen(layer, tree), Sign(0, steps, 3), 1, 8, was)
        == Patch(was, 0, WotsSig(e, c, layer, tree, 3, steps))
    ensures !HonoursRequests(1, 1)
  {
    hide WotsSig, Patch, HonoursRequests;
    WrongPair(1, 1);
  }
}
