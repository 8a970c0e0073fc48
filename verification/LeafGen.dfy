/**
 wotsx1.c and the leaf half of fors.c: the leaf generators that TreeHash calls through a
 function pointer, with the `info` structure they share. A WOTS leaf generator also writes
 the WOTS signature when it reaches the signing leaf.
 */
module LeafGen {
  import opened Bits
  import opened Address
  import opened Engine
  import opened Spec
  import opened Merkle

  /** SPX_NO_SIGN_LEAF. */
  const NO_SIGN_LEAF := 0xFFFF_FFFF

  /** The address `f` names the subtree (`layer`, `tree`), with the spare bytes of its word clear. */
  predicate InSubtree(f: Adrs, layer: nat, tree: nat) {
    f.(kind := 0, kp := 0, c := 0, w := 0) == Pos(layer, tree, 0, 0) && f.w < 256
  }

  lemma ChainStart(f: Adrs, layer: nat, tree: nat, kp: nat, i: nat)
    requires InSubtree(f, layer, tree) && f.kp == kp % 0x1_0000_0000
    ensures f.SetChain(i).SetHash(0).SetType(WOTSPRF) == ChainPos(layer, tree, WOTSPRF, kp, i, 0)
  {
  }

  lemma ChainStep(layer: nat, tree: nat, kind: nat, kp: nat, i: nat, k: nat, v: nat)
    requires k < 256 && v < 256
    ensures ChainPos(layer, tree, kind, kp, i, k).SetHash(v).SetType(WOTS) == ChainPos(layer, tree, WOTS, kp, i, v)
  {
  }

  lemma ChainInSubtree(layer: nat, tree: nat, kind: nat, kp: nat, i: nat, k: nat)
    requires k < 256
    ensures InSubtree(ChainPos(layer, tree, kind, kp, i, k), layer, tree)
    ensures ChainPos(layer, tree, kind, kp, i, k).kp == kp % 0x1_0000_0000
  {
  }

  lemma KeypairSet(f: Adrs, g: Adrs, layer: nat, tree: nat, kp: nat)
    requires InSubtree(f, layer, tree) && g.(kp := 0) == Pos(layer, tree, WOTSPK, 0)
    ensures InSubtree(f.SetKeypair(kp), layer, tree)
    ensures g.SetKeypair(kp) == Pos(layer, tree, WOTSPK, kp) && g.SetKeypair(kp).(kp := 0)
        == Pos(layer, tree, WOTSPK, 0)
  {
  }

  /** `was` with `part` written at `off`: the effect of copying a run of blocks into a buffer. */
  ghost function Patch(was: seq<Bytes>, off: nat, part: seq<Bytes>): (r: seq<Bytes>)
    requires off + |part| <= |was|
    ensures |r| == |was|
  {
    was[..off] + part + was[off + |part|..]
  }

  lemma PatchNone(was: seq<Bytes>, off: nat)
    requires off <= |was|
    ensures Patch(was, off, []) == was
  {
  }

  lemma PatchGrow(was: seq<Bytes>, off: nat, part: seq<Bytes>, i: nat)
    requires off + |part| <= |was| && i < |part|
    ensures Patch(was, off, part[..i])[off + i := part[i]] == Patch(was, off, part[..i + 1])
  {
  }

  /** What a WOTS leaf generator has been asked to sign: chain positions `steps` of leaf `leaf`, written at `off`. */
  datatype Job = NoJob | Sign(off: nat, steps: seq<nat>, leaf: nat)

  /** A buffer after leaf `idx` has been generated: the WOTS signature appears at the signing leaf only. */
  ghost function Emitted(e: Engine, c: Ctx, g: Gen, job: Job, idx: nat, was: seq<Bytes>): (r: seq<Bytes>)
    ensures |r| == |was|
  {
    if g.WotsGen? && job.Sign? && idx == job.leaf && job.off + |job.steps| <= |was|
    then Patch(was, job.off, WotsSig(e, c, g.layer, g.tree, idx, job.steps))
    else was
  }

  /** A buffer after the leaves `off .. off + n` have been generated. */
  ghost function EmittedBelow(e: Engine, c: Ctx, g: Gen, job: Job, off: nat, n: nat, was: seq<Bytes>): (r: seq<Bytes>)
    ensures |r| == |was|
  {
    if job.Sign? && off <= job.leaf < off + n then Emitted(e, c, g, job, job.leaf, was) else was
  }

  lemma EmitStep(e: Engine, c: Ctx, g: Gen, job: Job, off: nat, n: nat, was: seq<Bytes>)
    ensures EmittedBelow(e, c, g, job, off, 0, was) == was
    ensures Emitted(e, c, g, job, n + off, EmittedBelow(e, c, g, job, off, n, was))
        == EmittedBelow(e, c, g, job, off, n + 1, was)
  {
  }

  /** A signing request that `out` can hold before `at`. */
  predicate JobFits(p: Params, job: Job, at: nat) {
    job.Sign? ==>
      |job.steps| == p.Len() && (forall x | x in job.steps :: x < p.w) && job.off + |job.steps| <= at
      && job.leaf != NO_SIGN_LEAF
  }

  /** `struct leaf_info_x1` / `struct fors_gen_leaf_info`, with the function pointer it travels with. */
  class LeafInfo {
    const gen: Gen
    const leafAddr: Addr
    const pkAddr: Addr
    const job: Job

    constructor (gen: Gen, leafAddr: Addr, pkAddr: Addr, job: Job)
      ensures this.gen == gen && this.leafAddr == leafAddr && this.pkAddr == pkAddr && this.job == job
    {
      this.gen, this.leafAddr, this.pkAddr, this.job := gen, leafAddr, pkAddr, job;
    }

    ghost predicate Valid()
      reads leafAddr, pkAddr
    {
      && leafAddr != pkAddr
      && match gen
         case WotsGen(layer, tree) => InSubtree(leafAddr.f, layer, tree)
           && pkAddr.f.(kp := 0) == Pos(layer, tree, WOTSPK, 0)
         case ForsGen(tree, kp) => leafAddr.f.(kind := 0, w := 0) == Pos(0, tree, 0, kp)
    }
  }

  /** The chain loop of one leaf: walks chain `i` to its top, saving position `save` on the way. */
  method WalkChain(e: Engine, c: Ctx, addr: Addr, layer: nat, tree: nat, kp: nat, i: nat, sig: array?<Bytes>,
      at: nat, save: nat)
    returns (top: Bytes)
    requires InSubtree(addr.f, layer, tree) && addr.f.kp == kp % 0x1_0000_0000
    requires sig != null ==> at < sig.Length && save < e.p.w
    modifies addr, if sig == null then {} else {sig}
    ensures InSubtree(addr.f, layer, tree) && addr.f.kp == kp % 0x1_0000_0000
    ensures top == Chain(e, c, layer, tree, kp, i, e.p.w - 1)
    ensures sig != null ==> sig[..] == old(sig[..])[at := Chain(e, c, layer, tree, kp, i, save)]
  {
    ChainStart(addr.f, layer, tree, kp, i);
    addr.f := addr.f.SetChain(i).SetHash(0).SetType(WOTSPRF);
    top := e.prf(c.pub, c.sk, addr.f);
    ChainStep(layer, tree, WOTSPRF, kp, i, 0, 0);
    addr.f := addr.f.SetType(WOTS);
    var k := 0;
    while true
      invariant 0 <= k <= e.p.w - 1
      invariant addr.f == ChainPos(layer, tree, WOTS, kp, i, if k == 0 then 0 else k - 1)
      invariant top == Chain(e, c, layer, tree, kp, i, k)
      invariant sig != null ==>
          sig[..] == if k <= save then old(sig[..]) else old(sig[..])[at := Chain(e, c, layer, tree, kp, i, save)]
      decreases e.p.w - k
    {
      if sig != null && k == save {
        sig[at] := top;
      }
      if k == e.p.w - 1 { break; }
      ChainStep(layer, tree, WOTS, kp, i, if k == 0 then 0 else k - 1, k);
      addr.f := addr.f.SetHash(k);
      top := e.thash(c.pub, addr.f, [top]);
      k := k + 1;
    }
    ChainInSubtree(layer, tree, WOTS, kp, i, if k == 0 then 0 else k - 1);
  }

  /** `wots_gen_leafx1_scalar`. */
  method WotsGenLeafX1(e: Engine, c: Ctx, info: LeafInfo, idx: nat, out: array<Bytes>) returns (leaf: Bytes)
    requires info.gen.WotsGen? && info.Valid() && JobFits(e.p, info.job, out.Length)
    modifies info.leafAddr, info.pkAddr, out
    ensures info.Valid()
    ensures leaf == WotsLeaf(e, c, info.gen.layer, info.gen.tree, idx)
    ensures out[..] == Emitted(e, c, info.gen, info.job, idx, old(out[..]))
  {
    hide InSubtree, Pos, Patch, Chain;
    var layer, tree := info.gen.layer, info.gen.tree;
    var doSign := info.job.Sign? && idx == info.job.leaf;
    ghost var part := if doSign then WotsSig(e, c, layer, tree, idx, info.job.steps) else [];
    KeypairSet(info.leafAddr.f, info.pkAddr.f, layer, tree, idx);
    PatchNone(out[..], if doSign then info.job.off else 0);
    info.leafAddr.f := info.leafAddr.f.SetKeypair(idx);
    info.pkAddr.f := info.pkAddr.f.SetKeypair(idx);
    var pkBuffer: seq<Bytes> := [];
    var i := 0;
    while i < e.p.Len()
      invariant 0 <= i <= e.p.Len() && |pkBuffer| == i
      invariant InSubtree(info.leafAddr.f, layer, tree) && info.leafAddr.f.kp == idx % 0x1_0000_0000
      invariant info.pkAddr.f == Pos(layer, tree, WOTSPK, idx)
      invariant pkBuffer == WotsPk(e, c, layer, tree, idx)[..i]
      invariant out[..] == if doSign then Patch(old(out[..]), info.job.off, part[..i]) else old(out[..])
    {
      var at, save := 0, 0;
      if doSign {
        at, save := info.job.off + i, info.job.steps[i];
        assert save in info.job.steps;
        PatchGrow(old(out[..]), info.job.off, part, i);
      }
      var top := WalkChain(e, c, info.leafAddr, layer, tree, idx, i, if doSign then out else null, at, save);
      pkBuffer := pkBuffer + [top];
      i := i + 1;
    }
    assert pkBuffer == WotsPk(e, c, layer, tree, idx);
    assert doSign ==> part[..i] == part;
    leaf := e.thash(c.pub, info.pkAddr.f, pkBuffer);
  }

  /** `fors_gen_leafx1`. */
  method ForsGenLeafX1(e: Engine, c: Ctx, info: LeafInfo, idx: nat) returns (leaf: Bytes)
    requires info.gen.ForsGen? && info.Valid()
    modifies info.leafAddr
    ensures info.Valid()
    ensures leaf == ForsLeaf(e, c, info.gen.tree, info.gen.kp, idx)
  {
    info.leafAddr.f := info.leafAddr.f.SetIndex(idx).SetType(FORSPRF);
    leaf := e.prf(c.pub, c.sk, info.leafAddr.f);
    info.leafAddr.f := info.leafAddr.f.SetType(FORSTREE);
    leaf := e.thash(c.pub, info.leafAddr.f, [leaf]);
  }

  lemma EmittedPrefix(e: Engine, c: Ctx, g: Gen, job: Job, idx: nat, was: seq<Bytes>, at: nat)
    requires at <= |was| && JobFits(e.p, job, at)
    ensures Emitted(e, c, g, job, idx, was) == Emitted(e, c, g, job, idx, was[..at]) + was[at..]
  {
    assert was == was[..at] + was[at..];
  }

  /** The call through `gen_leaf`: only the part of `out` before `at` may change. */
  method GenLeaf(e: Engine, c: Ctx, info: LeafInfo, idx: nat, out: array<Bytes>, ghost at: nat) returns (leaf: Bytes)
    requires info.Valid() && at <= out.Length && JobFits(e.p, info.job, at)
    modifies info.leafAddr, info.pkAddr, out
    ensures info.Valid()
    ensures leaf == Leaf(e, c, info.gen, idx)
    ensures out[at..] == old(out[at..])
    ensures out[..at] == Emitted(e, c, info.gen, info.job, idx, old(out[..at]))
  {
    hide Emitted, Patch, WotsLeaf, ForsLeaf;
    EmittedPrefix(e, c, info.gen, info.job, idx, out[..], at);
    assert out[..][..at] == out[..at] && out[..][at..] == out[at..];
    if info.gen.WotsGen? {
      leaf := WotsGenLeafX1(e, c, info, idx, out);
    } else {
      NothingEmitted(e, c, info.gen, info.job, idx, out[..at]);
      leaf := ForsGenLeafX1(e, c, info, idx);
    }
  }

  lemma NothingEmitted(e: Engine, c: Ctx, g: Gen, job: Job, idx: nat, was: seq<Bytes>)
    requires g.ForsGen?
    ensures Emitted(e, c, g, job, idx, was) == was
  {
  }

  /**
   What TreeHash leaves in the buffer: the WOTS signature asked for, if any, and at `at` the
   authentication path of a leaf of the tree; a leaf number outside the tree leaves the path alone.
   */
  ghost function TreeHashOut(e: Engine, c: Ctx, g: Gen, job: Job, off: nat, leaf: nat, height: nat, at: nat,
      was: seq<Bytes>): (r: seq<Bytes>)
    requires at + height <= |was|
    ensures |r| == |was|
  {
    Patch(EmittedBelow(e, c, g, job, off, Pow2(height), was), at,
          if leaf < Pow2(height) then AuthPath(TreeOf(e, c, g, off), leaf, height) else was[at..at + height])
  }

  lemma PutTogether(front: seq<Bytes>, was: seq<Bytes>, now: seq<Bytes>, at: nat, height: nat)
    requires at + height <= |was| == |now| && front == now[..at] + was[at..] && now[at + height..] == was[at + height..]
    ensures now == Patch(front, at, now[at..at + height])
  {
    assert front[at + height..] == was[at + height..];
    assert now == now[..at] + now[at..at + height] + now[at + height..];
  }

  /** The buffer put together from its three parts. */
  lemma TreeHashOutIs(e: Engine, c: Ctx, g: Gen, job: Job, off: nat, leaf: nat, height: nat, at: nat,
      was: seq<Bytes>, now: seq<Bytes>)
    requires at + height <= |was| == |now| && JobFits(e.p, job, at)
    requires now[..at] == EmittedBelow(e, c, g, job, off, Pow2(height), was[..at])
    requires now[at..at + height] == if leaf < Pow2(height) then AuthPath(TreeOf(e, c, g, off), leaf, height)
        else was[at..at + height]
    requires now[at + height..] == was[at + height..]
    ensures now == TreeHashOut(e, c, g, job, off, leaf, height, at, was)
  {
    hide Emitted, AuthPath, TreeOf, Pow2;
    if job.Sign? { EmittedPrefix(e, c, g, job, job.leaf, was, at); }
    assert was == was[..at] + was[at..];
    PutTogether(EmittedBelow(e, c, g, job, off, Pow2(height), was), was, now, at, height);
  }

  lemma PatchSeq(was: seq<Bytes>, at: nat, front: seq<Bytes>, back: seq<Bytes>)
    requires at + |front| + |back| <= |was|
    ensures Patch(Patch(was, at, front), at + |front|, back) == Patch(was, at, front + back)
  {
  }
}
