/**
 The eight-lane leaf generators: `wots_gen_leafx8` (wotsx1.c) and `fors_gen_leafx8` (fors.c).
 `thashx8` and `prf_addrx8` are eight independent scalar calls.
 */
module LeafGenX8 {
  import opened Bits
  import opened Address
  import opened Engine
  import opened Spec
  import opened LeafGen

  /** A logical node: eight consecutive nodes. */
  type Row = s: seq<Bytes> | |s| == 8 witness [[], [], [], [], [], [], [], []]

  function ThashX8(e: Engine, pub: Bytes, adrs: seq<Adrs>, ins: seq<seq<Bytes>>): (r: Row)
    requires |adrs| == |ins| == 8
    ensures forall j | 0 <= j < 8 :: r[j] == e.thash(pub, adrs[j], ins[j])
  {
    seq(8, j requires 0 <= j < 8 => e.thash(pub, adrs[j], ins[j]))
  }

  function PrfX8(e: Engine, pub: Bytes, sk: Bytes, adrs: seq<Adrs>): (r: Row)
    requires |adrs| == 8
    ensures forall j | 0 <= j < 8 :: r[j] == e.prf(pub, sk, adrs[j])
  {
    seq(8, j requires 0 <= j < 8 => e.prf(pub, sk, adrs[j]))
  }

  /** `struct leaf_info_x8` / `struct fors_gen_leaf_info_x8`. */
  class LeafInfoX8 {
    const gen: Gen
    const leafAddr: array<Adrs>
    const pkAddr: array<Adrs>
    const job: Job

    constructor (gen: Gen, leafAddr: array<Adrs>, pkAddr: array<Adrs>, job: Job)
      ensures this.gen == gen && this.leafAddr == leafAddr && this.pkAddr == pkAddr && this.job == job
    {
      this.gen, this.leafAddr, this.pkAddr, this.job := gen, leafAddr, pkAddr, job;
    }

    ghost predicate Valid()
      reads leafAddr, pkAddr
    {
      && leafAddr != pkAddr && leafAddr.Length == 8 && pkAddr.Length == 8
      && match gen
         case WotsGen(layer, tree) =>
           && (forall j | 0 <= j < 8 :: InSubtree(leafAddr[j], layer, tree))
           && (forall j | 0 <= j < 8 :: pkAddr[j].(kp := 0) == Pos(layer, tree, WOTSPK, 0))
         case ForsGen(tree, kp) => forall j | 0 <= j < 8 :: leafAddr[j].(kind := 0, w := 0) == Pos(0, tree, 0, kp)
    }
  }

  /** The eight lanes hold position `k` of chain `i` of consecutive key pairs. */
  ghost predicate LanesAt(adrs: seq<Adrs>, layer: nat, tree: nat, kind: nat, kp: nat, i: nat, k: nat) {
    |adrs| == 8 && forall j | 0 <= j < 8 :: adrs[j] == ChainPos(layer, tree, kind, kp + j, i, k)
  }

  ghost predicate LanesIn(adrs: seq<Adrs>, layer: nat, tree: nat, kp: nat) {
    |adrs| == 8 && forall j | 0 <= j < 8 :: InSubtree(adrs[j], layer, tree) && adrs[j].kp == (kp + j) % 0x1_0000_0000
  }

  ghost predicate ChainRow(e: Engine, c: Ctx, row: Row, layer: nat, tree: nat, kp: nat, i: nat, k: nat) {
    forall j | 0 <= j < 8 :: row[j] == Chain(e, c, layer, tree, kp + j, i, k)
  }

  lemma ChainRowStep(e: Engine, c: Ctx, row: Row, adrs: seq<Adrs>, layer: nat, tree: nat, kp: nat, i: nat, k: nat)
    requires ChainRow(e, c, row, layer, tree, kp, i, k) && LanesAt(adrs, layer, tree, WOTS, kp, i, k)
    ensures ChainRow(e, c, ThashX8(e, c.pub, adrs, seq(8, j requires 0 <= j < 8 => [row[j]])), layer, tree, kp, i,
        k + 1)
  {
    hide ChainPos;
  }

  /** Eight chains walked side by side; the signing lane is saved at position `save`. */
  method WalkChainX8(e: Engine, c: Ctx, adrs: array<Adrs>, layer: nat, tree: nat, kp: nat, i: nat,
      sig: array?<Bytes>, at: nat, save: nat, lane: nat)
    returns (tops: Row)
    requires LanesIn(adrs[..], layer, tree, kp) && lane < 8
    requires sig != null ==> at < sig.Length && save < e.p.w
    modifies adrs, if sig == null then {} else {sig}
    ensures LanesIn(adrs[..], layer, tree, kp)
    ensures ChainRow(e, c, tops, layer, tree, kp, i, e.p.w - 1)
    ensures sig != null ==> sig[..] == old(sig[..])[at := Chain(e, c, layer, tree, kp + lane, i, save)]
  {
    hide ChainPos, Chain, InSubtree;
    StartLanes(adrs, layer, tree, kp, i);
    tops := PrfX8(e, c.pub, c.sk, adrs[..]);
    ChainRowStart(e, c, adrs[..], layer, tree, kp, i);
    SetTypeLanes(adrs, layer, tree, kp, i);
    var k := 0;
    while true
      invariant 0 <= k <= e.p.w - 1
      invariant LanesAt(adrs[..], layer, tree, WOTS, kp, i, if k == 0 then 0 else k - 1)
      invariant ChainRow(e, c, tops, layer, tree, kp, i, k)
      invariant sig != null ==>
          sig[..] == if k <= save then old(sig[..])
          else old(sig[..])[at := Chain(e, c, layer, tree, kp + lane, i, save)]
      decreases e.p.w - k
    {
      if sig != null && k == save {
        sig[at] := tops[lane];
      }
      if k == e.p.w - 1 { break; }
      SetHashLanes(adrs, layer, tree, kp, i, if k == 0 then 0 else k - 1, k);
      ChainRowStep(e, c, tops, adrs[..], layer, tree, kp, i, k);
      tops := ThashX8(e, c.pub, adrs[..], seq(8, j requires 0 <= j < 8 => [tops[j]]));
      k := k + 1;
    }
    LanesAtIn(adrs[..], layer, tree, WOTS, kp, i, if k == 0 then 0 else k - 1);
  }

  method StartLanes(adrs: array<Adrs>, layer: nat, tree: nat, kp: nat, i: nat)
    requires LanesIn(adrs[..], layer, tree, kp)
    modifies adrs
    ensures LanesAt(adrs[..], layer, tree, WOTSPRF, kp, i, 0)
  {
    forall j | 0 <= j < 8 { adrs[j] := adrs[j].SetChain(i).SetHash(0).SetType(WOTSPRF); }
    forall j | 0 <= j < 8 ensures adrs[j] == ChainPos(layer, tree, WOTSPRF, kp + j, i, 0) {
      assert old(adrs[..])[j] == old(adrs[j]);
      ChainStart(old(adrs[j]), layer, tree, kp + j, i);
    }
  }

  method SetTypeLanes(adrs: array<Adrs>, layer: nat, tree: nat, kp: nat, i: nat)
    requires LanesAt(adrs[..], layer, tree, WOTSPRF, kp, i, 0)
    modifies adrs
    ensures LanesAt(adrs[..], layer, tree, WOTS, kp, i, 0)
  {
    forall j | 0 <= j < 8 { adrs[j] := adrs[j].SetType(WOTS); }
    forall j | 0 <= j < 8 ensures adrs[j] == ChainPos(layer, tree, WOTS, kp + j, i, 0) {
      assert old(adrs[..])[j] == old(adrs[j]);
    }
  }

  method SetHashLanes(adrs: array<Adrs>, layer: nat, tree: nat, kp: nat, i: nat, k: nat, v: nat)
    requires LanesAt(adrs[..], layer, tree, WOTS, kp, i, k) && k < 256 && v < 256
    modifies adrs
    ensures LanesAt(adrs[..], layer, tree, WOTS, kp, i, v)
  {
    forall j | 0 <= j < 8 { adrs[j] := adrs[j].SetHash(v); }
    forall j | 0 <= j < 8 ensures adrs[j] == ChainPos(layer, tree, WOTS, kp + j, i, v) {
      assert old(adrs[..])[j] == old(adrs[j]);
      ChainStep(layer, tree, WOTS, kp + j, i, k, v);
    }
  }

  lemma ChainRowStart(e: Engine, c: Ctx, adrs: seq<Adrs>, layer: nat, tree: nat, kp: nat, i: nat)
    requires LanesAt(adrs, layer, tree, WOTSPRF, kp, i, 0)
    ensures ChainRow(e, c, PrfX8(e, c.pub, c.sk, adrs), layer, tree, kp, i, 0)
  {
  }

  lemma LanesAtIn(adrs: seq<Adrs>, layer: nat, tree: nat, kind: nat, kp: nat, i: nat, k: nat)
    requires LanesAt(adrs, layer, tree, kind, kp, i, k) && k < 256
    ensures LanesIn(adrs, layer, tree, kp)
  {
    hide ChainPos, InSubtree;
    forall j | 0 <= j < 8 ensures InSubtree(adrs[j], layer, tree) && adrs[j].kp == (kp + j) % 0x1_0000_0000 {
      ChainInSubtree(layer, tree, kind, kp + j, i, k);
    }
  }

  /** The public-key blocks of lane `j`, collected column by column. */
  function Column(cols: seq<Row>, j: nat): (r: seq<Bytes>)
    requires j < 8
    ensures |r| == |cols|
  {
    seq(|cols|, i requires 0 <= i < |cols| => cols[i][j])
  }

  ghost predicate PkColumns(e: Engine, c: Ctx, cols: seq<Row>, layer: nat, tree: nat, kp: nat) {
    forall i | 0 <= i < |cols| :: ChainRow(e, c, cols[i], layer, tree, kp, i, e.p.w - 1)
  }

  lemma ColumnIsPk(e: Engine, c: Ctx, cols: seq<Row>, layer: nat, tree: nat, kp: nat, j: nat)
    requires |cols| == e.p.Len() && PkColumns(e, c, cols, layer, tree, kp) && j < 8
    ensures Column(cols, j) == WotsPk(e, c, layer, tree, kp + j)
  {
    hide Chain;
    forall i | 0 <= i < |cols| ensures cols[i][j] == Chain(e, c, layer, tree, kp + j, i, e.p.w - 1) {
      assert ChainRow(e, c, cols[i], layer, tree, kp, i, e.p.w - 1);
    }
  }

  /** The eight addresses of consecutive WOTS public keys. */
  ghost predicate PkLanes(adrs: seq<Adrs>, layer: nat, tree: nat, kp: nat) {
    |adrs| == 8 && forall j | 0 <= j < 8 :: adrs[j] == Pos(layer, tree, WOTSPK, kp + j)
  }

  lemma PkColumnsStep(e: Engine, c: Ctx, cols: seq<Row>, tops: Row, layer: nat, tree: nat, kp: nat)
    requires PkColumns(e, c, cols, layer, tree, kp) && ChainRow(e, c, tops, layer, tree, kp, |cols|, e.p.w - 1)
    ensures PkColumns(e, c, cols + [tops], layer, tree, kp)
  {
    hide ChainRow;
  }

  lemma PkColumnsNone(e: Engine, c: Ctx, layer: nat, tree: nat, kp: nat)
    ensures PkColumns(e, c, [], layer, tree, kp)
  {
  }

  /** The last hash of `wots_gen_leafx8` gives the eight leaves, and the address buffers stay usable. */
  lemma LeavesAre(e: Engine, c: Ctx, cols: seq<Row>, leafAdrs: seq<Adrs>, pkAdrs: seq<Adrs>, layer: nat, tree: nat,
      kp: nat)
    requires |cols| == e.p.Len() && PkColumns(e, c, cols, layer, tree, kp)
    requires LanesIn(leafAdrs, layer, tree, kp) && PkLanes(pkAdrs, layer, tree, kp)
    ensures var leaves := ThashX8(e, c.pub, pkAdrs, seq(8, j requires 0 <= j < 8 => Column(cols, j)));
            forall j | 0 <= j < 8 :: leaves[j] == WotsLeaf(e, c, layer, tree, kp + j)
    ensures forall j | 0 <= j < 8 ::
        InSubtree(leafAdrs[j], layer, tree) && pkAdrs[j].(kp := 0) == Pos(layer, tree, WOTSPK, 0)
  {
    hide PkColumns, InSubtree, Pos, Chain;
    forall j | 0 <= j < 8
      ensures WotsLeaf(e, c, layer, tree, kp + j) == e.thash(c.pub, pkAdrs[j], Column(cols, j))
      ensures pkAdrs[j].(kp := 0) == Pos(layer, tree, WOTSPK, 0)
    {
      ColumnIsPk(e, c, cols, layer, tree, kp, j);
      PkBase(layer, tree, kp + j);
    }
  }

  method SetKeypairs(info: LeafInfoX8, kp: nat)
    requires info.Valid() && info.gen.WotsGen?
    modifies info.leafAddr, info.pkAddr
    ensures LanesIn(info.leafAddr[..], info.gen.layer, info.gen.tree, kp)
    ensures PkLanes(info.pkAddr[..], info.gen.layer, info.gen.tree, kp)
  {
    hide InSubtree, Pos;
    forall j | 0 <= j < 8 { info.leafAddr[j] := info.leafAddr[j].SetKeypair(kp + j); }
    forall j | 0 <= j < 8 { info.pkAddr[j] := info.pkAddr[j].SetKeypair(kp + j); }
    forall j | 0 <= j < 8
      ensures InSubtree(info.leafAddr[j], info.gen.layer, info.gen.tree)
          && info.pkAddr[j] == Pos(info.gen.layer, info.gen.tree, WOTSPK, kp + j)
    {
      KeypairSet(old(info.leafAddr[j]), old(info.pkAddr[j]), info.gen.layer, info.gen.tree, kp + j);
    }
  }

  /**
   What `wots_gen_leafx8` writes for the group that starts at key pair `idx`: the test compares
   multiples of eight, and the lane saved is the request modulo eight, counted from `idx`.
   */
  ghost function EmittedX8(e: Engine, c: Ctx, g: Gen, job: Job, idx: nat, was: seq<Bytes>): (r: seq<Bytes>)
    ensures |r| == |was|
  {
    if g.WotsGen? && job.Sign? && idx / 8 == job.leaf / 8 && job.off + |job.steps| <= |was|
    then Patch(was, job.off, WotsSig(e, c, g.layer, g.tree, idx + job.leaf % 8, job.steps))
    else was
  }

  lemma EmittedX8Prefix(e: Engine, c: Ctx, g: Gen, job: Job, idx: nat, was: seq<Bytes>, at: nat)
    requires at <= |was| && JobFits(e.p, job, at)
    ensures EmittedX8(e, c, g, job, idx, was) == EmittedX8(e, c, g, job, idx, was[..at]) + was[at..]
  {
    assert was == was[..at] + was[at..];
  }

  /** `wots_gen_leafx8`: eight leaves from any key pair on, and the chain values of one lane. */
  method WotsGenLeafX8(e: Engine, c: Ctx, info: LeafInfoX8, idx: nat, out: array<Bytes>) returns (leaves: Row)
    requires info.gen.WotsGen? && info.Valid() && JobFits(e.p, info.job, out.Length)
    modifies info.leafAddr, info.pkAddr, out
    ensures info.Valid()
    ensures forall j | 0 <= j < 8 :: leaves[j] == WotsLeaf(e, c, info.gen.layer, info.gen.tree, idx + j)
    ensures out[..] == EmittedX8(e, c, info.gen, info.job, idx, old(out[..]))
  {
    hide InSubtree, Pos, Patch, Chain, ChainRow, LanesIn, PkLanes, PkColumns, WotsLeaf, WotsSig;
    var layer, tree := info.gen.layer, info.gen.tree;
    var doSign := info.job.Sign? && idx / 8 == info.job.leaf / 8;
    var lane := if doSign then info.job.leaf % 8 else 0;
    ghost var part := if doSign then WotsSig(e, c, layer, tree, idx + lane, info.job.steps) else [];
    SetKeypairs(info, idx);
    PatchNone(out[..], if doSign then info.job.off else 0);
    var cols: seq<Row> := [];
    PkColumnsNone(e, c, layer, tree, idx);
    var i := 0;
    while i < e.p.Len()
      invariant 0 <= i <= e.p.Len() && |cols| == i
      invariant LanesIn(info.leafAddr[..], layer, tree, idx) && PkLanes(info.pkAddr[..], layer, tree, idx)
      invariant PkColumns(e, c, cols, layer, tree, idx)
      invariant out[..] == if doSign then Patch(old(out[..]), info.job.off, part[..i]) else old(out[..])
    {
      var at, save := 0, 0;
      if doSign {
        at, save := info.job.off + i, info.job.steps[i];
        assert save in info.job.steps;
        PatchGrow(old(out[..]), info.job.off, part, i);
        SigAt(e, c, layer, tree, idx + lane, info.job.steps, i);
      }
      ghost var pkAdrs := info.pkAddr[..];
      var tops := WalkChainX8(e, c, info.leafAddr, layer, tree, idx, i, if doSign then out else null, at, save, lane);
      assert info.pkAddr[..] == pkAdrs;
      PkColumnsStep(e, c, cols, tops, layer, tree, idx);
      cols := cols + [tops];
      i := i + 1;
    }
    assert doSign ==> part[..i] == part;
    LeavesAre(e, c, cols, info.leafAddr[..], info.pkAddr[..], layer, tree, idx);
    leaves := ThashX8(e, c.pub, info.pkAddr[..], seq(8, j requires 0 <= j < 8 => Column(cols, j)));
    assert forall j | 0 <= j < 8 :: info.leafAddr[..][j] == info.leafAddr[j] && info.pkAddr[..][j] == info.pkAddr[j];
  }

  lemma SigAt(e: Engine, c: Ctx, layer: nat, tree: nat, kp: nat, steps: seq<nat>, i: nat)
    requires i < |steps|
    ensures WotsSig(e, c, layer, tree, kp, steps)[i] == Chain(e, c, layer, tree, kp, i, steps[i])
  {
    hide Chain;
  }

  lemma PkBase(layer: nat, tree: nat, kp: nat)
    ensures Pos(layer, tree, WOTSPK, kp).(kp := 0) == Pos(layer, tree, WOTSPK, 0)
  {
  }

  lemma ForsLane(f: Adrs, tree: nat, kp: nat, idx: nat)
    requires f.(kind := 0, w := 0) == Pos(0, tree, 0, kp)
    ensures f.SetIndex(idx).SetType(FORSPRF) == Pos(0, tree, FORSPRF, kp).SetIndex(idx)
    ensures f.SetIndex(idx).SetType(FORSPRF).SetType(FORSTREE) == Pos(0, tree, FORSTREE, kp).SetIndex(idx)
    ensures Pos(0, tree, FORSTREE, kp).SetIndex(idx).(kind := 0, w := 0) == Pos(0, tree, 0, kp)
  {
  }

  /** `fors_gen_leafx8`. */
  method ForsGenLeafX8(e: Engine, c: Ctx, info: LeafInfoX8, idx: nat) returns (leaves: Row)
    requires info.gen.ForsGen? && info.Valid()
    modifies info.leafAddr
    ensures info.Valid()
    ensures forall j | 0 <= j < 8 :: leaves[j] == ForsLeaf(e, c, info.gen.tree, info.gen.kp, idx + j)
  {
    hide Pos;
    var tree, kp := info.gen.tree, info.gen.kp;
    var adrs := info.leafAddr;
    forall j | 0 <= j < 8 { adrs[j] := adrs[j].SetIndex(idx + j).SetType(FORSPRF); }
    forall j | 0 <= j < 8 ensures adrs[j]
      == Pos(0, tree, FORSPRF, kp).SetIndex(idx + j) { ForsLane(old(adrs[j]), tree, kp, idx + j); }
    var sks := PrfX8(e, c.pub, c.sk, adrs[..]);
    forall j | 0 <= j < 8 { adrs[j] := adrs[j].SetType(FORSTREE); }
    forall j | 0 <= j < 8
      ensures adrs[j] == Pos(0, tree, FORSTREE, kp).SetIndex(idx + j) && adrs[j].(kind := 0, w := 0)
          == Pos(0, tree, 0, kp)
    {
      ForsLane(old(adrs[j]), tree, kp, idx + j);
    }
    leaves := ThashX8(e, c.pub, adrs[..], seq(8, j requires 0 <= j < 8 => [sks[j]]));
  }

  /** The call through `gen_leafx8`; a signing request is honoured one lane at a time. */
  method GenLeafX8(e: Engine, c: Ctx, info: LeafInfoX8, idx: nat, out: array<Bytes>, ghost at: nat)
      returns (leaves: Row)
    requires info.Valid() && at <= out.Length && JobFits(e.p, info.job, at)
    modifies info.leafAddr, info.pkAddr, out
    ensures info.Valid()
    ensures forall j | 0 <= j < 8 :: leaves[j] == Leaf(e, c, info.gen, idx + j)
    ensures out[at..] == old(out[at..])
    ensures out[..at] == EmittedX8(e, c, info.gen, info.job, idx, old(out[..at]))
  {
    hide EmittedX8, WotsLeaf, ForsLeaf;
    EmittedX8Prefix(e, c, info.gen, info.job, idx, out[..], at);
    assert out[..][..at] == out[..at] && out[..][at..] == out[at..];
    if info.gen.WotsGen? {
      leaves := WotsGenLeafX8(e, c, info, idx, out);
    } else {
      NothingEmittedX8(e, c, info.gen, info.job, idx, out[..at]);
      leaves := ForsGenLeafX8(e, c, info, idx);
    }
  }

  lemma NothingEmittedX8(e: Engine, c: Ctx, g: Gen, job: Job, idx: nat, was: seq<Bytes>)
    requires g.ForsGen?
    ensures EmittedX8(e, c, g, job, idx, was) == was
  {
  }
}
