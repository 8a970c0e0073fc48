/**
 `wots_gen_leafx1_avx2` (wotsx1.c): one WOTS leaf, with eight of its chains walked side by side
 and a last group that may be narrower. The unused lanes hash garbage that is never read.
 */
module ChainLanes {
  import opened Bits
  import opened Address
  import opened Engine
  import opened Spec
  import opened LeafGen
  import opened LeafGenX8

  /** The first `lanes` lanes hold position `k` of chains `i`, `i + 1`, ... of one key pair. */
  ghost predicate GroupAt(adrs: seq<Adrs>, layer: nat, tree: nat, kind: nat, kp: nat, i: nat, k: nat, lanes: nat) {
    |adrs| == 8 && lanes <= 8 && forall j | 0 <= j < lanes :: adrs[j] == ChainPos(layer, tree, kind, kp, i + j, k)
  }

  ghost predicate GroupRow(e: Engine, c: Ctx, row: Row, layer: nat, tree: nat, kp: nat, i: nat, k: nat, lanes: nat) {
    lanes <= 8 && forall j | 0 <= j < lanes :: row[j] == Chain(e, c, layer, tree, kp, i + j, k)
  }

  lemma GroupRowStep(e: Engine, c: Ctx, row: Row, adrs: seq<Adrs>, layer: nat, tree: nat, kp: nat, i: nat, k: nat,
      lanes: nat)
    requires GroupRow(e, c, row, layer, tree, kp, i, k, lanes) && GroupAt(adrs, layer, tree, WOTS, kp, i, k, lanes)
    ensures GroupRow(e, c, ThashX8(e, c.pub, adrs, seq(8, j requires 0 <= j < 8 => [row[j]])), layer, tree, kp, i,
        k + 1, lanes)
  {
    hide ChainPos;
  }

  lemma GroupRowStart(e: Engine, c: Ctx, adrs: seq<Adrs>, layer: nat, tree: nat, kp: nat, i: nat, lanes: nat)
    requires GroupAt(adrs, layer, tree, WOTSPRF, kp, i, 0, lanes)
    ensures GroupRow(e, c, PrfX8(e, c.pub, c.sk, adrs), layer, tree, kp, i, 0, lanes)
  {
  }

  /** The eight address copies of a group; lanes past the last chain get chain 0. */
  method StartGroup(f: Adrs, layer: nat, tree: nat, kp: nat, i: nat, lanes: nat) returns (adrs: array<Adrs>)
    requires InSubtree(f, layer, tree) && f.kp == kp % 0x1_0000_0000 && lanes <= 8
    ensures fresh(adrs) && adrs.Length == 8 && GroupAt(adrs[..], layer, tree, WOTSPRF, kp, i, 0, lanes)
  {
    hide InSubtree, ChainPos;
    adrs := new Adrs[8](_ => f);
    for j := 0 to 8
      invariant forall l | 0 <= l < j && l < lanes :: adrs[l] == ChainPos(layer, tree, WOTSPRF, kp, i + l, 0)
      invariant forall l | j <= l < 8 :: adrs[l] == f
    {
      ChainStart(f, layer, tree, kp, i + j);
      adrs[j] := adrs[j].SetChain(if j < lanes then i + j else 0).SetHash(0).SetType(WOTSPRF);
    }
  }

  method SetTypeGroup(adrs: array<Adrs>, layer: nat, tree: nat, kp: nat, i: nat, lanes: nat)
    requires GroupAt(adrs[..], layer, tree, WOTSPRF, kp, i, 0, lanes)
    modifies adrs
    ensures GroupAt(adrs[..], layer, tree, WOTS, kp, i, 0, lanes)
  {
    assert forall j | 0 <= j < lanes :: adrs[j] == adrs[..][j];
    forall j | 0 <= j < lanes { adrs[j] := adrs[j].SetType(WOTS); }
    assert forall j | 0 <= j < lanes :: adrs[..][j] == adrs[j];
  }

  method SetHashGroup(adrs: array<Adrs>, layer: nat, tree: nat, kp: nat, i: nat, k: nat, v: nat, lanes: nat)
    requires GroupAt(adrs[..], layer, tree, WOTS, kp, i, k, lanes) && k < 256 && v < 256
    modifies adrs
    ensures GroupAt(adrs[..], layer, tree, WOTS, kp, i, v, lanes)
  {
    hide ChainPos;
    ghost var was := adrs[..];
    forall j | 0 <= j < lanes { adrs[j] := adrs[j].SetHash(v); }
    forall j | 0 <= j < lanes ensures adrs[..][j] == ChainPos(layer, tree, WOTS, kp, i + j, v) {
      assert adrs[j] == was[j].SetHash(v);
      SameTypeStep(layer, tree, kp, i + j, k, v);
    }
  }

  lemma SameTypeStep(layer: nat, tree: nat, kp: nat, i: nat, k: nat, v: nat)
    requires k < 256 && v < 256
    ensures ChainPos(layer, tree, WOTS, kp, i, k).SetHash(v) == ChainPos(layer, tree, WOTS, kp, i, v)
  {
  }

  /**
   After the positions below `k` (below `k + 1` in the first `m` lanes), the saved values are in
   place and nothing else changed.
   */
  ghost predicate Saved(e: Engine, c: Ctx, layer: nat, tree: nat, kp: nat, steps: seq<nat>, i: nat, lanes: nat,
                        was: seq<Bytes>, now: seq<Bytes>, at: nat, k: nat, m: nat) {
    && |was| == |now| && at + lanes <= |was| && i + lanes <= |steps|
    && now[..at] == was[..at] && now[at + lanes..] == was[at + lanes..]
    && forall j | 0 <= j < lanes :: LaneIs(e, c, layer, tree, kp, steps, i, was, now, at, k, m, j)
  }

  ghost predicate LaneIs(e: Engine, c: Ctx, layer: nat, tree: nat, kp: nat, steps: seq<nat>, i: nat, was: seq<Bytes>,
      now: seq<Bytes>, at: nat, k: nat, m: nat, j: nat) {
    && at + j < |was| == |now| && i + j < |steps|
    && now[at + j] == if (if j < m then k + 1 else k) <= steps[i + j] then was[at + j]
      else Chain(e, c, layer, tree, kp, i + j, steps[i + j])
  }

  lemma SavedTurn(e: Engine, c: Ctx, layer: nat, tree: nat, kp: nat, steps: seq<nat>, i: nat, lanes: nat,
      was: seq<Bytes>, now: seq<Bytes>, at: nat, k: nat)
    requires Saved(e, c, layer, tree, kp, steps, i, lanes, was, now, at, k, lanes)
    ensures Saved(e, c, layer, tree, kp, steps, i, lanes, was, now, at, k + 1, 0)
  {
    hide Chain;
    var next := k + 1;
    forall j | 0 <= j < lanes ensures LaneIs(e, c, layer, tree, kp, steps, i, was, now, at, next, 0, j) {
      assert LaneIs(e, c, layer, tree, kp, steps, i, was, now, at, k, lanes, j);
    }
  }

  lemma SavedLane(e: Engine, c: Ctx, layer: nat, tree: nat, kp: nat, steps: seq<nat>, i: nat, lanes: nat,
      was: seq<Bytes>, now: seq<Bytes>, at: nat, k: nat, m: nat, v: Bytes)
    requires m < lanes && Saved(e, c, layer, tree, kp, steps, i, lanes, was, now, at, k, m)
        && v == Chain(e, c, layer, tree, kp, i + m, k)
    ensures Saved(e, c, layer, tree, kp, steps, i, lanes, was, if k == steps[i + m] then now[at + m := v] else now,
        at, k, m + 1)
  {
    hide Chain;
    var now' := if k == steps[i + m] then now[at + m := v] else now;
    var done := m + 1;
    forall j | 0 <= j < lanes ensures LaneIs(e, c, layer, tree, kp, steps, i, was, now', at, k, done, j) {
      assert LaneIs(e, c, layer, tree, kp, steps, i, was, now, at, k, m, j);
    }
  }

  lemma SavedAll(e: Engine, c: Ctx, layer: nat, tree: nat, kp: nat, steps: seq<nat>, i: nat, lanes: nat,
      was: seq<Bytes>, now: seq<Bytes>, at: nat, k: nat)
    requires Saved(e, c, layer, tree, kp, steps, i, lanes, was, now, at, k, lanes) && forall x | x in steps :: x <= k
    ensures now == Patch(was, at, WotsSig(e, c, layer, tree, kp, steps)[i..i + lanes])
  {
    hide Chain;
    var part := WotsSig(e, c, layer, tree, kp, steps)[i..i + lanes];
    forall j | 0 <= j < lanes ensures now[at + j] == part[j] {
      assert steps[i + j] in steps;
      assert LaneIs(e, c, layer, tree, kp, steps, i, was, now, at, k, lanes, j);
    }
    assert now == now[..at] + now[at..at + lanes] + now[at + lanes..];
    assert now[at..at + lanes] == part;
  }

  /** The save loop at position `k`. */
  method SaveLanes(e: Engine, c: Ctx, layer: nat, tree: nat, kp: nat, steps: seq<nat>, i: nat, lanes: nat,
      sig: array<Bytes>, at: nat, k: nat, row: Row, ghost was: seq<Bytes>)
    requires GroupRow(e, c, row, layer, tree, kp, i, k, lanes)
    requires Saved(e, c, layer, tree, kp, steps, i, lanes, was, sig[..], at, k, 0)
    modifies sig
    ensures Saved(e, c, layer, tree, kp, steps, i, lanes, was, sig[..], at, k, lanes)
  {
    hide Chain;
    for j := 0 to lanes
      invariant Saved(e, c, layer, tree, kp, steps, i, lanes, was, sig[..], at, k, j)
    {
      ghost var now := sig[..];
      SavedLane(e, c, layer, tree, kp, steps, i, lanes, was, now, at, k, j, row[j]);
      if k == steps[i + j] {
        sig[at + j] := row[j];
        assert sig[..] == now[at + j := row[j]];
      }
    }
  }

  /** One group: chains `i .. i + lanes` walked to their tops, each saved at its own position on the way. */
  method WalkGroup(e: Engine, c: Ctx, f: Adrs, layer: nat, tree: nat, kp: nat, i: nat, lanes: nat,
      sig: array?<Bytes>, at: nat, steps: seq<nat>)
    returns (row: Row)
    requires InSubtree(f, layer, tree) && f.kp == kp % 0x1_0000_0000 && lanes <= 8
    requires sig != null ==> at + lanes <= sig.Length && i + lanes <= |steps| && forall x | x in steps :: x < e.p.w
    modifies if sig == null then {} else {sig}
    ensures GroupRow(e, c, row, layer, tree, kp, i, e.p.w - 1, lanes)
    ensures sig != null ==> sig[..] == Patch(old(sig[..]), at, WotsSig(e, c, layer, tree, kp, steps)[i..i + lanes])
  {
    hide Chain, ChainPos, InSubtree, GroupAt, GroupRow, Saved, Patch, WotsSig;
    ghost var was := if sig == null then [] else sig[..];
    var adrs := StartGroup(f, layer, tree, kp, i, lanes);
    row := PrfX8(e, c.pub, c.sk, adrs[..]);
    GroupRowStart(e, c, adrs[..], layer, tree, kp, i, lanes);
    SetTypeGroup(adrs, layer, tree, kp, i, lanes);
    if sig != null { SavedStart(e, c, layer, tree, kp, steps, i, lanes, was, at); }
    var k := 0;
    while true
      invariant 0 <= k <= e.p.w - 1 && fresh(adrs)
      invariant adrs.Length == 8
      invariant GroupAt(adrs[..], layer, tree, WOTS, kp, i, if k == 0 then 0 else k - 1, lanes)
      invariant GroupRow(e, c, row, layer, tree, kp, i, k, lanes)
      invariant sig != null ==> Saved(e, c, layer, tree, kp, steps, i, lanes, was, sig[..], at, k, 0)
      decreases e.p.w - k
    {
      ghost var addresses := adrs[..];
      if sig != null {
        SaveLanes(e, c, layer, tree, kp, steps, i, lanes, sig, at, k, row, was);
      }
      assert adrs[..] == addresses;
      if k == e.p.w - 1 { break; }
      if sig != null { SavedTurn(e, c, layer, tree, kp, steps, i, lanes, was, sig[..], at, k); }
      SetHashGroup(adrs, layer, tree, kp, i, if k == 0 then 0 else k - 1, k, lanes);
      GroupRowStep(e, c, row, adrs[..], layer, tree, kp, i, k, lanes);
      row := ThashX8(e, c.pub, adrs[..], seq(8, j requires 0 <= j < 8 => [row[j]]));
      k := k + 1;
    }
    if sig != null { SavedAll(e, c, layer, tree, kp, steps, i, lanes, was, sig[..], at, k); }
  }

  lemma SavedStart(e: Engine, c: Ctx, layer: nat, tree: nat, kp: nat, steps: seq<nat>, i: nat, lanes: nat,
      was: seq<Bytes>, at: nat)
    requires at + lanes <= |was| && i + lanes <= |steps|
    ensures Saved(e, c, layer, tree, kp, steps, i, lanes, was, was, at, 0, 0)
  {
    hide Chain;
  }

  lemma GroupIsPk(e: Engine, c: Ctx, row: Row, layer: nat, tree: nat, kp: nat, i: nat, lanes: nat)
    requires GroupRow(e, c, row, layer, tree, kp, i, e.p.w - 1, lanes) && i + lanes <= e.p.Len()
    ensures WotsPk(e, c, layer, tree, kp)[..i] + row[..lanes] == WotsPk(e, c, layer, tree, kp)[..i + lanes]
  {
    hide Chain;
  }

  lemma PatchRun(was: seq<Bytes>, off: nat, part: seq<Bytes>, i: nat, j: nat)
    requires off + |part| <= |was| && i <= j <= |part|
    ensures Patch(Patch(was, off, part[..i]), off + i, part[i..j]) == Patch(was, off, part[..j])
  {
    PatchSeq(was, off, part[..i], part[i..j]);
    assert part[..i] + part[i..j] == part[..j];
  }

  /** `wots_gen_leafx1_avx2`: the contract of the scalar generator. */
  method WotsGenLeafX1Avx2(e: Engine, c: Ctx, info: LeafInfo, idx: nat, out: array<Bytes>) returns (leaf: Bytes)
    requires info.gen.WotsGen? && info.Valid() && JobFits(e.p, info.job, out.Length)
    modifies info.leafAddr, info.pkAddr, out
    ensures info.Valid()
    ensures leaf == WotsLeaf(e, c, info.gen.layer, info.gen.tree, idx)
    ensures out[..] == Emitted(e, c, info.gen, info.job, idx, old(out[..]))
  {
    hide InSubtree, Pos, Patch, Chain, GroupRow, WotsPk, WotsSig;
    var layer, tree := info.gen.layer, info.gen.tree;
    var doSign := info.job.Sign? && idx == info.job.leaf;
    ghost var part := if doSign then WotsSig(e, c, layer, tree, idx, info.job.steps) else [];
    KeypairSet(info.leafAddr.f, info.pkAddr.f, layer, tree, idx);
    PatchNone(out[..], if doSign then info.job.off else 0);
    info.leafAddr.f := info.leafAddr.f.SetKeypair(idx);
    info.pkAddr.f := info.pkAddr.f.SetKeypair(idx);
    var pkBuffer: seq<Bytes> := [];
    var i: nat := 0;
    while i < e.p.Len()
      invariant i <= e.p.Len()
      invariant InSubtree(info.leafAddr.f, layer, tree) && info.leafAddr.f.kp == idx % 0x1_0000_0000
      invariant info.pkAddr.f == Pos(layer, tree, WOTSPK, idx)
      invariant pkBuffer == WotsPk(e, c, layer, tree, idx)[..i]
      invariant out[..] == if doSign then Patch(old(out[..]), info.job.off, part[..i]) else old(out[..])
    {
      var lanes: nat := e.p.Len() - i;
      if lanes > 8 { lanes := 8; }
      if doSign { PatchRun(old(out[..]), info.job.off, part, i, i + lanes); }
      var row := WalkGroup(e, c, info.leafAddr.f, layer, tree, idx, i, lanes, if doSign then out else null,
                           if doSign then info.job.off + i else 0, if doSign then info.job.steps else []);
      GroupIsPk(e, c, row, layer, tree, idx, i, lanes);
      pkBuffer := pkBuffer + row[..lanes];
      i := i + lanes;
    }
    assert pkBuffer == WotsPk(e, c, layer, tree, idx);
    assert doSign ==> part[..i] == part;
    leaf := e.thash(c.pub, info.pkAddr.f, pkBuffer);
  }
}
