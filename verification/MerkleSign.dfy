/**
 merkle.c: one layer of the hypertree, that is a WOTS+C signature followed by an
 authentication path, by the scalar or by the eight-lane code.
 */
module MerkleSign {
  import opened Bits
  import opened Address
  import opened Engine
  import opened Merkle
  import opened Spec
  import opened LeafGen
  import opened LeafGenX8
  import opened Stats
  import W = Wots
  import T1 = TreeHashX1
  import T8 = TreeHashX8

  /** The tree at one place of the hypertree, and its root. */
  ghost function Subtree(e: Engine, c: Ctx, layer: nat, tree: nat): Tree {
    TreeOf(e, c, WotsGen(layer, tree), 0)
  }

  ghost function SubtreeRoot(e: Engine, c: Ctx, layer: nat, tree: nat): Bytes {
    Node(Subtree(e, c, layer, tree), e.p.h, 0)
  }

  /** What one layer contributes to the signature. */
  ghost function LayerSig(e: Engine, c: Ctx, layer: nat, tree: nat, leaf: nat, lens: seq<nat>): (r: seq<Bytes>)
    ensures |r| == |lens| + e.p.h
  {
    WotsSig(e, c, layer, tree, leaf, lens) + AuthPath(Subtree(e, c, layer, tree), leaf, e.p.h)
  }

  /** The subtree fields of an address. */
  predicate Names(f: Adrs, layer: nat, tree: nat) {
    f.layer == layer % 0x100 && f.tree == tree % 0x1_0000_0000_0000_0000
  }

  /** The subtree fields are set and every other field but the type and the last node's place is clear. */
  predicate NamesTree(f: Adrs, layer: nat, tree: nat) {
    f.(kind := 0, c := 0, w := 0) == Pos(layer, tree, 0, 0)
  }

  /** For a leaf of the tree, the WOTS signature and the path TreeHash writes are one contiguous piece. */
  lemma TreeHashSignsLayer(e: Engine, c: Ctx, layer: nat, tree: nat, leaf: nat, lens: seq<nat>, at: nat,
      was: seq<Bytes>)
    requires |lens| == e.p.Len() && at + |lens| + e.p.h <= |was| && leaf < Pow2(e.p.h)
    ensures TreeHashOut(e, c, WotsGen(layer, tree), Sign(at, lens, leaf), 0, leaf, e.p.h, at + |lens|, was)
         == Patch(was, at, LayerSig(e, c, layer, tree, leaf, lens))
  {
    hide AuthPath, WotsSig, Patch, TreeOf;
    PatchSeq(was, at, WotsSig(e, c, layer, tree, leaf, lens), AuthPath(Subtree(e, c, layer, tree), leaf, e.p.h));
  }

  lemma SmallLeaf(p: Params, leaf: nat)
    requires p.Valid() && leaf < Pow2(p.h)
    ensures leaf != NO_SIGN_LEAF
  {
    Pow2Mono(p.h, 29);
    LargePowers();
  }

  /** The leaf argument of key generation lies outside every lane of the eight-lane code. */
  lemma NoSignIsOutside(p: Params)
    requires p.Valid()
    ensures T8.LeafArg(NO_SIGN_LEAF, p.h) && NO_SIGN_LEAF >= Pow2(p.h)
  {
    Pow2Mono(p.h + 2, 31);
    Pow2Mono(p.h, 31);
    LargePowers();
  }

  method ScalarInfo(wotsAddr: Addr, treeAddr: Addr, job: Job, layer: nat, tree: nat) returns (info: LeafInfo)
    requires Names(wotsAddr.f, layer, tree) && NamesTree(treeAddr.f, layer, tree) && wotsAddr != treeAddr
    modifies treeAddr
    ensures fresh(info) && fresh(info.leafAddr) && fresh(info.pkAddr)
    ensures info.Valid() && info.gen == WotsGen(layer, tree) && info.job == job
    ensures NamesTree(treeAddr.f, layer, tree) && T1.SameTree(treeAddr.f, Base(info.gen))
  {
    var leafAddr := new Addr();
    var pkAddr := new Addr();
    treeAddr.f := treeAddr.f.SetType(HASHTREE);
    pkAddr.f := pkAddr.f.SetType(WOTSPK);
    leafAddr.f := leafAddr.f.CopySubtree(wotsAddr.f);
    pkAddr.f := pkAddr.f.CopySubtree(wotsAddr.f);
    info := new LeafInfo(WotsGen(layer, tree), leafAddr, pkAddr, job);
  }

  /** `merkle_sign_scalar` after the chain lengths are known. */
  method TreeScalar(e: Engine, c: Ctx, sig: array<Bytes>, at: nat, wotsAddr: Addr, treeAddr: Addr, idxLeaf: nat,
      job: Job, layer: nat, tree: nat)
    returns (root: Bytes)
    requires at + e.p.h <= sig.Length && JobFits(e.p, job, at)
    requires Names(wotsAddr.f, layer, tree) && NamesTree(treeAddr.f, layer, tree) && wotsAddr != treeAddr
    modifies sig, treeAddr
    ensures NamesTree(treeAddr.f, layer, tree) && treeAddr.f.kind == HASHTREE
    ensures root == SubtreeRoot(e, c, layer, tree)
    ensures sig[..] == TreeHashOut(e, c, WotsGen(layer, tree), job, 0, idxLeaf, e.p.h, at, old(sig[..]))
  {
    hide TreeHashOut, TreeOf, Node, Pow2;
    var info := ScalarInfo(wotsAddr, treeAddr, job, layer, tree);
    root := T1.TreeHashX1(e, c, sig, at, idxLeaf, 0, e.p.h, info, treeAddr);
  }

  method VectorInfo(wotsAddr: Addr, treeAddr: Addr, job: Job, layer: nat, tree: nat)
      returns (info: LeafInfoX8, treeAddrX8: array<Adrs>)
    requires Names(wotsAddr.f, layer, tree) && NamesTree(treeAddr.f, layer, tree)
    ensures fresh(info) && fresh(info.leafAddr) && fresh(info.pkAddr) && fresh(treeAddrX8)
    ensures treeAddrX8 != info.leafAddr && treeAddrX8 != info.pkAddr
    ensures info.Valid() && info.gen == WotsGen(layer, tree) && info.job == job
    ensures T8.SameTrees(treeAddrX8[..], Base(info.gen))
  {
    treeAddrX8 := new Adrs[8](_ => ZERO);
    var leafAddr := new Adrs[8](_ => ZERO);
    var pkAddr := new Adrs[8](_ => ZERO);
    forall j | 0 <= j < 8 { treeAddrX8[j] := treeAddrX8[j].SetType(HASHTREE).CopySubtree(treeAddr.f); }
    forall j | 0 <= j < 8 { leafAddr[j] := leafAddr[j].SetType(WOTS).CopySubtree(wotsAddr.f); }
    forall j | 0 <= j < 8 { pkAddr[j] := pkAddr[j].SetType(WOTSPK).CopySubtree(wotsAddr.f); }
    info := new LeafInfoX8(WotsGen(layer, tree), leafAddr, pkAddr, job);
  }

  /** `merkle_sign_avx2` after the chain lengths are known: byte for byte what the scalar code writes. */
  method TreeVector(e: Engine, c: Ctx, sig: array<Bytes>, at: nat, wotsAddr: Addr, treeAddr: Addr, idxLeaf: nat,
      job: Job, layer: nat, tree: nat)
    returns (root: Bytes)
    requires at + e.p.h <= sig.Length && JobFits(e.p, job, at) && T8.LeafArg(idxLeaf, e.p.h)
    requires Names(wotsAddr.f, layer, tree) && NamesTree(treeAddr.f, layer, tree)
    modifies sig
    ensures root == SubtreeRoot(e, c, layer, tree)
    ensures sig[..] == TreeHashOut(e, c, WotsGen(layer, tree), job, 0, idxLeaf, e.p.h, at, old(sig[..]))
  {
    hide TreeHashOut, TreeOf, Node, Pow2, T8.LeafArg;
    var info, treeAddrX8 := VectorInfo(wotsAddr, treeAddr, job, layer, tree);
    root := T8.TreeHashX8(e, c, sig, at, idxLeaf, 0, e.p.h, info, treeAddrX8);
  }

  /** `merkle_sign` for a leaf: signs `msg`, the root below, and returns the root of this subtree. */
  method MerkleSign(e: Engine, c: Ctx, avx2: bool, sig: array<Bytes>, at: nat, msg: Bytes, wotsAddr: Addr,
      treeAddr: Addr, idxLeaf: nat,
                    cur: SignStats?, layer: nat, tree: nat)
    returns (rc: int, root: Bytes)
    requires at + e.p.Len() + e.p.h <= sig.Length && idxLeaf < Pow2(e.p.h)
    requires Names(wotsAddr.f, layer, tree) && NamesTree(treeAddr.f, layer, tree) && wotsAddr != treeAddr
    modifies sig, treeAddr, if cur == null then {} else {cur}
    ensures NamesTree(treeAddr.f, layer, tree) && treeAddr.f.kind in {old(treeAddr.f.kind), HASHTREE}
    ensures rc == if W.Found(e, msg, W.Cap(e.p, cur)) then 0 else W.LIMIT_EXCEEDED
    ensures rc == 0 ==> root == SubtreeRoot(e, c, layer, tree)
    ensures rc == 0 ==>
        sig[..] == Patch(old(sig[..]), at, LayerSig(e, c, layer, tree, idxLeaf, W.Lengths(e, msg, W.Cap(e.p, cur))))
    ensures cur != null ==> cur.r == W.SearchRec(e, msg, old(cur.r))
  {
    hide TreeHashOut, TreeOf, Node, Pow2, Patch, Names, NamesTree, W.Found, W.Lengths, T8.LeafArg, SubtreeRoot,
      LayerSig, W.SearchRec;
    root := [];
    var steps;
    rc, steps := W.ChainLengths(e, msg, cur);
    if rc != 0 { return; }
    SmallLeaf(e.p, idxLeaf);
    TreeHashSignsLayer(e, c, layer, tree, idxLeaf, steps, at, sig[..]);
    var job := Sign(at, steps, idxLeaf);
    if avx2 {
      LeafArgInside(idxLeaf, e.p.h);
      root := TreeVector(e, c, sig, at + e.p.Len(), wotsAddr, treeAddr, idxLeaf, job, layer, tree);
    } else {
      root := TreeScalar(e, c, sig, at + e.p.Len(), wotsAddr, treeAddr, idxLeaf, job, layer, tree);
    }
  }

  lemma LeafArgInside(leaf: nat, height: nat)
    requires leaf < Pow2(height)
    ensures T8.LeafArg(leaf, height)
  {
  }

  /** `merkle_gen_root`: no leaf is signed, no path entry is written, and no stats are touched. */
  method MerkleGenRoot(e: Engine, c: Ctx, avx2: bool) returns (rc: int, root: Bytes)
    ensures rc == 0 && root == SubtreeRoot(e, c, e.p.d - 1, 0)
  {
    hide TreeHashOut, TreeOf, Node, Pow2, T8.LeafArg, SubtreeRoot;
    var authPath := new Bytes[e.p.h];
    var topTreeAddr := new Addr();
    var wotsAddr := new Addr();
    topTreeAddr.f := topTreeAddr.f.SetLayer(e.p.d - 1);
    wotsAddr.f := wotsAddr.f.SetLayer(e.p.d - 1);
    NoSignIsOutside(e.p);
    if avx2 {
      root := TreeVector(e, c, authPath, 0, wotsAddr, topTreeAddr, NO_SIGN_LEAF, NoJob, e.p.d - 1, 0);
    } else {
      root := TreeScalar(e, c, authPath, 0, wotsAddr, topTreeAddr, NO_SIGN_LEAF, NoJob, e.p.d - 1, 0);
    }
    rc := 0;
  }
}
