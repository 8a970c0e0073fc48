/**
 sign.c: key generation, signing and verification, and their end-to-end correctness.
 A signature is its sequence of `n`-byte blocks.
 */
module Sign {
  import opened Bits
  import opened Address
  import opened Engine
  import opened Spec
  import opened LeafGen
  import opened Stats
  import opened RandomSource
  import opened MerkleSign
  import opened Hypertree
  import opened Grind
  import F = Fors
  import W = Wots
  import T1 = TreeHashX1

  // ---------- what is signed and what is accepted ----------

  /** SK_SEED and PUB_SEED of a secret key [SK_SEED || SK_PRF || PUB_SEED || root]. */
  function CtxOf(p: Params, sk: Bytes): Ctx
    requires |sk| == 4 * p.n
  {
    Ctx(sk[2 * p.n..3 * p.n], sk[..p.n])
  }

  function ForsBlocks(p: Params): nat { F.BlockOff(p, p.trees) }

  /** The signature for a salted randomizer `r` whose digest is `d`. */
  ghost function SigOf(e: Engine, c: Ctx, cap: nat, r: Bytes, d: Bytes): (s: seq<Bytes>)
    requires |d| == e.p.DigestBytes()
    ensures |s| == 1 + ForsBlocks(e.p) + HtLen(e.p, e.p.d)
  {
    var tree, leaf := TreeIndex(e.p, d), LeafIndex(e.p, d);
    [r] + F.ForsSig(e, c, tree, leaf, F.ForsIndices(e.p, MHash(e.p, d)), e.p.trees) + HtSig(e, c, cap, 0,
      F.ForsPk(e, c, tree, leaf), tree, leaf)
  }

  /** Every layer can be signed for digest `d`. */
  ghost predicate Signable(e: Engine, c: Ctx, cap: nat, d: Bytes)
    requires |d| == e.p.DigestBytes()
  {
    CanSign(e, c, cap, 0, F.ForsPk(e, c, TreeIndex(e.p, d), LeafIndex(e.p, d)), TreeIndex(e.p, d))
  }

  /** What `crypto_sign_verify` accepts when it searches counters up to `v`. */
  ghost predicate Verifies(e: Engine, v: nat, sig: seq<Bytes>, m: Bytes, pk: Bytes)
    requires |pk| == 2 * e.p.n
  {
    |sig| == 1 + ForsBlocks(e.p) + HtLen(e.p, e.p.d) &&
    var d, pub, f := e.hashMsg(sig[0], pk, m), pk[..e.p.n], 1 + ForsBlocks(e.p);
    var tree, leaf := TreeIndex(e.p, d), LeafIndex(e.p, d);
    && F.ForsIndex(e.p, MHash(e.p, d), e.p.trees) == 0
    && HtRoot(e, pub, v, 0, F.PkFromSig(e, pub, tree, leaf, F.ForsIndices(e.p, MHash(e.p, d)), sig[1..f]), tree,
      leaf, sig[f..]) == Root(pk[e.p.n..])
  }

  /**
   End-to-end completeness: under the root key generation computes, every signature the
   signer can produce with a good salt, under any cap, is accepted by every verifier whose
   range of counters is at least that cap.
   */
  lemma Completeness(e: Engine, c: Ctx, cap: nat, v: nat, r: Bytes, m: Bytes, pk: Bytes)
    requires |pk| == 2 * e.p.n && c.pub == pk[..e.p.n] && pk[e.p.n..] == SubtreeRoot(e, c, e.p.d - 1, 0)
    requires cap <= v
    requires F.ForsIndex(e.p, MHash(e.p, e.hashMsg(r, pk, m)), e.p.trees) == 0
    requires Signable(e, c, cap, e.hashMsg(r, pk, m))
    ensures Verifies(e, v, SigOf(e, c, cap, r, e.hashMsg(r, pk, m)), m, pk)
  {
    hide MHash, TreeIndex, LeafIndex, F.ForsIndex, F.ForsSig, HtSig, HtRoot, F.PkFromSig, F.ForsPk, SubtreeRoot,
      TopRoot, CanSign, ForsBlocks, HtLen;
    var d := e.hashMsg(r, pk, m);
    var tree, leaf := TreeIndex(e.p, d), LeafIndex(e.p, d);
    var indices := F.ForsIndices(e.p, MHash(e.p, d));
    var sig, f := SigOf(e, c, cap, r, d), 1 + ForsBlocks(e.p);
    ForsBlocksIs(e.p);
    assert sig[0] == r && sig[1..f] == F.ForsSig(e, c, tree, leaf, indices, e.p.trees);
    assert sig[f..] == HtSig(e, c, cap, 0, F.ForsPk(e, c, tree, leaf), tree, leaf);
    F.ForsRoundTrip(e, c, tree, leaf, indices);
    HtComplete(e, c, cap, v, 0, F.ForsPk(e, c, tree, leaf), tree, leaf);
    UpBitsIs(e.p, e.p.d - 1);
    TopIsPublicRoot(e, c, 0, F.ForsPk(e, c, tree, leaf), tree);
  }

  /** The largest counter a full-range verifier needs for this signature. */
  ghost function SigEffort(e: Engine, sig: seq<Bytes>, m: Bytes, pk: Bytes): nat
    requires |pk| == 2 * e.p.n && |sig| == 1 + ForsBlocks(e.p) + HtLen(e.p, e.p.d)
  {
    var d, pub, f := e.hashMsg(sig[0], pk, m), pk[..e.p.n], 1 + ForsBlocks(e.p);
    var tree, leaf := TreeIndex(e.p, d), LeafIndex(e.p, d);
    var indices := F.ForsIndices(e.p, MHash(e.p, d));
    Effort(e, pub, 0, F.PkFromSig(e, pub, tree, leaf, indices, sig[1..f]), tree, leaf, sig[f..])
  }

  /**
   A verifier inside a stats session searches under the signing cap. It accepts exactly what the
   full-range verifier accepts with no counter above the cap ...
   */
  lemma CappedVerifier(e: Engine, v: nat, sig: seq<Bytes>, m: Bytes, pk: Bytes)
    requires |pk| == 2 * e.p.n && v <= 0xFFFF && |sig| == 1 + ForsBlocks(e.p) + HtLen(e.p, e.p.d)
    ensures Verifies(e, v, sig, m, pk) <==> Verifies(e, 0xFFFF, sig, m, pk) && SigEffort(e, sig, m, pk) <= v
  {
    hide MHash, TreeIndex, LeafIndex, F.ForsIndex, F.ForsIndices, F.PkFromSig, HtRoot, Effort, HtLen, ForsBlocks;
    ForsBlocksIs(e.p);
    var d, pub, f := e.hashMsg(sig[0], pk, m), pk[..e.p.n], 1 + ForsBlocks(e.p);
    var tree, leaf := TreeIndex(e.p, d), LeafIndex(e.p, d);
    var indices := F.ForsIndices(e.p, MHash(e.p, d));
    HtCapped(e, pub, v, 0, F.PkFromSig(e, pub, tree, leaf, indices, sig[1..f]), tree, leaf, sig[f..]);
  }

  /**
   ... so on a given signature the two agree unless it is valid and needs a counter above the
   cap, and they agree on all signatures when the cap is the full range, as it ships.
   */
  lemma VerifiersAgree(e: Engine, v: nat, sig: seq<Bytes>, m: Bytes, pk: Bytes)
    requires |pk| == 2 * e.p.n && v <= 0xFFFF && |sig| == 1 + ForsBlocks(e.p) + HtLen(e.p, e.p.d)
    ensures (Verifies(e, v, sig, m, pk) <==> Verifies(e, 0xFFFF, sig, m, pk))
       <==> SigEffort(e, sig, m, pk) <= v || !Verifies(e, 0xFFFF, sig, m, pk)
    ensures v == 0xFFFF ==> (Verifies(e, v, sig, m, pk) <==> Verifies(e, 0xFFFF, sig, m, pk))
  {
    hide Verifies, SigEffort, HtLen, ForsBlocks;
    CappedVerifier(e, v, sig, m, pk);
  }

  lemma ForsBlocksIs(p: Params)
    ensures ForsBlocks(p) == F.BlockOff(p, p.trees)
  {
  }

  // ---------- key generation ----------

  /** A secret key whose root matches its seeds, whatever its SK_PRF: what the validator accepts. */
  ghost predicate GoodKey(e: Engine, sk: Bytes) {
    |sk| == 4 * e.p.n && sk[3 * e.p.n..] == SubtreeRoot(e, CtxOf(e.p, sk), e.p.d - 1, 0)
  }

  /** `crypto_sign_seed_keypair`. */
  method SeedKeypair(e: Engine, avx2: bool, seed: Bytes) returns (rc: int, pk: Bytes, sk: Bytes)
    requires |seed| == 3 * e.p.n
    ensures rc == 0 && |pk| == 2 * e.p.n && |sk| == 4 * e.p.n
    ensures sk[..3 * e.p.n] == seed && pk == sk[2 * e.p.n..] && GoodKey(e, sk)
  {
    hide SubtreeRoot;
    var c := Ctx(seed[2 * e.p.n..], seed[..e.p.n]);
    var root;
    rc, root := MerkleGenRoot(e, c, avx2);
    RootLength(e, c, e.p.d - 1, 0);
    sk := seed + root;
    pk := seed[2 * e.p.n..] + root;
    assert CtxOf(e.p, sk) == c;
  }

  lemma RootLength(e: Engine, c: Ctx, layer: nat, tree: nat)
    ensures |SubtreeRoot(e, c, layer, tree)| == e.p.n
  {
    hide Pos;
    var g := WotsGen(layer, tree);
    var t := TreeOf(e, c, g, 0);
    var l, r, i := Merkle.Node(t, e.p.h - 1, 0), Merkle.Node(t, e.p.h - 1, 1), Shr(0, e.p.h);
    assert SubtreeRoot(e, c, layer, tree) == Join(e, c.pub, Base(g))(e.p.h, i, l, r);
    assert Join(e, c.pub, Base(g))(e.p.h, i, l, r) == e.thash(c.pub, Base(g).SetHeight(e.p.h).SetIndex(i), [l, r]);
  }

  // ---------- the layer loops ----------

  /** How the layer addresses of both loops come out, from whatever the previous layer left in the buffers. */
  lemma LayerAddresses(ta: Adrs, wa: Adrs, wpk: Adrs, i: nat, tree: nat, leaf: nat)
    requires ta.kind == HASHTREE && ta.kp == 0 && wa.kind == WOTS && wa.w < 256 && wpk.kind == WOTSPK && wpk.c == 0
        && wpk.w == 0
    ensures var ta' := ta.SetLayer(i).SetTree(tree);
            var wa' := wa.CopySubtree(ta').SetKeypair(leaf);
            && NamesTree(ta', i, tree) && T1.SameTree(ta', Base(WotsGen(i, tree)))
            && Names(wa', i, tree) && W.OnKey(wa', i, tree, leaf)
            && wpk.CopyKeypair(wa') == Pos(i, tree, WOTSPK, leaf)
  {
  }

  lemma LayerAddressesKept(ta: Adrs, wa: Adrs, i: nat, tree: nat, leaf: nat)
    ensures NamesTree(ta, i, tree) ==> ta.kp == 0
    ensures T1.SameTree(ta, Base(WotsGen(i, tree))) ==> ta.kind == HASHTREE && ta.kp == 0
    ensures W.OnKey(wa, i, tree, leaf) ==> wa.kind == WOTS && wa.w < 256
    ensures Pos(i, tree, WOTSPK, leaf).kind == WOTSPK && Pos(i, tree, WOTSPK, leaf).c == 0
        && Pos(i, tree, WOTSPK, leaf).w == 0
  {
  }

  /** The four address updates with which both loops enter a layer. */
  method AddressLayer(treeAddr: Addr, wotsAddr: Addr, i: nat, tree: nat, leaf: nat)
    requires treeAddr != wotsAddr && treeAddr.f.kind == HASHTREE && treeAddr.f.kp == 0 && wotsAddr.f.kind == WOTS
        && wotsAddr.f.w < 256
    modifies treeAddr, wotsAddr
    ensures NamesTree(treeAddr.f, i, tree) && T1.SameTree(treeAddr.f, Base(WotsGen(i, tree)))
        && treeAddr.f.kind == HASHTREE
    ensures Names(wotsAddr.f, i, tree) && W.OnKey(wotsAddr.f, i, tree, leaf)
    ensures forall f: Adrs ::
        f.kind == WOTSPK && f.c == 0 && f.w == 0 ==> f.CopyKeypair(wotsAddr.f) == Pos(i, tree, WOTSPK, leaf)
  {
    LayerAddresses(treeAddr.f, wotsAddr.f, ZERO.SetType(WOTSPK), i, tree, leaf);
    treeAddr.f := treeAddr.f.SetLayer(i);
    treeAddr.f := treeAddr.f.SetTree(tree);
    wotsAddr.f := wotsAddr.f.CopySubtree(treeAddr.f);
    wotsAddr.f := wotsAddr.f.SetKeypair(leaf);
  }

  lemma HtSigStep(e: Engine, c: Ctx, cap: nat, i: nat, msg: Bytes, tree: nat, leaf: nat)
    requires i < e.p.d
    ensures HtSig(e, c, cap, i, msg, tree, leaf) == LayerSig(e, c, i, tree, leaf, W.Lengths(e, msg, cap))
              + HtSig(e, c, cap, i + 1, SubtreeRoot(e, c, i, tree), Above(e.p, tree), LeafAbove(e.p, tree))
    ensures CanSign(e, c, cap, i, msg, tree)
       <==> W.Found(e, msg, cap) && CanSign(e, c, cap, i + 1, SubtreeRoot(e, c, i, tree), Above(e.p, tree))
    ensures HtLen(e.p, e.p.d - i) == e.p.Len() + e.p.h + HtLen(e.p, e.p.d - i - 1)
  {
  }

  lemma HtSigEnd(e: Engine, c: Ctx, cap: nat, msg: Bytes, tree: nat, leaf: nat, was: Rec)
    ensures HtSig(e, c, cap, e.p.d, msg, tree, leaf) == [] && CanSign(e, c, cap, e.p.d, msg, tree) && HtLen(e.p, 0) == 0
    ensures SignedRec(e, c, e.p.d, msg, tree, was) == was
  {
  }

  lemma SignedRecStep(e: Engine, c: Ctx, i: nat, msg: Bytes, tree: nat, was: Rec)
    requires i < e.p.d
    ensures SignedRec(e, c, i, msg, tree, was)
         == if W.Found(e, msg, e.p.wotscCap)
            then SignedRec(e, c, i + 1, SubtreeRoot(e, c, i, tree), Above(e.p, tree), W.SearchRec(e, msg, was))
            else W.SearchRec(e, msg, was)
  {
  }

  /** The layer loop of `crypto_sign_signature`. */
  method SignLayers(e: Engine, c: Ctx, avx2: bool, sig: array<Bytes>, at: nat, msg: Bytes, wotsAddr: Addr,
      treeAddr: Addr,
                    tree0: nat, leaf0: nat, cur: SignStats?)
    returns (rc: int)
    requires at + HtLen(e.p, e.p.d) <= sig.Length && leaf0 < Pow2(e.p.h)
    requires wotsAddr != treeAddr && treeAddr.f.kind == HASHTREE && treeAddr.f.kp == 0 && wotsAddr.f.kind == WOTS
        && wotsAddr.f.w < 256
    modifies sig, wotsAddr, treeAddr, if cur == null then {} else {cur}
    ensures rc == if CanSign(e, c, W.Cap(e.p, cur), 0, msg, tree0) then 0 else W.LIMIT_EXCEEDED
    ensures rc == 0 ==> sig[..] == Patch(old(sig[..]), at, HtSig(e, c, W.Cap(e.p, cur), 0, msg, tree0, leaf0))
    ensures cur != null ==> cur.r == SignedRec(e, c, 0, msg, tree0, old(cur.r))
  {
    hide Patch, HtSig, CanSign, LayerSig, SubtreeRoot, Above, LeafAbove, Pow2, Names, NamesTree, W.OnKey, W.Found,
      Pos, HtLen,
      Base, T1.SameTree, W.Lengths, SignedRec, W.SearchRec, Adrs.CopyKeypair;
    ghost var cap := W.Cap(e.p, cur);
    var root: Bytes, tree: nat, leaf: nat, off: nat := msg, tree0, leaf0, at;
    ghost var done: seq<Bytes> := [];
    PatchNone(sig[..], at);
    var i := 0;
    while i < e.p.d
      invariant 0 <= i <= e.p.d && leaf < Pow2(e.p.h) && off == at + |done| && off + HtLen(e.p, e.p.d - i)
          == at + HtLen(e.p, e.p.d)
      invariant treeAddr.f.kind == HASHTREE && treeAddr.f.kp == 0 && wotsAddr.f.kind == WOTS && wotsAddr.f.w < 256
      invariant CanSign(e, c, cap, 0, msg, tree0) <==> CanSign(e, c, cap, i, root, tree)
      invariant done + HtSig(e, c, cap, i, root, tree, leaf) == HtSig(e, c, cap, 0, msg, tree0, leaf0)
      invariant sig[..] == Patch(old(sig[..]), at, done)
      invariant cur != null ==> SignedRec(e, c, 0, msg, tree0, old(cur.r)) == SignedRec(e, c, i, root, tree, cur.r)
    {
      AddressLayer(treeAddr, wotsAddr, i, tree, leaf);
      HtSigStep(e, c, cap, i, root, tree, leaf);
      if cur != null { SignedRecStep(e, c, i, root, tree, cur.r); }
      ghost var piece := LayerSig(e, c, i, tree, leaf, W.Lengths(e, root, cap));
      var root';
      rc, root' := MerkleSign.MerkleSign(e, c, avx2, sig, off, root, wotsAddr, treeAddr, leaf, cur, i, tree);
      if rc != 0 {
        return;
      }
      LayerAddressesKept(treeAddr.f, wotsAddr.f, i, tree, leaf);
      PatchSeq(old(sig[..]), at, done, piece);
      assert done + (piece + HtSig(e, c, cap, i + 1, root', Above(e.p, tree), LeafAbove(e.p, tree)))
          == (done + piece) + HtSig(e, c, cap, i + 1, root', Above(e.p, tree), LeafAbove(e.p, tree));
      done := done + piece;
      root, off := root', off + e.p.Len() + e.p.h;
      leaf := LeafAbove(e.p, tree);
      tree := Above(e.p, tree);
      i := i + 1;
    }
    HtSigEnd(e, c, cap, root, tree, leaf, if cur == null then Fresh(0, 0) else cur.r);
    assert done + [] == done;
    rc := 0;
  }

  lemma HtRootStep(e: Engine, pub: Bytes, v: nat, i: nat, msg: Bytes, tree: nat, leaf: nat, sig: seq<Bytes>)
    requires i < e.p.d && |sig| == HtLen(e.p, e.p.d - i)
    ensures |sig| == LayerLen(e.p) + HtLen(e.p, e.p.d - i - 1)
    ensures HtRoot(e, pub, v, i, msg, tree, leaf, sig) ==
            match LayerRoot(e, pub, v, i, msg, tree, leaf, sig[..LayerLen(e.p)])
            case Reject => Reject
            case Root(root) => HtRoot(e, pub, v, i + 1, root, Above(e.p, tree), LeafAbove(e.p, tree),
              sig[LayerLen(e.p)..])
  {
    hide LayerRoot;
  }

  lemma CheckedRecStep(e: Engine, pub: Bytes, i: nat, msg: Bytes, tree: nat, leaf: nat, sig: seq<Bytes>, was: Rec)
    requires i < e.p.d && |sig| == HtLen(e.p, e.p.d - i) && |sig| == LayerLen(e.p) + HtLen(e.p, e.p.d - i - 1)
    ensures CheckedRec(e, pub, i, msg, tree, leaf, sig, was) ==
            match LayerRoot(e, pub, e.p.wotscCap, i, msg, tree, leaf, sig[..LayerLen(e.p)])
            case Reject => W.SearchRec(e, msg, was)
            case Root(root) => CheckedRec(e, pub, i + 1, root, Above(e.p, tree), LeafAbove(e.p, tree),
              sig[LayerLen(e.p)..], W.SearchRec(e, msg, was))
  {
    hide LayerRoot, W.SearchRec;
  }

  lemma HtRootEnd(e: Engine, pub: Bytes, v: nat, msg: Bytes, tree: nat, leaf: nat, sig: seq<Bytes>, was: Rec)
    requires |sig| == HtLen(e.p, 0)
    ensures HtRoot(e, pub, v, e.p.d, msg, tree, leaf, sig) == Root(msg)
        && CheckedRec(e, pub, e.p.d, msg, tree, leaf, sig, was) == was
  {
  }

  /** One pass of the layer loop of `crypto_sign_verify`. */
  method VerifyLayer(e: Engine, pub: Bytes, piece: seq<Bytes>, msg: Bytes, wotsAddr: Addr, treeAddr: Addr,
      wotsPkAddr: Addr,
                     i: nat, tree: nat, leaf: nat, cur: SignStats?)
    returns (rc: int, root: Bytes)
    requires |piece| == LayerLen(e.p) && wotsAddr != treeAddr && wotsAddr != wotsPkAddr && treeAddr != wotsPkAddr
    requires treeAddr.f.kind == HASHTREE && treeAddr.f.kp == 0 && wotsAddr.f.kind == WOTS && wotsAddr.f.w < 256
    requires wotsPkAddr.f.kind == WOTSPK && wotsPkAddr.f.c == 0 && wotsPkAddr.f.w == 0
    modifies wotsAddr, treeAddr, wotsPkAddr, if cur == null then {} else {cur}
    ensures treeAddr.f.kind == HASHTREE && treeAddr.f.kp == 0 && wotsAddr.f.kind == WOTS && wotsAddr.f.w < 256
    ensures wotsPkAddr.f.kind == WOTSPK && wotsPkAddr.f.c == 0 && wotsPkAddr.f.w == 0
    ensures LayerRoot(e, pub, W.Cap(e.p, cur), i, msg, tree, leaf, piece) == if rc == 0 then Root(root) else Reject
    ensures cur != null ==> cur.r == W.SearchRec(e, msg, old(cur.r))
  {
    hide Pos, Base, T1.SameTree, W.OnKey, Names, NamesTree, W.Found, W.Lengths, W.PkFromSig, Join, Merkle.Climb,
      W.SearchRec;
    root := [];
    AddressLayer(treeAddr, wotsAddr, i, tree, leaf);
    wotsPkAddr.f := wotsPkAddr.f.CopyKeypair(wotsAddr.f);
    LayerAddressesKept(treeAddr.f, wotsAddr.f, i, tree, leaf);
    var pk;
    rc, pk := W.WotsPkFromSig(e, pub, piece[..e.p.Len()], msg, wotsAddr, cur, i, tree, leaf);
    LayerAddressesKept(treeAddr.f, wotsAddr.f, i, tree, leaf);
    if rc != 0 { return; }
    var node := e.thash(pub, wotsPkAddr.f, pk);
    root := T1.ComputeRoot(e, pub, node, leaf, 0, piece[e.p.Len()..], e.p.h, treeAddr, Base(WotsGen(i, tree)));
    LayerAddressesKept(treeAddr.f, wotsAddr.f, i, tree, leaf);
  }

  /** The layer loop of `crypto_sign_verify`. */
  method VerifyLayers(e: Engine, pub: Bytes, sig: seq<Bytes>, msg: Bytes, wotsAddr: Addr, treeAddr: Addr,
      wotsPkAddr: Addr,
                      tree0: nat, leaf0: nat, cur: SignStats?)
    returns (rc: int, root: Bytes)
    requires |sig| == HtLen(e.p, e.p.d) && wotsAddr != treeAddr && wotsAddr != wotsPkAddr && treeAddr != wotsPkAddr
    requires treeAddr.f.kind == HASHTREE && treeAddr.f.kp == 0 && wotsAddr.f.kind == WOTS && wotsAddr.f.w < 256
    requires wotsPkAddr.f.kind == WOTSPK && wotsPkAddr.f.c == 0 && wotsPkAddr.f.w == 0
    modifies wotsAddr, treeAddr, wotsPkAddr, if cur == null then {} else {cur}
    ensures HtRoot(e, pub, W.Cap(e.p, cur), 0, msg, tree0, leaf0, sig) == if rc == 0 then Root(root) else Reject
    ensures rc == 0 || rc == -1
    ensures cur != null ==> cur.r == CheckedRec(e, pub, 0, msg, tree0, leaf0, sig, old(cur.r))
  {
    hide HtRoot, LayerRoot, HtLen, Above, LeafAbove, CheckedRec, W.SearchRec;
    ghost var v := W.Cap(e.p, cur);
    root := msg;
    var tree: nat, leaf: nat, off: nat := tree0, leaf0, 0;
    assert sig[0..] == sig;
    var i := 0;
    while i < e.p.d
      invariant 0 <= i <= e.p.d && off <= |sig| && |sig[off..]| == HtLen(e.p, e.p.d - i)
      invariant treeAddr.f.kind == HASHTREE && treeAddr.f.kp == 0 && wotsAddr.f.kind == WOTS && wotsAddr.f.w < 256
      invariant wotsPkAddr.f.kind == WOTSPK && wotsPkAddr.f.c == 0 && wotsPkAddr.f.w == 0
      invariant HtRoot(e, pub, v, 0, msg, tree0, leaf0, sig) == HtRoot(e, pub, v, i, root, tree, leaf, sig[off..])
      invariant cur != null ==>
        CheckedRec(e, pub, 0, msg, tree0, leaf0, sig, old(cur.r)) == CheckedRec(e, pub, i, root, tree, leaf,
          sig[off..], cur.r)
    {
      HtRootStep(e, pub, v, i, root, tree, leaf, sig[off..]);
      if cur != null { CheckedRecStep(e, pub, i, root, tree, leaf, sig[off..], cur.r); }
      var len := LayerLen(e.p);
      assert sig[off..][..len] == sig[off..off + len] && sig[off..][len..] == sig[off + len..];
      var root';
      rc, root' := VerifyLayer(e, pub, sig[off..off + len], root, wotsAddr, treeAddr, wotsPkAddr, i, tree, leaf, cur);
      if rc != 0 { return -1, root; }
      root, off := root', off + len;
      leaf := LeafAbove(e.p, tree);
      tree := Above(e.p, tree);
      i := i + 1;
    }
    HtRootEnd(e, pub, v, root, tree, leaf, sig[off..], if cur == null then Fresh(0, 0) else cur.r);
    rc := 0;
  }

  /** The addresses with which signing and verification start. */
  lemma StartAddresses(tree: nat, leaf: nat)
    ensures F.NamesKey(ZERO.SetType(WOTS).SetTree(tree).SetKeypair(leaf), tree, leaf)
    ensures var f := ZERO.SetType(WOTS).SetTree(tree).SetKeypair(leaf); f.kind == WOTS && f.w < 256
  {
  }

  /** The record a verification inside a stats session leaves. */
  ghost function VerifyRec(e: Engine, sig: seq<Bytes>, m: Bytes, pk: Bytes, was: Rec): Rec
    requires |pk| == 2 * e.p.n
  {
    if |sig| != 1 + ForsBlocks(e.p) + HtLen(e.p, e.p.d) then was
    else
      var d, pub, f := e.hashMsg(sig[0], pk, m), pk[..e.p.n], 1 + ForsBlocks(e.p);
      var tree, leaf := TreeIndex(e.p, d), LeafIndex(e.p, d);
      var indices := F.ForsIndices(e.p, MHash(e.p, d));
      if F.ForsIndex(e.p, MHash(e.p, d), e.p.trees) != 0 then was
      else CheckedRec(e, pub, 0, F.PkFromSig(e, pub, tree, leaf, indices, sig[1..f]), tree, leaf, sig[f..], was)
  }

  /** `crypto_sign_verify`, on a thread whose stats pointer is `cur`. */
  method Verify(e: Engine, sig: seq<Bytes>, m: Bytes, pk: Bytes, cur: SignStats?) returns (rc: int)
    requires |pk| == 2 * e.p.n
    modifies if cur == null then {} else {cur}
    ensures rc == if Verifies(e, W.Cap(e.p, cur), sig, m, pk) then 0 else -1
    ensures cur != null ==> cur.r == VerifyRec(e, sig, m, pk, old(cur.r))
  {
    hide MHash, TreeIndex, LeafIndex, F.ForsIndex, F.PkFromSig, HtRoot, HtLen, ForsBlocks, F.NamesKey, CheckedRec;
    if |sig| != 1 + ForsBlocks(e.p) + HtLen(e.p, e.p.d) { return -1; }
    ForsBlocksIs(e.p);
    var pub, f := pk[..e.p.n], 1 + ForsBlocks(e.p);
    var wotsAddr := new Addr();
    var treeAddr := new Addr();
    var wotsPkAddr := new Addr();
    wotsAddr.f := wotsAddr.f.SetType(WOTS);
    treeAddr.f := treeAddr.f.SetType(HASHTREE);
    wotsPkAddr.f := wotsPkAddr.f.SetType(WOTSPK);
    var mhash, tree, leaf := HashMessage(e, sig[0], pk, m);
    var idx := F.CompressedIndex(e.p, mhash);
    if idx != 0 { return -1; }
    StartAddresses(tree, leaf);
    wotsAddr.f := wotsAddr.f.SetTree(tree);
    wotsAddr.f := wotsAddr.f.SetKeypair(leaf);
    var root := F.ForsPkFromSig(e, pub, sig[1..f], mhash, wotsAddr, tree, leaf);
    rc, root := VerifyLayers(e, pub, sig[f..], root, wotsAddr, treeAddr, wotsPkAddr, tree, leaf, cur);
    if rc != 0 { return -1; }
    if root != pk[e.p.n..] { return -1; }
    return 0;
  }

  // ---------- signing ----------

  /** The randomizer before salting. */
  ghost function BaseR(e: Engine, sk: Bytes, optrand: Bytes, m: Bytes): (r: Bytes)
    requires |sk| == 4 * e.p.n
    ensures |r| == e.p.n
  {
    e.prfMsg(sk[e.p.n..2 * e.p.n], optrand, m)
  }

  /** The parts of a secret key are used as it is laid out: SK_SEED, SK_PRF, PUB_SEED and root, in this order. */
  lemma KeyLayout(e: Engine, skSeed: Bytes, skPrf: Bytes, pub: Bytes, root: Bytes, optrand: Bytes, m: Bytes)
    requires |skSeed| == |skPrf| == |pub| == |root| == e.p.n
    ensures var sk := skSeed + skPrf + pub + root;
            && |sk| == 4 * e.p.n && CtxOf(e.p, sk) == Ctx(pub, skSeed) && sk[2 * e.p.n..] == pub + root
            && BaseR(e, sk, optrand, m) == e.prfMsg(skPrf, optrand, m)
  {
    var n, sk := e.p.n, skSeed + skPrf + pub + root;
    assert sk[..n] == skSeed && sk[n..2 * n] == skPrf && sk[2 * n..3 * n] == pub && sk[2 * n..] == pub + root;
  }

  /** The number of the salt the grind settles on, and the digest it leads to. */
  ghost function SaltNo(e: Engine, sk: Bytes, optrand: Bytes, m: Bytes): nat
    requires |sk| == 4 * e.p.n
  {
    FirstGood(e, BaseR(e, sk, optrand, m), sk[2 * e.p.n..], m, 0, e.p.forscCap)
  }

  ghost function SaltedR(e: Engine, sk: Bytes, optrand: Bytes, m: Bytes): Bytes
    requires |sk| == 4 * e.p.n
  {
    Salt(BaseR(e, sk, optrand, m), SaltNo(e, sk, optrand, m))
  }

  ghost function SaltedDigest(e: Engine, sk: Bytes, optrand: Bytes, m: Bytes): (d: Bytes)
    requires |sk| == 4 * e.p.n
    ensures |d| == e.p.DigestBytes()
  {
    e.hashMsg(SaltedR(e, sk, optrand, m), sk[2 * e.p.n..], m)
  }

  /** Signing succeeds: the grind ends below its cap and every layer's search below `cap`. */
  ghost predicate Succeeds(e: Engine, sk: Bytes, optrand: Bytes, m: Bytes, cap: nat)
    requires |sk| == 4 * e.p.n
  {
    SaltNo(e, sk, optrand, m) < e.p.forscCap && Signable(e, CtxOf(e.p, sk), cap, SaltedDigest(e, sk, optrand, m))
  }

  /** The signature of `m`. */
  ghost function Signature(e: Engine, sk: Bytes, optrand: Bytes, m: Bytes, cap: nat): (s: seq<Bytes>)
    requires |sk| == 4 * e.p.n
    ensures |s| == 1 + ForsBlocks(e.p) + HtLen(e.p, e.p.d)
  {
    SigOf(e, CtxOf(e.p, sk), cap, SaltedR(e, sk, optrand, m), SaltedDigest(e, sk, optrand, m))
  }

  /** The record a session leaves, successful or not. */
  ghost function SessionRec(e: Engine, sk: Bytes, optrand: Bytes, m: Bytes, was: Rec): Rec
    requires |sk| == 4 * e.p.n
  {
    var d, c, r := SaltedDigest(e, sk, optrand, m), CtxOf(e.p, sk), AfterGrind(e.p, was, SaltNo(e, sk, optrand, m));
    if SaltNo(e, sk, optrand, m) == e.p.forscCap then r
    else SignedRec(e, c, 0, F.ForsPk(e, c, TreeIndex(e.p, d), LeafIndex(e.p, d)), TreeIndex(e.p, d), r)
  }

  /**
   End-to-end completeness of the program: for every engine, key accepted by the validator,
   message, randomness and cap, a signature that signing produces is verified by every
   verifier with at least that range of counters.
   */
  lemma SignedMessagesVerify(e: Engine, sk: Bytes, optrand: Bytes, m: Bytes, cap: nat, v: nat)
    requires GoodKey(e, sk) && cap <= v && Succeeds(e, sk, optrand, m, cap)
    ensures Verifies(e, v, Signature(e, sk, optrand, m, cap), m, sk[2 * e.p.n..])
  {
    hide SubtreeRoot, Signable, MHash, F.ForsIndex, SigOf, Verifies;
    var pk, c := sk[2 * e.p.n..], CtxOf(e.p, sk);
    assert pk[..e.p.n] == c.pub && pk[e.p.n..] == sk[3 * e.p.n..];
    Completeness(e, c, cap, v, SaltedR(e, sk, optrand, m), m, pk);
  }

  /** The three writes of the signer, one after the other, make up the whole signature. */
  lemma AssembleSig(was: seq<Bytes>, r: Bytes, fors: seq<Bytes>, ht: seq<Bytes>)
    requires |was| == 1 + |fors| + |ht|
    ensures Patch(Patch(was[0 := r], 1, fors), 1 + |fors|, ht) == [r] + fors + ht
  {
  }

  lemma OutcomeIs(e: Engine, sk: Bytes, optrand: Bytes, m: Bytes, cap: nat, was: Rec)
    requires |sk| == 4 * e.p.n
    ensures var d, c := SaltedDigest(e, sk, optrand, m), CtxOf(e.p, sk);
            var tree, leaf := TreeIndex(e.p, d), LeafIndex(e.p, d);
            var pk := F.ForsPk(e, c, tree, leaf);
            && (Succeeds(e, sk, optrand, m, cap) <==>
                  SaltNo(e, sk, optrand, m) < e.p.forscCap && CanSign(e, c, cap, 0, pk, tree))
            && Signature(e, sk, optrand, m, cap) == [SaltedR(e, sk, optrand, m)]
                 + F.ForsSig(e, c, tree, leaf, F.ForsIndices(e.p, MHash(e.p, d)), e.p.trees) + HtSig(e, c, cap, 0,
                   pk, tree, leaf)
            && SessionRec(e, sk, optrand, m, was) == var r := AfterGrind(e.p, was, SaltNo(e, sk, optrand, m));
                 if SaltNo(e, sk, optrand, m) == e.p.forscCap then r else SignedRec(e, c, 0, pk, tree, r)
  {
    hide FirstGood, MHash, TreeIndex, LeafIndex, CanSign, HtSig, F.ForsSig, F.ForsPk, F.ForsIndices, SignedRec,
      AfterGrind, Salt;
  }

  /** The part of `crypto_sign_signature` after the grind: FORS and the layers, behind the randomizer. */
  method SignBody(e: Engine, c: Ctx, avx2: bool, sig: array<Bytes>, r: Bytes, mhash: Bytes, tree: nat, leaf: nat,
      cur: SignStats?) returns (rc: int)
    requires sig.Length == 1 + ForsBlocks(e.p) + HtLen(e.p, e.p.d) && |mhash| == e.p.ForsMsgBytes()
        && leaf < Pow2(e.p.h)
    modifies sig, if cur == null then {} else {cur}
    ensures rc == if CanSign(e, c, W.Cap(e.p, cur), 0, F.ForsPk(e, c, tree, leaf), tree) then 0 else W.LIMIT_EXCEEDED
    ensures rc == 0 ==> sig[..] == [r] + F.ForsSig(e, c, tree, leaf, F.ForsIndices(e.p, mhash), e.p.trees)
                                       + HtSig(e, c, W.Cap(e.p, cur), 0, F.ForsPk(e, c, tree, leaf), tree, leaf)
    ensures cur != null ==> cur.r == SignedRec(e, c, 0, F.ForsPk(e, c, tree, leaf), tree, old(cur.r))
  {
    hide Patch, CanSign, HtSig, F.ForsSig, F.ForsPk, F.ForsIndices, HtLen, F.BlockOff, F.NamesKey, SignedRec, Pow2,
      Params.ForsMsgBytes;
    ghost var was := sig[..];
    var wotsAddr := new Addr();
    var treeAddr := new Addr();
    StartAddresses(tree, leaf);
    wotsAddr.f := wotsAddr.f.SetType(WOTS);
    treeAddr.f := treeAddr.f.SetType(HASHTREE);
    wotsAddr.f := wotsAddr.f.SetTree(tree);
    wotsAddr.f := wotsAddr.f.SetKeypair(leaf);
    sig[0] := r;
    var root := F.ForsSign(e, c, avx2, sig, 1, mhash, wotsAddr, tree, leaf);
    rc := SignLayers(e, c, avx2, sig, 1 + ForsBlocks(e.p), root, wotsAddr, treeAddr, tree, leaf, cur);
    if rc != 0 { return; }
    AssembleSig(was, r, F.ForsSig(e, c, tree, leaf, F.ForsIndices(e.p, mhash), e.p.trees),
      HtSig(e, c, W.Cap(e.p, cur), 0, root, tree, leaf));
  }

  /** `crypto_sign_signature` once `optrand` has been drawn. */
  method SignWith(e: Engine, avx2: bool, sig: array<Bytes>, m: Bytes, sk: Bytes, optrand: Bytes, cur: SignStats?)
      returns (rc: int)
    requires |sk| == 4 * e.p.n && sig.Length == 1 + ForsBlocks(e.p) + HtLen(e.p, e.p.d)
    modifies sig, if cur == null then {} else {cur}
    ensures rc == if Succeeds(e, sk, optrand, m, W.Cap(e.p, cur)) then 0 else W.LIMIT_EXCEEDED
    ensures rc == 0 ==> sig[..] == Signature(e, sk, optrand, m, W.Cap(e.p, cur))
    ensures cur != null ==> cur.r == SessionRec(e, sk, optrand, m, old(cur.r))
  {
    hide Succeeds, Signature, SessionRec, FirstGood, MHash, TreeIndex, LeafIndex, CanSign, HtSig, F.ForsSig,
      F.ForsPk, F.ForsIndices, ForsBlocks, HtLen, SignedRec, AfterGrind, Salt, Pow2, Params.DigestBytes,
      Params.ForsMsgBytes;
    var c := Ctx(sk[2 * e.p.n..3 * e.p.n], sk[..e.p.n]);
    var skPrf, pk := sk[e.p.n..2 * e.p.n], sk[2 * e.p.n..];
    OutcomeIs(e, sk, optrand, m, W.Cap(e.p, cur), if cur == null then Fresh(0, 0) else cur.r);
    var r, mhash, tree, leaf;
    rc, r, mhash, tree, leaf := GrindSalt(e, e.prfMsg(skPrf, optrand, m), pk, m, cur);
    if rc != 0 { return; }
    rc := SignBody(e, c, avx2, sig, r, mhash, tree, leaf, cur);
  }

  /** `crypto_sign_signature`. `sig` has room for exactly one signature. */
  method SignSignature(e: Engine, avx2: bool, tls: Thread, sig: array<Bytes>, m: Bytes, sk: Bytes)
      returns (rc: int, siglen: nat)
    requires |sk| == 4 * e.p.n && sig.Length == 1 + ForsBlocks(e.p) + HtLen(e.p, e.p.d) && tls.Valid()
    modifies sig, tls`offset, tls`failed, if tls.stats == null then {} else {tls.stats}
    ensures tls.Valid()
    ensures tls.source.Data? && tls.source.bytes != [] ==>
      var optrand := Cycle(tls.source.bytes, old(tls.offset), e.p.n);
      var cap := W.Cap(e.p, tls.stats);
      && !tls.failed
      && rc == (if Succeeds(e, sk, optrand, m, cap) then 0 else W.LIMIT_EXCEEDED)
      && (rc == 0 ==> sig[..] == Signature(e, sk, optrand, m, cap))
      && (tls.stats != null ==> tls.stats.r == SessionRec(e, sk, optrand, m, old(tls.stats.r)))
    ensures tls.source == Null || tls.source == Data([]) ==>
      && tls.failed && rc == -1 && sig[..] == old(sig[..])
      && (tls.stats != null ==> tls.stats.r == old(tls.stats.r))
    ensures siglen == if rc == 0 then sig.Length * e.p.n else 0
  {
    hide Succeeds, Signature, SessionRec, ForsBlocks, HtLen, Cycle;
    tls.ClearFailure();
    var optrand := new byte[e.p.n];
    tls.RandomBytes(optrand, e.p.n);
    if tls.failed { return -1, 0; }
    assert optrand[..e.p.n] == optrand[..];
    rc := SignWith(e, avx2, sig, m, sk, optrand[..], tls.stats);
    siglen := if rc == 0 then sig.Length * e.p.n else 0;
  }
}
