/**
 The binding of whole signatures: what it means that `crypto_sign_verify` accepts. Carried from the
 public root down through the layers and into FORS, an accepted signature is exactly the honest
 signature for its own randomizer, or a hash collision, or a WOTS key pair used for something its
 holder never signs with it.
 */
module Accepted {
  import opened Bits
  import opened Address
  import opened Engine
  import opened Spec
  import opened MerkleSign
  import opened Hypertree
  import opened Grind
  import opened Sign
  import Stats
  import opened Binding
  import F = Fors
  import W = Wots

  /** A WOTS key pair signs `got` where the key holder signs `want`. */
  datatype Verdict = Honest | Collision(k: Clash) | Forged(layer: nat, tree: nat, leaf: nat, got: Bytes, want: Bytes)

  /** Layer number `n` of a hypertree signature, counted from its start. */
  ghost function PieceAt(p: Params, sig: seq<Bytes>, n: nat): seq<Bytes>
    decreases n
  {
    if |sig| < LayerLen(p) then [] else if n == 0 then sig[..LayerLen(p)] else PieceAt(p, sig[LayerLen(p)..], n - 1)
  }

  /**
   A forgery above layer `i` in a signature that starts at tree `tree` there: the key pair that
   certifies a tree of the layer below certifies another root in its place, with chain values
   that are the key holder's own.
   */
  ghost predicate IsForged(e: Engine, c: Ctx, v: nat, i: nat, tree: nat, sig: seq<Bytes>, r: Verdict) {
    && r.Forged? && i < r.layer < e.p.d
    && var below := TreeAt(e.p, tree, r.layer - 1 - i);
       && r.tree == Above(e.p, below) && r.leaf == LeafAbove(e.p, below)
         && r.want == SubtreeRoot(e, c, r.layer - 1, below)
       && r.got != r.want && |r.got| == |r.want| == e.p.n && W.Found(e, r.got, v)
       && PieceAt(e.p, sig, r.layer - i) == LayerPiece(e, c, r.layer, r.tree, r.leaf, r.got, v)
  }

  lemma {:induction false} TreeAtShift(p: Params, tree: nat, n: nat)
    ensures TreeAt(p, Above(p, tree), n) == TreeAt(p, tree, n + 1)
  {
    if n > 0 { TreeAtShift(p, tree, n - 1); }
  }

  lemma ForgedShift(e: Engine, c: Ctx, v: nat, i: nat, tree: nat, sig: seq<Bytes>, r: Verdict)
    requires |sig| >= LayerLen(e.p) && IsForged(e, c, v, i + 1, Above(e.p, tree), sig[LayerLen(e.p)..], r)
    ensures IsForged(e, c, v, i, tree, sig, r)
  {
    hide Above, LeafAbove, SubtreeRoot, W.Found, LayerPiece, TreeAt;
    TreeAtShift(e.p, tree, r.layer - 2 - i);
  }

  lemma RootSize(e: Engine, pub: Bytes, v: nat, i: nat, msg: Bytes, tree: nat, leaf: nat, piece: seq<Bytes>)
    requires |piece| == LayerLen(e.p) && LayerRoot(e, pub, v, i, msg, tree, leaf, piece).Root?
    ensures |LayerRoot(e, pub, v, i, msg, tree, leaf, piece).value| == e.p.n
  {
    hide LayerRoot, Merkle.Climb, Join, Pos, Base, W.PkFromSig, W.Lengths, W.Found;
    LayerRootParts(e, pub, v, i, msg, tree, leaf, piece);
    var pk := W.PkFromSig(e, pub, i, tree, leaf, piece[..e.p.Len()], W.Lengths(e, msg, v));
    ClimbIs(e, pub, Base(WotsGen(i, tree)), 0, leaf, e.thash(pub, Pos(i, tree, WOTSPK, leaf), pk),
      piece[e.p.Len()..], e.p.h - 1);
  }

  lemma TopRootFree(e: Engine, c: Ctx, i: nat, msg: Bytes, msg': Bytes, tree: nat)
    requires i < e.p.d
    ensures TopRoot(e, c, i, msg, tree) == TopRoot(e, c, i, msg', tree)
  {
  }

  /** What one more layer below an honest upper part is. */
  lemma StepDown(e: Engine, c: Ctx, v: nat, i: nat, msg: Bytes, tree: nat, leaf: nat, sig: seq<Bytes>, root: Bytes)
    returns (r: Verdict)
    requires i < e.p.d && leaf < Pow2(e.p.h) && |sig| == HtLen(e.p, e.p.d - i)
    requires |sig| == LayerLen(e.p) + HtLen(e.p, e.p.d - i - 1)
    requires LayerRoot(e, c.pub, v, i, msg, tree, leaf, sig[..LayerLen(e.p)]) == Root(root)
    requires i + 1 == e.p.d ==> root == SubtreeRoot(e, c, i, tree)
    requires sig[LayerLen(e.p)..] == HtSig(e, c, v, i + 1, root, Above(e.p, tree), LeafAbove(e.p, tree))
    requires CanSign(e, c, v, i + 1, root, Above(e.p, tree))
    ensures r.Honest? ==> sig == HtSig(e, c, v, i, msg, tree, leaf) && CanSign(e, c, v, i, msg, tree)
    ensures r.Collision? ==> r.k.Clash? && Real(e, c.pub, r.k)
    ensures r.Forged? ==> IsForged(e, c, v, i, tree, sig, r)
  {
    hide LayerRoot, SubtreeRoot, LayerPiece, Above, LeafAbove, W.Found, Pow2, HtLen;
    var len := LayerLen(e.p);
    var piece, rest := sig[..len], sig[len..];
    if root != SubtreeRoot(e, c, i, tree) {
      r := Forged(i + 1, Above(e.p, tree), LeafAbove(e.p, tree), root, SubtreeRoot(e, c, i, tree));
      RootSize(e, c.pub, v, i, msg, tree, leaf, piece);
      RootLength(e, c, i, tree);
      UpperPiece(e, c, v, i + 1, root, Above(e.p, tree), LeafAbove(e.p, tree), sig);
      return;
    }
    var k := LayerBinds(e, c, v, i, msg, tree, leaf, piece);
    if k.Clash? { return Collision(k); }
    assert sig == piece + rest;
    r := Honest;
  }

  lemma UpperPiece(e: Engine, c: Ctx, v: nat, i: nat, root: Bytes, tree: nat, leaf: nat, sig: seq<Bytes>)
    requires i < e.p.d && |sig| >= LayerLen(e.p) && sig[LayerLen(e.p)..] == HtSig(e, c, v, i, root, tree, leaf)
    requires CanSign(e, c, v, i, root, tree)
    ensures PieceAt(e.p, sig, 1) == LayerPiece(e, c, i, tree, leaf, root, v) && W.Found(e, root, v)
  {
    hide LayerPiece, SubtreeRoot, Above, LeafAbove, W.Found, HtLen;
    var rest := sig[LayerLen(e.p)..];
    assert rest[..LayerLen(e.p)] == LayerPiece(e, c, i, tree, leaf, root, v);
    assert PieceAt(e.p, sig, 1) == PieceAt(e.p, rest, 0);
  }

  /** The layers `i` and up of a signature that verifies to the honest top root. */
  lemma {:induction false} HtBinds(e: Engine, c: Ctx, v: nat, i: nat, msg: Bytes, tree: nat, leaf: nat, sig: seq<Bytes>)
    returns (r: Verdict)
    requires i <= e.p.d && leaf < Pow2(e.p.h) && |sig| == HtLen(e.p, e.p.d - i)
    requires HtRoot(e, c.pub, v, i, msg, tree, leaf, sig) == Root(TopRoot(e, c, i, msg, tree))
    ensures r.Honest? ==> sig == HtSig(e, c, v, i, msg, tree, leaf) && CanSign(e, c, v, i, msg, tree)
    ensures r.Collision? ==> r.k.Clash? && Real(e, c.pub, r.k)
    ensures r.Forged? ==> IsForged(e, c, v, i, tree, sig, r)
    decreases e.p.d - i
  {
    hide LayerRoot, SubtreeRoot, W.Found, Pow2, HtRoot, HtSig, CanSign, HtLen, Above, LeafAbove;
    if i == e.p.d {
      HtRootEnd(e, c.pub, v, msg, tree, leaf, sig, Stats.Fresh(0, 0));
      HtSigEnd(e, c, v, msg, tree, leaf, Stats.Fresh(0, 0));
      return Honest;
    }
    HtRootStep(e, c.pub, v, i, msg, tree, leaf, sig);
    var len := LayerLen(e.p);
    var root := LayerRoot(e, c.pub, v, i, msg, tree, leaf, sig[..len]).value;
    var above, leafAbove, rest := Above(e.p, tree), LeafAbove(e.p, tree), sig[len..];
    if i + 1 == e.p.d {
      HtRootEnd(e, c.pub, v, root, above, leafAbove, rest, Stats.Fresh(0, 0));
    } else {
      TopRootFree(e, c, i + 1, SubtreeRoot(e, c, i, tree), root, above);
    }
    r := HtBinds(e, c, v, i + 1, root, above, leafAbove, rest);
    if r.Forged? { ForgedShift(e, c, v, i, tree, sig, r); }
    if !r.Honest? { return; }
    r := StepDown(e, c, v, i, msg, tree, leaf, sig, root);
  }

  // ---------- whole signatures ----------

  /** For a given digest a signature is accepted under at most one root: any other one is rejected. */
  lemma OnePublicKey(e: Engine, v: nat, sig: seq<Bytes>, m: Bytes, pk: Bytes, pk': Bytes)
    requires |pk| == |pk'| == 2 * e.p.n && pk[..e.p.n] == pk'[..e.p.n]
    requires sig != [] ==> e.hashMsg(sig[0], pk, m) == e.hashMsg(sig[0], pk', m)
    requires Verifies(e, v, sig, m, pk) && Verifies(e, v, sig, m, pk')
    ensures pk == pk'
  {
    hide MHash, TreeIndex, LeafIndex, F.ForsIndex, F.ForsIndices, F.PkFromSig, HtRoot, HtLen, ForsBlocks;
    ForsBlocksIs(e.p);
    assert pk == pk[..e.p.n] + pk[e.p.n..] && pk' == pk'[..e.p.n] + pk'[e.p.n..];
  }

  /** A digest whose compressed index is not zero is rejected. */
  lemma NonzeroIndexRejected(e: Engine, v: nat, sig: seq<Bytes>, m: Bytes, pk: Bytes)
    requires |pk| == 2 * e.p.n && sig != []
    requires F.ForsIndex(e.p, MHash(e.p, e.hashMsg(sig[0], pk, m)), e.p.trees) != 0
    ensures !Verifies(e, v, sig, m, pk)
  {
    hide MHash, TreeIndex, LeafIndex, F.ForsIndex, F.ForsIndices, F.PkFromSig, HtRoot, HtLen, ForsBlocks;
  }

  /** A forgery in a whole signature with digest `d`: at layer 0 on the FORS key, or above. */
  ghost predicate ForgedIn(e: Engine, c: Ctx, v: nat, d: Bytes, sig: seq<Bytes>, r: Verdict)
    requires |d| == e.p.DigestBytes() && |sig| == 1 + ForsBlocks(e.p) + HtLen(e.p, e.p.d)
  {
    var tree, leaf, ht := TreeIndex(e.p, d), LeafIndex(e.p, d), sig[1 + ForsBlocks(e.p)..];
    || IsForged(e, c, v, 0, tree, ht, r)
    || (&& r.Forged? && r.layer == 0 && r.tree == tree && r.leaf == leaf && r.want == F.ForsPk(e, c, tree, leaf)
        && r.got != r.want && |r.got| == |r.want| == e.p.n && W.Found(e, r.got, v)
        && PieceAt(e.p, ht, 0) == LayerPiece(e, c, 0, tree, leaf, r.got, v))
  }

  lemma FirstPiece(e: Engine, c: Ctx, v: nat, root: Bytes, tree: nat, leaf: nat, ht: seq<Bytes>)
    requires ht == HtSig(e, c, v, 0, root, tree, leaf) && CanSign(e, c, v, 0, root, tree)
    ensures PieceAt(e.p, ht, 0) == LayerPiece(e, c, 0, tree, leaf, root, v) && W.Found(e, root, v)
  {
    hide LayerPiece, SubtreeRoot, Above, LeafAbove, W.Found, HtLen;
    assert ht[..LayerLen(e.p)] == LayerPiece(e, c, 0, tree, leaf, root, v);
  }

  /**
   Binding: an accepted signature under the public key of a good key is the honest signature for
   its own randomizer, or a collision of `thash`, or a WOTS key pair of the key put to another use.
   */
  lemma AcceptedIs(e: Engine, sk: Bytes, v: nat, sig: seq<Bytes>, m: Bytes) returns (r: Verdict)
    requires GoodKey(e, sk) && Verifies(e, v, sig, m, sk[2 * e.p.n..])
    ensures var c, d := CtxOf(e.p, sk), e.hashMsg(sig[0], sk[2 * e.p.n..], m);
            && (r.Honest? ==> sig == SigOf(e, c, v, sig[0], d) && Signable(e, c, v, d))
            && (r.Collision? ==> r.k.Clash? && Real(e, c.pub, r.k))
            && (r.Forged? ==> ForgedIn(e, c, v, d, sig, r))
  {
    hide SubtreeRoot, MHash, TreeIndex, LeafIndex, F.ForsIndex, F.ForsIndices, F.PkFromSig, F.ForsPk, F.ForsSig,
      HtRoot, HtSig,
      CanSign, HtLen, ForsBlocks, Pow2, TopRoot, W.Found, IsForged, LayerPiece, PieceAt;
    var c, pk := CtxOf(e.p, sk), sk[2 * e.p.n..];
    var d, f := e.hashMsg(sig[0], pk, m), 1 + ForsBlocks(e.p);
    var tree, leaf, indices := TreeIndex(e.p, d), LeafIndex(e.p, d), F.ForsIndices(e.p, MHash(e.p, d));
    ForsBlocksIs(e.p);
    var fors, ht := sig[1..f], sig[f..];
    assert pk[..e.p.n] == c.pub && pk[e.p.n..] == SubtreeRoot(e, c, e.p.d - 1, 0);
    var root := F.PkFromSig(e, c.pub, tree, leaf, indices, fors);
    UpBitsIs(e.p, e.p.d - 1);
    TopIsPublicRoot(e, c, 0, root, tree);
    r := HtBinds(e, c, v, 0, root, tree, leaf, ht);
    if !r.Honest? { return; }
    if root != F.ForsPk(e, c, tree, leaf) {
      r := Forged(0, tree, leaf, root, F.ForsPk(e, c, tree, leaf));
      FirstPiece(e, c, v, root, tree, leaf, ht);
      KeySizes(e, c, tree, leaf, indices, fors);
      return;
    }
    var k := ForsBinds(e, c, tree, leaf, indices, fors);
    if k.Clash? { return Collision(k); }
    assert sig == [sig[0]] + fors + ht;
  }

  lemma KeySizes(e: Engine, c: Ctx, tree: nat, leaf: nat, indices: seq<nat>, fors: seq<Bytes>)
    requires |indices| == e.p.trees && |fors| == F.BlockOff(e.p, e.p.trees)
    ensures |F.PkFromSig(e, c.pub, tree, leaf, indices, fors)| == |F.ForsPk(e, c, tree, leaf)| == e.p.n
  {
    hide F.BlockOff, F.RootsFromSig, F.ForsRoots, Pos;
  }

  /** So, short of those events, acceptance is honesty: the other direction is completeness. */
  lemma HonestIsAccepted(e: Engine, sk: Bytes, v: nat, sig: seq<Bytes>, m: Bytes)
    requires GoodKey(e, sk) && sig != []
    requires var c, d := CtxOf(e.p, sk), e.hashMsg(sig[0], sk[2 * e.p.n..], m);
             && F.ForsIndex(e.p, MHash(e.p, d), e.p.trees) == 0
             && Signable(e, c, v, d) && sig == SigOf(e, c, v, sig[0], d)
    ensures Verifies(e, v, sig, m, sk[2 * e.p.n..])
  {
    hide SubtreeRoot, Signable, MHash, F.ForsIndex, SigOf, Verifies;
    var pk := sk[2 * e.p.n..];
    assert pk[..e.p.n] == CtxOf(e.p, sk).pub && pk[e.p.n..] == sk[3 * e.p.n..];
    Completeness(e, CtxOf(e.p, sk), v, v, sig[0], m, pk);
  }

  // ---------- what a forgery is ----------

  /** Why a key pair can sign `got` in the place of `want`. */
  datatype Break =
    | NeverSigned                       // the key holder cannot sign `want` under this cap at all
    | ShaClash(x: Bytes, y: Bytes)      // two inputs with one truncated hash
    | Earlier(chain: nat)               // a chain value before the one the key holder reveals

  /**
   WOTS+C binds: a key pair that signs another message than its own breaks the hash or reveals an
   earlier chain value.
   */
  lemma ForgeryMeans(e: Engine, v: nat, got: Bytes, want: Bytes) returns (b: Break)
    requires v <= 0xFFFF && got != want && |got| == |want| && W.Found(e, got, v)
    ensures b.NeverSigned? ==> !W.Found(e, want, v)
    ensures b.ShaClash? ==> b.x != b.y && e.sha256(b.x)[..e.p.n] == e.sha256(b.y)[..e.p.n]
    ensures b.Earlier? ==> b.chain < e.p.Len() && W.Lengths(e, got, v)[b.chain] < W.Lengths(e, want, v)[b.chain]
  {
    hide W.Hit, W.Compress, W.Digits, W.Input;
    if !W.Found(e, want, v) { return NeverSigned; }
    var i, j := W.Search(e, got, 0, v), W.Search(e, want, 0, v);
    var x, y := W.Digits(e.p, W.Compress(e, got, i)), W.Digits(e.p, W.Compress(e, want, j));
    W.NoDomination(e, got, want, i, j);
    if x == y {
      W.DigitsInjective(e.p, W.Compress(e, got, i), W.Compress(e, want, j));
      W.CompressBinds(e, got, i, want, j);
      b := ShaClash(W.Input(got, i), W.Input(want, j));
    } else {
      var l :| 0 <= l < |x| && x[l] < y[l];
      b := Earlier(l);
    }
  }

  /** The value at chain `j` of a layer's piece. */
  lemma RevealedValue(e: Engine, c: Ctx, layer: nat, tree: nat, leaf: nat, msg: Bytes, v: nat, j: nat)
    requires j < e.p.Len()
    ensures LayerPiece(e, c, layer, tree, leaf, msg, v)[j] == Chain(e, c, layer, tree, leaf, j, W.Lengths(e, msg, v)[j])
  {
    hide Chain, W.Lengths, Merkle.AuthPath;
  }

  /** The events that an accepted signature which is not the honest one makes explicit. */
  datatype Meaning =
    | HonestSignature
    | ThashCollision(k: Clash)
    | ShaCollision(x: Bytes, y: Bytes)
    | EarlierValue(at: Verdict, chain: nat, value: Bytes)
    | Unsignable(at: Verdict)

  /** A chain value of the key, at a place where the key holder reveals only a later one, stands in the signature. */
  ghost predicate RevealsEarlier(e: Engine, c: Ctx, v: nat, ht: seq<Bytes>, at: Verdict, chain: nat, value: Bytes) {
    && at.Forged? && chain < e.p.Len() && chain < |PieceAt(e.p, ht, at.layer)|
    && W.Lengths(e, at.got, v)[chain] < W.Lengths(e, at.want, v)[chain]
    && value == Chain(e, c, at.layer, at.tree, at.leaf, chain, W.Lengths(e, at.got, v)[chain])
    && value == PieceAt(e.p, ht, at.layer)[chain]
  }

  /**
   The reduction: an accepted signature is the honest one for its randomizer, or it comes with two
   inputs of one `thash`, or two inputs of one truncated SHA-256, or the value of a WOTS chain
   before the one its holder reveals, or a place where the holder cannot sign at all.
   */
  lemma AcceptedMeans(e: Engine, sk: Bytes, v: nat, sig: seq<Bytes>, m: Bytes) returns (r: Meaning)
    requires v <= 0xFFFF && GoodKey(e, sk) && Verifies(e, v, sig, m, sk[2 * e.p.n..])
    ensures var c, d, ht := CtxOf(e.p, sk), e.hashMsg(sig[0], sk[2 * e.p.n..], m), sig[1 + ForsBlocks(e.p)..];
            && (r.HonestSignature? ==> sig == SigOf(e, c, v, sig[0], d) && Signable(e, c, v, d))
            && (r.ThashCollision? ==> r.k.Clash? && Real(e, c.pub, r.k))
            && (r.ShaCollision? ==> r.x != r.y && e.sha256(r.x)[..e.p.n] == e.sha256(r.y)[..e.p.n])
            && (r.EarlierValue? ==>
                  ForgedIn(e, c, v, d, sig, r.at) && RevealsEarlier(e, c, v, ht, r.at, r.chain, r.value))
            && (r.Unsignable? ==> ForgedIn(e, c, v, d, sig, r.at) && !W.Found(e, r.at.want, v))
  {
    hide SubtreeRoot, MHash, TreeIndex, LeafIndex, F.ForsIndex, F.ForsIndices, F.PkFromSig, F.ForsPk, HtRoot,
      CanSign, HtLen,
      ForsBlocks, W.Found, LayerPiece, PieceAt, SigOf, Signable, Chain, W.Lengths, Verifies, Above, LeafAbove, TreeAt;
    assert |sig| == 1 + ForsBlocks(e.p) + HtLen(e.p, e.p.d) by { AcceptedSize(e, v, sig, m, sk[2 * e.p.n..]); }
    var c, d := CtxOf(e.p, sk), e.hashMsg(sig[0], sk[2 * e.p.n..], m);
    var at := AcceptedIs(e, sk, v, sig, m);
    if at.Honest? { return HonestSignature; }
    if at.Collision? { return ThashCollision(at.k); }
    var b := ForgeryMeans(e, v, at.got, at.want);
    match b
    case NeverSigned => r := Unsignable(at);
    case ShaClash(x, y) => r := ShaCollision(x, y);
    case Earlier(j) =>
      RevealedValue(e, c, at.layer, at.tree, at.leaf, at.got, v, j);
      r := EarlierValue(at, j, Chain(e, c, at.layer, at.tree, at.leaf, j, W.Lengths(e, at.got, v)[j]));
  }

  lemma AcceptedSize(e: Engine, v: nat, sig: seq<Bytes>, m: Bytes, pk: Bytes)
    requires |pk| == 2 * e.p.n && Verifies(e, v, sig, m, pk)
    ensures |sig| == 1 + ForsBlocks(e.p) + HtLen(e.p, e.p.d)
  {
    hide MHash, TreeIndex, LeafIndex, F.ForsIndex, F.ForsIndices, F.PkFromSig, HtRoot, HtLen, ForsBlocks;
  }
}
