/**
 The logical positions of the engine and their addresses. Signer and verifier hash the address
 of the position, whatever the history of their buffers; here, different positions within the
 parameter bounds are shown to have different addresses, so no hash call is made for two ends.
 */
module Places {
  import opened Bits
  import opened Address
  import opened Engine
  import opened Spec
  import opened Merkle

  datatype Place =
    | ChainHash(layer: nat, tree: nat, kp: nat, chain: nat, k: nat)    // hashing value k of a WOTS chain
    | ChainSeed(layer: nat, tree: nat, kp: nat, chain: nat)            // deriving the start of a WOTS chain
    | WotsKey(layer: nat, tree: nat, kp: nat)                          // compressing a WOTS public key
    | HashNode(layer: nat, tree: nat, height: nat, index: nat)         // a hypertree node
    | ForsNode(tree: nat, kp: nat, height: nat, index: nat)            // a FORS node or, at height 0, leaf
    | ForsSeed(tree: nat, kp: nat, index: nat)                         // deriving a FORS secret value
    | ForsKey(tree: nat, kp: nat)                                      // compressing the FORS roots

  /** The address hashed for a position. */
  function At(x: Place): Adrs {
    match x
    case ChainHash(layer, tree, kp, chain, k) => ChainPos(layer, tree, WOTS, kp, chain, k)
    case ChainSeed(layer, tree, kp, chain) => ChainPos(layer, tree, WOTSPRF, kp, chain, 0)
    case WotsKey(layer, tree, kp) => Pos(layer, tree, WOTSPK, kp)
    case HashNode(layer, tree, height, index) => Pos(layer, tree, HASHTREE, 0).SetHeight(height).SetIndex(index)
    case ForsNode(tree, kp, height, index) => Pos(0, tree, FORSTREE, kp).SetHeight(height).SetIndex(index)
    case ForsSeed(tree, kp, index) => Pos(0, tree, FORSPRF, kp).SetIndex(index)
    case ForsKey(tree, kp) => Pos(0, tree, FORSPK, kp)
  }

  /** The positions a profile uses. */
  predicate Used(p: Params, x: Place) {
    match x
    case ChainHash(layer, tree, kp, chain, k) => layer < p.d && tree < Pow2(p.TreeBits()) && kp < Pow2(p.h)
      && chain < p.Len() && k < p.w
    case ChainSeed(layer, tree, kp, chain) => layer < p.d && tree < Pow2(p.TreeBits()) && kp < Pow2(p.h)
      && chain < p.Len()
    case WotsKey(layer, tree, kp) => layer < p.d && tree < Pow2(p.TreeBits()) && kp < Pow2(p.h)
    case HashNode(layer, tree, height, index) => layer < p.d && tree < Pow2(p.TreeBits()) && height <= p.h
      && index < Pow2(p.h)
    case ForsNode(tree, kp, height, index) => tree < Pow2(p.TreeBits()) && kp < Pow2(p.h) && height <= p.a
      && index < p.trees * Pow2(p.a)
    case ForsSeed(tree, kp, index) => tree < Pow2(p.TreeBits()) && kp < Pow2(p.h) && index < p.trees * Pow2(p.a)
    case ForsKey(tree, kp) => tree < Pow2(p.TreeBits()) && kp < Pow2(p.h)
  }

  /** Every bound fits the field that stores it. */
  lemma BoundsFit(p: Params)
    requires p.Valid()
    ensures Pow2(p.TreeBits()) <= 0x1_0000_0000_0000_0000 && Pow2(p.h) <= 0x2000_0000 && p.Len() <= 64
    ensures p.trees * Pow2(p.a) < 0x1_0000_0000
  {
    hide Pow2;
    LargePowers();
    Pow2Mono(p.TreeBits(), 64);
    Pow2Mono(p.h, 29);
    Pow2Mono(p.a, 24);
    Product(p.trees, Pow2(p.a));
  }

  lemma Product(k: nat, x: nat)
    requires k <= 31 && x <= 0x100_0000
    ensures k * x < 0x1_0000_0000
  {
    if k > 0 { assert k * x <= 31 * x; }
  }

  /** The coordinates of a position, field by field. */
  function Raw(x: Place): Adrs {
    match x
    case ChainHash(layer, tree, kp, chain, k) => Adrs(layer, tree, WOTS, kp, chain, k)
    case ChainSeed(layer, tree, kp, chain) => Adrs(layer, tree, WOTSPRF, kp, chain, 0)
    case WotsKey(layer, tree, kp) => Adrs(layer, tree, WOTSPK, kp, 0, 0)
    case HashNode(layer, tree, height, index) => Adrs(layer, tree, HASHTREE, 0, height, index)
    case ForsNode(tree, kp, height, index) => Adrs(0, tree, FORSTREE, kp, height, index)
    case ForsSeed(tree, kp, index) => Adrs(0, tree, FORSPRF, kp, 0, index)
    case ForsKey(tree, kp) => Adrs(0, tree, FORSPK, kp, 0, 0)
  }

  lemma RawFits(p: Params, x: Place)
    requires p.Valid() && Used(p, x)
    ensures Raw(x).InRange()
  {
    hide Pow2, Params.TreeBits;
    BoundsFit(p);
  }

  lemma Written(a: Adrs)
    requires a.InRange()
    ensures Pos(a.layer, a.tree, a.kind, a.kp) == a.(c := 0, w := 0)
    ensures a.(c := 0, w := 0).SetHeight(a.c).SetIndex(a.w) == a && a.(c := 0, w := 0).SetChain(a.c).SetIndex(a.w) == a
    ensures a.c == 0 ==> a.(w := 0).SetIndex(a.w) == a
  {
  }

  /** The address of a used position holds its coordinates unreduced. */
  lemma Unreduced(p: Params, x: Place)
    requires p.Valid() && Used(p, x)
    ensures At(x) == Raw(x) && Raw(x).InRange()
  {
    hide Pow2, Used, Pos, Adrs.SetHeight, Adrs.SetChain, Adrs.SetIndex, Adrs.InRange;
    RawFits(p, x);
    Written(Raw(x));
  }

  /** Address discipline: two used positions are hashed under the same 22 bytes only if they are the same position. */
  lemma PlacesDistinct(p: Params, x: Place, y: Place)
    requires p.Valid() && Used(p, x) && Used(p, y)
    ensures Enc(At(x)) == Enc(At(y)) <==> x == y
  {
    hide Enc, At, Used;
    Unreduced(p, x);
    Unreduced(p, y);
    FieldsOfEnc(At(x));
    FieldsOfEnc(At(y));
  }

  /**
   Every hash of the reference definitions is made at the place of what it computes: chain values,
   WOTS keys, tree nodes, FORS leaves and the secret values of both.
   */
  lemma HashedInPlace(e: Engine, c: Ctx, layer: nat, tree: nat, kp: nat, i: nat, k: nat)
    ensures Chain(e, c, layer, tree, kp, i, 0) == e.prf(c.pub, c.sk, At(ChainSeed(layer, tree, kp, i)))
    ensures Chain(e, c, layer, tree, kp, i, k + 1)
         == e.thash(c.pub, At(ChainHash(layer, tree, kp, i, k)), [Chain(e, c, layer, tree, kp, i, k)])
    ensures WotsLeaf(e, c, layer, tree, kp)
         == e.thash(c.pub, At(WotsKey(layer, tree, kp)), WotsPk(e, c, layer, tree, kp))
    ensures ForsSk(e, c, tree, kp, i) == e.prf(c.pub, c.sk, At(ForsSeed(tree, kp, i)))
    ensures ForsLeaf(e, c, tree, kp, i) == e.thash(c.pub, At(ForsNode(tree, kp, 0, i)), [ForsSk(e, c, tree, kp, i)])
  {
  }

  /** Tree nodes likewise, at the height and number they have. */
  lemma NodesInPlace(e: Engine, c: Ctx, layer: nat, tree: nat, kp: nat, off: nat, h: nat, i: nat)
    ensures var t := TreeOf(e, c, WotsGen(layer, tree), off);
            Node(t, h + 1, i) == e.thash(c.pub, At(HashNode(layer, tree, h + 1, i + Shr(off, h + 1))),
                                         [Node(t, h, 2 * i), Node(t, h, 2 * i + 1)])
    ensures var t := TreeOf(e, c, ForsGen(tree, kp), off);
            Node(t, h + 1, i) == e.thash(c.pub, At(ForsNode(tree, kp, h + 1, i + Shr(off, h + 1))),
                                         [Node(t, h, 2 * i), Node(t, h, 2 * i + 1)])
  {
    hide TreeOf, Node, Pos, Adrs.SetHeight, Adrs.SetIndex, Shr;
    NodeIsHash(e, c, WotsGen(layer, tree), off, h, i);
    NodeIsHash(e, c, ForsGen(tree, kp), off, h, i);
  }
}
