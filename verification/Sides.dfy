/**
 The two sides of a layer. The signer hashes through the `info` addresses that `merkle_sign_scalar`
 clears and fills for every layer; the verifier through three variables it reuses for all
 layers. Whatever their earlier histories, both hash the same 22 bytes for every position.
 */
module Sides {
  import opened Bits
  import opened Address
  import opened Spec
  import opened AddressRuns

  // The signer's variables are `wots_addr`, `tree_addr`, `info.leaf_addr` and `info.pk_addr`,
  // the verifier's `wots_addr`, `tree_addr` and `wots_pk_addr`, in this order.

  /** What the first four calls of either layer loop do. */
  function Enter(vars: seq<Adrs>, layer: nat, tree: nat, leaf: nat): (r: seq<Adrs>)
    requires |vars| >= 2
    ensures |r| == |vars|
  {
    Do(Do(Do(Do(vars, Layer(1, layer)), Tree(1, tree)), Subtree(0, 1)), Keypair(0, leaf))
  }

  /** The signer at a layer: `merkle_sign_scalar` up to the call of TreeHash, then the leaf generator's key pair. */
  function SignerAt(vars: seq<Adrs>, layer: nat, tree: nat, leaf: nat): (r: seq<Adrs>)
    requires |vars| == 4
    ensures |r| == 4
  {
    var s := Do(Do(Enter(vars, layer, tree, leaf), Type(1, HASHTREE)), Type(3, WOTSPK));
    Do(Do(Do(Do(s, Subtree(2, 0)), Subtree(3, 0)), Keypair(2, leaf)), Keypair(3, leaf))
  }

  /** The signer's leaf address at value `k` of a chain: started for the PRF, then switched to hashing. */
  function SignerChain(vars: seq<Adrs>, chain: nat, k: nat): (r: seq<Adrs>)
    requires |vars| == 4
    ensures |r| == 4
  {
    Do(Do(Do(Do(Do(vars, Chain(2, chain)), Hash(2, 0)), Type(2, WOTSPRF)), Type(2, WOTS)), Hash(2, k))
  }

  /** The verifier at a layer. */
  function VerifierAt(vars: seq<Adrs>, layer: nat, tree: nat, leaf: nat): (r: seq<Adrs>)
    requires |vars| == 3
    ensures |r| == 3
  {
    Do(Enter(vars, layer, tree, leaf), KeypairOf(2, 0))
  }

  /** What the verifier's variables keep through all layers. */
  predicate VerifierVars(vars: seq<Adrs>) {
    && |vars| == 3 && vars[0].kind == WOTS && vars[0].w < 256 && vars[1].kind == HASHTREE && vars[1].kp == 0
    && vars[2].kind == WOTSPK && vars[2].c == 0 && vars[2].w == 0
  }

  /** What the signer's variables keep; the `info` addresses are zero at the start of a layer. */
  predicate SignerVars(vars: seq<Adrs>) {
    |vars| == 4 && vars[1].kp == 0 && vars[2] == ZERO && vars[3] == ZERO
  }

  lemma SignerLayer(s: seq<Adrs>, layer: nat, tree: nat, leaf: nat)
    requires SignerVars(s)
    ensures var s' := SignerAt(s, layer, tree, leaf);
            && s'[2] == Pos(layer, tree, 0, leaf) && s'[3] == Pos(layer, tree, WOTSPK, leaf)
            && s'[1].(c := 0, w := 0) == Pos(layer, tree, HASHTREE, 0)
  {
  }

  lemma VerifierLayer(v: seq<Adrs>, layer: nat, tree: nat, leaf: nat)
    requires VerifierVars(v)
    ensures var v' := VerifierAt(v, layer, tree, leaf);
            && v'[0].(c := 0, w := 0) == Pos(layer, tree, WOTS, leaf) && v'[0].w < 256
              && v'[2] == Pos(layer, tree, WOTSPK, leaf)
            && v'[1].(c := 0, w := 0) == Pos(layer, tree, HASHTREE, 0) && VerifierVars(v')
  {
  }

  lemma ChainAddress(f: Adrs, layer: nat, tree: nat, leaf: nat, chain: nat, k: nat)
    requires f.(c := 0, w := 0) == Pos(layer, tree, WOTS, leaf) && f.w < 256 && k < 256
    ensures f.SetChain(chain).SetHash(k) == ChainPos(layer, tree, WOTS, leaf, chain, k)
  {
  }

  lemma SignerChainAddress(s: seq<Adrs>, layer: nat, tree: nat, leaf: nat, chain: nat, k: nat)
    requires |s| == 4 && s[2] == Pos(layer, tree, 0, leaf) && k < 256
    ensures SignerChain(s, chain, k)[2] == ChainPos(layer, tree, WOTS, leaf, chain, k)
  {
  }

  /** Both sides address every chain value, the WOTS key and every tree node of a layer alike. */
  lemma BothSides(s: seq<Adrs>, v: seq<Adrs>, layer: nat, tree: nat, leaf: nat, chain: nat, k: nat, height: nat,
      index: int)
    requires SignerVars(s) && VerifierVars(v) && k < 256
    ensures var s', v' := SignerAt(s, layer, tree, leaf), VerifierAt(v, layer, tree, leaf);
            && SignerChain(s', chain, k)[2] == Do(Do(v', Chain(0, chain)), Hash(0, k))[0]
            && s'[3] == v'[2]
            && Do(Do(s', Height(1, height)), Index(1, index))[1] == Do(Do(v', Height(1, height)), Index(1, index))[1]
  {
    hide SignerAt, VerifierAt, SignerChain, Pos, ChainPos;
    var s', v' := SignerAt(s, layer, tree, leaf), VerifierAt(v, layer, tree, leaf);
    SignerLayer(s, layer, tree, leaf);
    VerifierLayer(v, layer, tree, leaf);
    SignerChainAddress(s', layer, tree, leaf, chain, k);
    ChainAddress(v'[0], layer, tree, leaf, chain, k);
  }

  /** So the bytes in the two programs' memories, with their different histories, are equal. */
  lemma BothSidesHash(ms: Bytes, s: seq<Adrs>, mv: Bytes, v: seq<Adrs>, layer: nat, tree: nat, leaf: nat, chain: nat,
      k: nat)
    requires SignerVars(s) && VerifierVars(v) && k < 256
    requires Holds(ms, SignerChain(SignerAt(s, layer, tree, leaf), chain, k))
    requires Holds(mv, Do(Do(VerifierAt(v, layer, tree, leaf), Chain(0, chain)), Hash(0, k)))
    ensures Slot(ms, 2) == Slot(mv, 0) && Slot(ms, 3) == Slot(mv, 2)
  {
    hide Holds, SignerAt, VerifierAt, Slot;
    var s', v' := SignerAt(s, layer, tree, leaf), VerifierAt(v, layer, tree, leaf);
    BothSides(s, v, layer, tree, leaf, chain, k, 0, 0);
    SameBytes(ms, SignerChain(s', chain, k), 2, mv, Do(Do(v', Chain(0, chain)), Hash(0, k)), 0);
    SameBytes(ms, SignerChain(s', chain, k), 3, mv, Do(Do(v', Chain(0, chain)), Hash(0, k)), 2);
  }
}
