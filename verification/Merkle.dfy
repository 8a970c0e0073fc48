/**
 Merkle trees over arbitrary leaf and hash functions: the recursive node of FIPS 205
 section 6.1, authentication paths, and the climb a verifier makes.
 */
module Merkle {
  import opened Bits

  /**
   A tree: its leaves, the hash of two siblings into the node at a given height and address
   index, and the offset `off` at which its leaf numbering starts.
   */
  datatype Tree = Tree(leaf: nat -> Bytes, join: (nat, int, Bytes, Bytes) -> Bytes, off: nat)

  /** Node `i` at height `h`. */
  ghost function Node(t: Tree, h: nat, i: nat): Bytes
    decreases h
  {
    if h == 0 then t.leaf(i + t.off)
    else t.join(h, i + Shr(t.off, h), Node(t, h - 1, 2 * i), Node(t, h - 1, 2 * i + 1))
  }

  /** The sibling at height `h` on the path from `leaf` to the root. */
  ghost function Sibling(t: Tree, leaf: nat, h: nat): Bytes {
    Node(t, h, Flip(Shr(leaf, h)))
  }

  ghost function AuthPath(t: Tree, leaf: nat, height: nat): (r: seq<Bytes>)
    ensures |r| == height
  {
    seq(height, h requires h >= 0 => Sibling(t, leaf, h))
  }

  /** The first `h` entries of `path` are the siblings on the way up from `leaf`. */
  ghost predicate IsPath(t: Tree, leaf: nat, path: seq<Bytes>, h: nat) {
    h <= |path| && forall j | 0 <= j < h :: path[j] == Sibling(t, leaf, j)
  }

  /** One step of a climb: node `i` at height `h - 1`, below its parent. */
  ghost function Up(join: (nat, int, Bytes, Bytes) -> Bytes, off: nat, h: nat, i: nat, below: Bytes,
      sibling: Bytes): Bytes {
    if i % 2 == 1
    then join(h, i / 2 + Shr(off, h), sibling, below)
    else join(h, i / 2 + Shr(off, h), below, sibling)
  }

  /** The value a verifier reaches at height `h` from a claimed leaf and path. */
  ghost function Climb(join: (nat, int, Bytes, Bytes) -> Bytes, off: nat, leaf: nat, node: Bytes, path: seq<Bytes>,
      h: nat): Bytes
    requires h <= |path|
  {
    if h == 0 then node
    else Up(join, off, h, Shr(leaf, h - 1), Climb(join, off, leaf, node, path, h - 1), path[h - 1])
  }

  lemma NodeStep(t: Tree, h: nat, i: nat)
    ensures Node(t, h + 1, i) == t.join(h + 1, i + Shr(t.off, h + 1), Node(t, h, 2 * i), Node(t, h, 2 * i + 1))
  {
  }

  lemma UpIsParent(t: Tree, h: nat, i: nat)
    requires h > 0
    ensures Up(t.join, t.off, h, i, Node(t, h - 1, i), Node(t, h - 1, Flip(i))) == Node(t, h, i / 2)
  {
  }

  /** Merkle round trip: climbing an authentication path passes through the node above its leaf at every height. */
  lemma {:induction false} ClimbRecoversNode(t: Tree, leaf: nat, path: seq<Bytes>, h: nat)
    requires IsPath(t, leaf, path, h)
    ensures Climb(t.join, t.off, leaf, t.leaf(leaf + t.off), path, h) == Node(t, h, Shr(leaf, h))
  {
    if h > 0 {
      ClimbRecoversNode(t, leaf, path, h - 1);
      UpIsParent(t, h, Shr(leaf, h - 1));
    }
  }

  /** The honest path of an in-range leaf leads to the root. */
  lemma AuthPathReachesRoot(t: Tree, leaf: nat, height: nat)
    requires leaf < Pow2(height)
    ensures Climb(t.join, t.off, leaf, t.leaf(leaf + t.off), AuthPath(t, leaf, height), height) == Node(t, height, 0)
  {
    hide Node, Climb;
    assert IsPath(t, leaf, AuthPath(t, leaf, height), height);
    ClimbRecoversNode(t, leaf, AuthPath(t, leaf, height), height);
    ShrBound(leaf, 0, height);
  }
}
