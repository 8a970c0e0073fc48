/**
 The classic `treehash` of utils.c: a stack of nodes with their heights, topped up leaf by leaf
 and reduced while the two topmost nodes are of equal height.
 */
module TreeHash {
  import opened Bits
  import opened Address
  import opened Engine
  import opened Merkle
  import opened Spec
  import opened TreeHashX1

  /** The positions of the set bits of `x`, highest first, counted from `lo`. */
  ghost function SetBits(x: nat, lo: nat): seq<nat> {
    if x == 0 then [] else SetBits(x / 2, lo + 1) + (if x % 2 == 1 then [lo] else [])
  }

  lemma {:induction false} SetBitsFit(x: nat, lo: nat, n: nat)
    requires x < Pow2(n)
    ensures |SetBits(x, lo)| <= n
    decreases n
  {
    if x > 0 { SetBitsFit(x / 2, lo + 1, n - 1); }
  }

  lemma {:induction false} SetBitsAbove(x: nat, lo: nat)
    ensures forall p | 0 <= p < |SetBits(x, lo)| :: SetBits(x, lo)[p] >= lo
    decreases x
  {
    if x > 0 { SetBitsAbove(x / 2, lo + 1); }
  }

  /** The top of the stack is of height `h` exactly when bit `h` is set. */
  lemma TopHeight(x: nat, h: nat)
    ensures x % 2 == 1 <==> SetBits(x, h) != [] && SetBits(x, h)[|SetBits(x, h)| - 1] == h
    ensures x % 2 == 1 ==> SetBits(x, h) == SetBits(x / 2, h + 1) + [h]
    ensures x % 2 == 0 ==> SetBits(x, h) == SetBits(x / 2, h + 1) && SetBits(x + 1, h) == SetBits(x, h) + [h]
  {
    SetBitsAbove(x / 2, h + 1);
    assert x % 2 == 0 ==> (x + 1) / 2 == x / 2;
    if x == 0 { assert SetBits(0, h) == SetBits(0, h + 1) == []; }
  }

  /** Low zero bits contribute nothing. */
  lemma {:induction false} SetBitsSkip(x: nat, h: nat)
    requires forall j | 0 <= j < h :: Shr(x, j) % 2 == 0
    ensures SetBits(x, 0) == SetBits(Shr(x, h), h)
  {
    if h > 0 {
      SetBitsSkip(x, h - 1);
      TopHeight(Shr(x, h - 1), h - 1);
    }
  }

  lemma CarryBits(idx: nat, next: nat, h: nat)
    requires next == idx + 1 && Ones(idx, h) && Shr(idx, h) % 2 == 0
    ensures SetBits(next, 0) == SetBits(Shr(idx, h), h) + [h]
  {
    Carries(idx, next, h);
    SetBitsSkip(next, h);
    TopHeight(Shr(idx, h), h);
  }

  /** The stack holds, for every set bit from `h` up, the last complete node of that height. */
  ghost predicate Holds(t: Tree, stack: seq<Bytes>, heights: seq<nat>, idx: nat, h: nat) {
    var bits := SetBits(Shr(idx, h), h);
    && |bits| <= |stack| == |heights| && heights[..|bits|] == bits
    && forall p | 0 <= p < |bits| ::
      Shr(idx, heights[p]) >= 1 && stack[p] == Node(t, heights[p], Shr(idx, heights[p]) - 1)
  }

  lemma HoldsNone(t: Tree, stack: seq<Bytes>, heights: seq<nat>)
    requires |stack| == |heights|
    ensures Holds(t, stack, heights, 0, 0) && SetBits(0, 0) == []
  {
  }

  /** Reducing: the two topmost nodes become their parent. */
  lemma Reduce(t: Tree, stack: seq<Bytes>, heights: seq<nat>, idx: nat, h: nat)
    requires Holds(t, stack, heights, idx, h) && Shr(idx, h) % 2 == 1
    ensures var n := |SetBits(Shr(idx, h), h)|;
            && n >= 1 && n - 1 == |SetBits(Shr(idx, h + 1), h + 1)|
            && Holds(t, stack, heights, idx, h + 1)
            && t.join(h + 1, Shr(idx, h + 1) + Shr(t.off, h + 1), stack[n - 1], Node(t, h, Shr(idx, h)))
              == Node(t, h + 1, Shr(idx, h + 1))
  {
    hide Node;
    TopHeight(Shr(idx, h), h);
    var bits, above := SetBits(Shr(idx, h), h), SetBits(Shr(idx, h + 1), h + 1);
    var n := |bits|;
    assert bits == above + [h] && heights[n - 1] == h;
    assert heights[..n - 1] == above;
    assert stack[n - 1] == Node(t, h, Shr(idx, h) - 1);
    Parent(t, h, Shr(idx, h));
  }

  lemma Parent(t: Tree, h: nat, x: nat)
    requires x % 2 == 1
    ensures t.join(h + 1, x / 2 + Shr(t.off, h + 1), Node(t, h, x - 1), Node(t, h, x)) == Node(t, h + 1, x / 2)
  {
    assert 2 * (x / 2) == x - 1;
  }

  /** Pushing: the finished node of height `h` joins the stack for the next leaf. */
  lemma Push(t: Tree, stack: seq<Bytes>, heights: seq<nat>, idx: nat, next: nat, h: nat)
    requires next == idx + 1 && Ones(idx, h) && Shr(idx, h) % 2 == 0 && Holds(t, stack, heights, idx, h)
    requires |SetBits(Shr(idx, h), h)| < |stack|
    requires var n := |SetBits(Shr(idx, h), h)|; heights[n] == h && stack[n] == Node(t, h, Shr(idx, h))
    ensures Holds(t, stack, heights, next, 0) && |SetBits(next, 0)| == |SetBits(Shr(idx, h), h)| + 1
  {
    hide Node, SetBits, Shr, Ones;
    CarryBits(idx, next, h);
    ShrZeroth(next);
    var below := SetBits(Shr(idx, h), h);
    var bits, n := SetBits(next, 0), |below|;
    HigherBits(idx, h);
    Carries(idx, next, h);
    assert bits == below + [h] && heights[..n] == below;
    assert heights[..n + 1] == bits;
    forall p | 0 <= p < |bits| ensures Shr(next, heights[p]) >= 1
      && stack[p] == Node(t, heights[p], Shr(next, heights[p]) - 1) {
      assert heights[p] == bits[p];
      assert Shr(next, heights[p]) == Complete(idx, h + 1, heights[p]);
      if p < n { assert bits[p] == below[p] >= h + 1; }
    }
  }

  lemma ShrZeroth(x: nat)
    ensures Shr(x, 0) == x
  {
  }

  lemma HigherBits(idx: nat, h: nat)
    requires Shr(idx, h) % 2 == 0
    ensures forall p | 0 <= p < |SetBits(Shr(idx, h), h)| :: SetBits(Shr(idx, h), h)[p] >= h + 1
  {
    TopHeight(Shr(idx, h), h);
    SetBitsAbove(Shr(idx, h) / 2, h + 1);
  }

  /** The copy into the path at the top would be out of bounds exactly for the leaf numbers of a right sibling tree. */
  lemma TopCopy(leaf: nat, height: nat)
    ensures Flip(Shr(leaf, height)) == 0 <==> Pow2(height) <= leaf < Pow2(height + 1)
  {
    hide Shr;
    ShrBound(leaf, 0, height);
    ShrBound(leaf, 1, height);
    assert Pow2(0) == 1 && Pow2(1) == 2 && 1 + height == height + 1;
  }

  /** One input: for leaf 2 of a tree of height 1 the comparison at the root level holds. */
  lemma CopyPastPath()
    ensures Flip(Shr(2, 1)) == Shr(Pow2(1) - 1, 1) == 0
  {
    assert Pow2(1) == 2 && Shr(2, 0) == 2 && Shr(1, 0) == 1;
  }

  // ---------- the method ----------

  /** Only the entries that hold nodes matter. */
  lemma HoldsBelow(t: Tree, stack: seq<Bytes>, heights: seq<nat>, stack': seq<Bytes>, heights': seq<nat>, idx: nat,
      h: nat)
    requires Holds(t, stack, heights, idx, h) && |stack'| == |heights'| == |stack|
    requires var n := |SetBits(Shr(idx, h), h)|; stack'[..n] == stack[..n] && heights'[..n] == heights[..n]
    ensures Holds(t, stack', heights', idx, h)
  {
    hide Node, Shr, SetBits;
    var n := |SetBits(Shr(idx, h), h)|;
    forall p | 0 <= p < n ensures stack'[p] == stack[p] && heights'[p] == heights[p] {
      assert stack'[..n][p] == stack[..n][p] && heights'[..n][p] == heights[..n][p];
    }
  }

  /** The loop test: the two topmost nodes are of equal height exactly when bit `h` is set. */
  lemma TestIsBit(t: Tree, stack: seq<Bytes>, heights: seq<nat>, idx: nat, h: nat, n: nat)
    requires Holds(t, stack, heights, idx, h) && n == |SetBits(Shr(idx, h), h)| + 1 <= |heights| && heights[n - 1] == h
    ensures Shr(idx, h) % 2 == 1 <==> n >= 2 && heights[n - 1] == heights[n - 2]
  {
    hide Node, Shr, SetBits;
    TopHeight(Shr(idx, h), h);
    var bits := SetBits(Shr(idx, h), h);
    if n >= 2 { assert heights[..|bits|][n - 2] == bits[n - 2]; }
  }

  /** Heights stay within the tree. */
  lemma BitBelow(idx: nat, h: nat, height: nat)
    requires idx < Pow2(height) && h <= height
    ensures h == height ==> Shr(idx, h) == 0
    ensures |SetBits(Shr(idx, h), h)| <= height - h
  {
    ShrBound(idx, height - h, h);
    SetBitsFit(Shr(idx, h), h, height - h);
  }

  /** A node of height `h` has been compared with the path; at the top nothing is copied. */
  lemma Compared(t: Tree, leaf: nat, now: seq<Bytes>, was: seq<Bytes>, idx: nat, h: nat)
    requires AuthOk(t, leaf, now, was, idx, h) && h <= |now| && idx < Pow2(|now|) && Flip(Shr(leaf, |now|)) != 0
    ensures Flip(Shr(leaf, h)) == Shr(idx, h) ==> h < |now|
    ensures AuthOk(t, leaf, if Flip(Shr(leaf, h)) == Shr(idx, h) then now[h := Node(t, h, Shr(idx, h))] else now,
        was, idx, h + 1)
  {
    hide Node, Shr, Flip, SetBits;
    BitBelow(idx, h, |now|);
    if h < |now| { AuthStep(t, leaf, now, was, idx, h); }
  }

  lemma NextLeaf(t: Tree, leaf: nat, now: seq<Bytes>, was: seq<Bytes>, idx: nat, next: nat, h: nat)
    requires AuthOk(t, leaf, now, was, idx, h + 1) && next == idx + 1 && Ones(idx, h) && Shr(idx, h) % 2 == 0
    ensures AuthOk(t, leaf, now, was, next, 0)
  {
    hide Shr, Flip, Sibling;
    Carries(idx, next, h);
  }

  /** The two topmost nodes, of height `h`, become their parent, which may belong to the path. */
  method ReduceTop(e: Engine, pub: Bytes, auth: array<Bytes>, leaf: nat, height: nat, idx: nat, stack: array<Bytes>,
      heights: array<nat>, n0: nat,
                   addr: Addr, off: nat, ghost base: Adrs, ghost t: Tree, ghost was: seq<Bytes>, ghost h: nat)
    returns (n: nat)
    requires auth.Length == height && stack.Length == heights.Length == height + 1 && auth != stack
    requires idx < Pow2(height) && Flip(Shr(leaf, height)) != 0
    requires t.join == Join(e, pub, base) && t.off == off && SameTree(addr.f, base)
    requires h <= height && n0 == |SetBits(Shr(idx, h), h)| + 1 <= height + 1 && Shr(idx, h) % 2 == 1
    requires heights[n0 - 1] == h && stack[n0 - 1] == Node(t, h, Shr(idx, h))
    requires Holds(t, stack[..], heights[..], idx, h) && AuthOk(t, leaf, auth[..], was, idx, h + 1)
    modifies auth, stack, heights, addr
    ensures SameTree(addr.f, base)
    ensures h < height && n == n0 - 1 == |SetBits(Shr(idx, h + 1), h + 1)| + 1
    ensures heights[n - 1] == h + 1 && stack[n - 1] == Node(t, h + 1, Shr(idx, h + 1))
    ensures Holds(t, stack[..], heights[..], idx, h + 1) && AuthOk(t, leaf, auth[..], was, idx, h + 2)
  {
    hide Holds, AuthOk, SameTree, Node, SetBits, Join, Flip, Shr, Pow2;
    n := n0;
    BitBelow(idx, h, height);
    Reduce(t, stack[..], heights[..], idx, h);
    HeightIs(t, stack[..], heights[..], idx, h, n);
    var treeIdx := Shr(idx, heights[n - 1] + 1);
    var parent := HashPair(e, pub, addr, base, heights[n - 1] + 1, treeIdx + Shr(off, heights[n - 1] + 1),
      stack[n - 2], stack[n - 1]);
    ghost var s, hs := stack[..], heights[..];
    stack[n - 2] := parent;
    n := n - 1;
    heights[n - 1] := heights[n - 1] + 1;
    HoldsBelow(t, s, hs, stack[..], heights[..], idx, h + 1);
    Compared(t, leaf, auth[..], was, idx, h + 1);
    if Flip(Shr(leaf, heights[n - 1])) == treeIdx {
      auth[heights[n - 1]] := stack[n - 1];
    }
  }

  lemma HeightIs(t: Tree, stack: seq<Bytes>, heights: seq<nat>, idx: nat, h: nat, n: nat)
    requires Holds(t, stack, heights, idx, h) && n == |SetBits(Shr(idx, h), h)| + 1 <= |heights|
        && heights[n - 1] == h && Shr(idx, h) % 2 == 1
    ensures n >= 2 && heights[n - 2] == h
  {
    TestIsBit(t, stack, heights, idx, h, n);
  }

  /**
   One leaf: pushed, then reduced while the two topmost nodes are of equal height. `n` counts
   the nodes on the stack.
   */
  method AddLeaf(e: Engine, pub: Bytes, auth: array<Bytes>, leaf: nat, height: nat, idx: nat, node: Bytes,
      stack: array<Bytes>, heights: array<nat>, n0: nat,
                 addr: Addr, off: nat, ghost base: Adrs, ghost t: Tree, ghost was: seq<Bytes>)
    returns (n: nat)
    requires auth.Length == height && stack.Length == heights.Length == height + 1 && auth != stack
    requires idx < Pow2(height) && node == Node(t, 0, idx) && Flip(Shr(leaf, height)) != 0
    requires t.join == Join(e, pub, base) && t.off == off && SameTree(addr.f, base)
    requires n0 == |SetBits(idx, 0)| && Holds(t, stack[..], heights[..], idx, 0)
        && AuthOk(t, leaf, auth[..], was, idx, 0)
    modifies auth, stack, heights, addr
    ensures SameTree(addr.f, base)
    ensures n == |SetBits(idx + 1, 0)| && Holds(t, stack[..], heights[..], idx + 1, 0)
    ensures AuthOk(t, leaf, auth[..], was, idx + 1, 0)
  {
    hide Holds, AuthOk, SameTree, Ones, Node, SetBits, Join, Flip, Shr, Pow2;
    n := n0;
    ShrZeroth(idx);
    ShrZeroth(leaf);
    BitBelow(idx, 0, height);
    ghost var s, hs := stack[..], heights[..];
    stack[n] := node;
    n := n + 1;
    heights[n - 1] := 0;
    HoldsBelow(t, s, hs, stack[..], heights[..], idx, 0);
    Compared(t, leaf, auth[..], was, idx, 0);
    if Flip(leaf) == idx {
      auth[0] := stack[n - 1];
    }
    ghost var h: nat := 0;
    OnesNone(idx);
    TestIsBit(t, stack[..], heights[..], idx, h, n);
    while n >= 2 && heights[n - 1] == heights[n - 2]
      invariant h <= height && 1 <= n == |SetBits(Shr(idx, h), h)| + 1 <= height + 1
      invariant heights[n - 1] == h && stack[n - 1] == Node(t, h, Shr(idx, h))
      invariant Ones(idx, h) && SameTree(addr.f, base)
      invariant Holds(t, stack[..], heights[..], idx, h) && AuthOk(t, leaf, auth[..], was, idx, h + 1)
      invariant Shr(idx, h) % 2 == 1 <==> n >= 2 && heights[n - 1] == heights[n - 2]
      decreases n
    {
      OnesStep(idx, h);
      n := ReduceTop(e, pub, auth, leaf, height, idx, stack, heights, n, addr, off, base, t, was, h);
      h := h + 1;
      TestIsBit(t, stack[..], heights[..], idx, h, n);
    }
    Push(t, stack[..], heights[..], idx, idx + 1, h);
    NextLeaf(t, leaf, auth[..], was, idx, idx + 1, h);
  }

  lemma {:induction false} ShrPow(height: nat, j: nat)
    requires j <= height
    ensures Shr(Pow2(height), j) == Pow2(height - j)
  {
    if j > 0 { ShrPow(height, j - 1); }
  }

  /** After the last leaf one node is left, the root, and the path is complete. */
  lemma AllDone(t: Tree, stack: seq<Bytes>, heights: seq<nat>, leaf: nat, auth: seq<Bytes>, was: seq<Bytes>,
      height: nat)
    requires Holds(t, stack, heights, Pow2(height), 0) && |auth| == height
        && AuthOk(t, leaf, auth, was, Pow2(height), 0)
    ensures |stack| > 0 && stack[0] == Node(t, height, 0)
    ensures auth == if leaf < Pow2(height) then AuthPath(t, leaf, height) else was
  {
    hide Node, SetBits, Sibling, Flip;
    var x := Pow2(height);
    ShrPow(height, height);
    forall j | 0 <= j < height ensures Shr(x, j) % 2 == 0 { ShrPow(height, j); }
    SetBitsSkip(x, height);
    ShrZeroth(x);
    TopHeight(0, height);
    assert Shr(x, height) == 1 && Pow2(0) == 1;
    assert SetBits(x, 0) == SetBits(0, height) + [height];
    NoBits(height);
    assert heights[..1][0] == height;
    forall j | 0 <= j < height ensures auth[j] == if leaf < x then Sibling(t, leaf, j) else was[j] {
      ShrPow(height, j);
      ShrBound(leaf, height - j, j);
      FlipBelowEven(Shr(leaf, j), Pow2(height - j - 1));
    }
  }

  lemma NoBits(h: nat)
    ensures SetBits(0, h) == []
  {
  }

  /** `treehash`, with `leafOf` for its `gen_leaf`: the same root and path as `treehashx1`. */
  method TreeHash(e: Engine, pub: Bytes, leafOf: nat -> Bytes, auth: array<Bytes>, leaf: nat, off: nat, height: nat,
      addr: Addr, ghost base: Adrs)
    returns (root: Bytes)
    requires auth.Length == height && SameTree(addr.f, base) && !(Pow2(height) <= leaf < Pow2(height + 1))
    modifies auth, addr
    ensures SameTree(addr.f, base)
    ensures var t := Tree(leafOf, Join(e, pub, base), off);
            && root == Node(t, height, 0)
            && auth[..] == if leaf < Pow2(height) then AuthPath(t, leaf, height) else old(auth[..])
  {
    hide Holds, AuthOk, SameTree, Node, SetBits, Join, Flip, Shr, Pow2, AuthPath;
    ghost var t := Tree(leafOf, Join(e, pub, base), off);
    ghost var was := auth[..];
    var stack := new Bytes[height + 1];
    var heights := new nat[height + 1];
    var n := 0;
    HoldsNone(t, stack[..], heights[..]);
    Start(t, [], leaf, was);
    TopCopy(leaf, height);
    var idx: nat := 0;
    while idx < Pow2(height)
      invariant idx <= Pow2(height) && n == |SetBits(idx, 0)| && SameTree(addr.f, base)
      invariant Holds(t, stack[..], heights[..], idx, 0) && AuthOk(t, leaf, auth[..], was, idx, 0)
    {
      var node := leafOf(idx + off);
      LeafIs(t, idx);
      n := AddLeaf(e, pub, auth, leaf, height, idx, node, stack, heights, n, addr, off, base, t, was);
      idx := idx + 1;
    }
    AllDone(t, stack[..], heights[..], leaf, auth[..], was, height);
    root := stack[0];
  }

  lemma LeafIs(t: Tree, idx: nat)
    ensures Node(t, 0, idx) == t.leaf(idx + t.off)
  {
  }
}
