/**
 utilsx1.c and `compute_root` of utils.c: one pass over the leaves with a stack of partial
 roots builds the root and the authentication path; the verifier folds the path back up.
 */
module TreeHashX1 {
  import opened Bits
  import opened Address
  import opened Engine
  import opened Merkle
  import opened Spec
  import opened LeafGen

  // ---------- the loop invariants, on values ----------

  /** Before leaf `idx`, level `j` of the stack holds the last complete node wherever bit `j` of `idx` is set. */
  ghost predicate StackOk(t: Tree, stack: seq<Bytes>, idx: nat) {
    forall j | 0 <= j < |stack| && Shr(idx, j) % 2 == 1 :: stack[j] == Node(t, j, Shr(idx, j) - 1)
  }

  /** The number of nodes completed at level `j` once leaf `idx` has been combined below level `h`. */
  ghost function Complete(idx: nat, h: nat, j: nat): nat {
    if j < h then Shr(idx, j) + 1 else Shr(idx, j)
  }

  /** Exactly the path entries whose sibling is complete have been written. */
  ghost predicate AuthOk(t: Tree, leaf: nat, now: seq<Bytes>, was: seq<Bytes>, idx: nat, h: nat) {
    |now| == |was| &&
    forall j | 0 <= j < |now| ::
      now[j] == if Flip(Shr(leaf, j)) < Complete(idx, h, j) then Sibling(t, leaf, j) else was[j]
  }

  /** The low `h` bits of `idx` are ones: leaf `idx` is the last one below its ancestor at height `h`. */
  ghost predicate Ones(idx: nat, h: nat) {
    forall j | 0 <= j < h :: Shr(idx, j) % 2 == 1
  }

  lemma Start(t: Tree, stack: seq<Bytes>, leaf: nat, was: seq<Bytes>)
    ensures StackOk(t, stack, 0) && AuthOk(t, leaf, was, was, 0, 0)
  {
    forall j: nat ensures Shr(0, j) == 0 { ShrZero(j); }
  }

  lemma AuthStep(t: Tree, leaf: nat, now: seq<Bytes>, was: seq<Bytes>, idx: nat, h: nat)
    requires AuthOk(t, leaf, now, was, idx, h) && h < |now|
    ensures AuthOk(t, leaf, if Shr(idx, h) == Flip(Shr(leaf, h)) then now[h := Node(t, h, Shr(idx, h))] else now,
        was, idx, h + 1)
  {
  }

  lemma JoinStep(t: Tree, stack: seq<Bytes>, idx: nat, h: nat)
    requires StackOk(t, stack, idx) && h < |stack| && Shr(idx, h) % 2 == 1
    ensures t.join(h + 1, Shr(idx, h) / 2 + Shr(t.off, h) / 2, stack[h], Node(t, h, Shr(idx, h)))
        == Node(t, h + 1, Shr(idx, h) / 2)
  {
  }

  lemma Carries(idx: nat, next: nat, h: nat)
    requires next == idx + 1 && Ones(idx, h) && Shr(idx, h) % 2 == 0
    ensures forall j: nat :: Shr(next, j) == Complete(idx, h + 1, j)
  {
    forall j: nat ensures Shr(next, j) == Complete(idx, h + 1, j) { ShrCarry(idx, h, j); }
  }

  lemma Carry(t: Tree, stack: seq<Bytes>, leaf: nat, now: seq<Bytes>, was: seq<Bytes>, idx: nat, h: nat)
    requires StackOk(t, stack, idx) && AuthOk(t, leaf, now, was, idx, h + 1)
    requires Ones(idx, h) && Shr(idx, h) % 2 == 0 && h < |stack|
    ensures StackOk(t, stack[h := Node(t, h, Shr(idx, h))], idx + 1) && AuthOk(t, leaf, now, was, idx + 1, 0)
  {
    hide Shr, Flip, Node;
    Carries(idx, idx + 1, h);
  }

  lemma LastIsOnes(height: nat, h: nat)
    requires h < height
    ensures Shr(Pow2(height) - 1, h) % 2 == 1
  {
    ShrOnes(height - h, h);
  }

  /** Only the last leaf is combined all the way to the top. */
  lemma {:induction false} OnesIsLast(idx: nat, m: nat, h: nat)
    requires Ones(idx, m + h) && m + h > 0
    ensures Shr(idx, h) >= Pow2(m) - 1
    decreases m
  {
    if m > 0 {
      OnesIsLast(idx, m - 1, h + 1);
    }
  }

  lemma OnlyLastReachesTop(idx: nat, height: nat)
    requires Ones(idx, height) && 0 < height && idx < Pow2(height)
    ensures idx == Pow2(height) - 1 && Shr(idx, height) == 0
  {
    OnesIsLast(idx, height, 0);
    ShrBound(idx, 0, height);
  }

  lemma FlipBelowEven(x: nat, m: nat)
    ensures Flip(x) < 2 * m <==> x < 2 * m
  {
  }

  lemma SiblingInRange(leaf: nat, height: nat, j: nat)
    requires j < height
    ensures Flip(Shr(leaf, j)) < Complete(Pow2(height) - 1, height, j) <==> leaf < Pow2(height)
  {
    hide Shr, Flip;
    ShrOnes(height - j, j);
    ShrBound(leaf, height - j, j);
    FlipBelowEven(Shr(leaf, j), Pow2(height - j - 1));
  }

  /** When every leaf has been combined, the path of an in-range leaf is complete and no other is touched. */
  lemma Finish(t: Tree, leaf: nat, now: seq<Bytes>, was: seq<Bytes>, height: nat)
    requires |now| == height && AuthOk(t, leaf, now, was, Pow2(height) - 1, height)
    ensures now == if leaf < Pow2(height) then AuthPath(t, leaf, height) else was
  {
    forall j | 0 <= j < height
      ensures now[j] == if leaf < Pow2(height) then Sibling(t, leaf, j) else was[j]
    {
      SiblingInRange(leaf, height, j);
    }
  }

  // ---------- the methods ----------

  /** Two addresses name the same tree: they agree in all but height and index. */
  predicate SameTree(f: Adrs, base: Adrs) {
    f.(c := 0, w := 0) == base.(c := 0, w := 0)
  }

  /** Sets the height and index of the node being created, and hashes its children. */
  method HashPair(e: Engine, pub: Bytes, addr: Addr, ghost base: Adrs, h: nat, i: int, left: Bytes, right: Bytes)
      returns (node: Bytes)
    requires SameTree(addr.f, base)
    modifies addr
    ensures SameTree(addr.f, base)
    ensures node == Join(e, pub, base)(h, i, left, right)
  {
    addr.f := addr.f.SetHeight(h);
    addr.f := addr.f.SetIndex(i);
    assert addr.f == base.SetHeight(h).SetIndex(i);
    node := e.thash(pub, addr.f, [left, right]);
  }

  /** `left` and `right` are a node and its sibling in the order of the node's index `l`. */
  ghost predicate Sides(l: nat, below: Bytes, sibling: Bytes, left: Bytes, right: Bytes) {
    if l % 2 == 1 then left == sibling && right == below else left == below && right == sibling
  }

  lemma ClimbStep(join: (nat, int, Bytes, Bytes) -> Bytes, off: nat, leafIdx: nat, leaf: Bytes, path: seq<Bytes>,
      i: nat, left: Bytes, right: Bytes)
    requires i < |path| && Sides(Shr(leafIdx, i), Climb(join, off, leafIdx, leaf, path, i), path[i], left, right)
    ensures Climb(join, off, leafIdx, leaf, path, i + 1) == join(i + 1, Shr(leafIdx, i + 1) + Shr(off, i + 1), left,
        right)
    ensures Shr(leafIdx, i + 1) == Shr(leafIdx, i) / 2 && Shr(off, i + 1) == Shr(off, i) / 2
  {
  }

  lemma ClimbStart(join: (nat, int, Bytes, Bytes) -> Bytes, off: nat, leafIdx: nat, leaf: Bytes, path: seq<Bytes>)
    ensures Climb(join, off, leafIdx, leaf, path, 0) == leaf && Shr(leafIdx, 0) == leafIdx && Shr(off, 0) == off
  {
  }

  /** `compute_root`. */
  method ComputeRoot(e: Engine, pub: Bytes, leaf: Bytes, leafIdx: nat, idxOffset: nat, path: seq<Bytes>, height: nat,
      addr: Addr, ghost base: Adrs)
    returns (root: Bytes)
    requires 1 <= height <= |path| && SameTree(addr.f, base)
    modifies addr
    ensures SameTree(addr.f, base)
    ensures root == Climb(Join(e, pub, base), idxOffset, leafIdx, leaf, path, height)
  {
    hide SameTree, Join, Climb, Shr;
    ghost var join := Join(e, pub, base);
    var left, right, l: nat, o: nat := leaf, path[0], leafIdx, idxOffset;
    if l % 2 == 1 { left, right := path[0], leaf; }
    ClimbStart(join, idxOffset, leafIdx, leaf, path);
    var i := 0;
    while i < height - 1
      invariant 0 <= i <= height - 1
      invariant l == Shr(leafIdx, i) && o == Shr(idxOffset, i)
      invariant SameTree(addr.f, base)
      invariant Sides(l, Climb(join, idxOffset, leafIdx, leaf, path, i), path[i], left, right)
    {
      ClimbStep(join, idxOffset, leafIdx, leaf, path, i, left, right);
      l, o := l / 2, o / 2;
      var node := HashPair(e, pub, addr, base, i + 1, l + o, left, right);
      if l % 2 == 1 {
        left, right := path[i + 1], node;
      } else {
        left, right := node, path[i + 1];
      }
      i := i + 1;
    }
    ClimbStep(join, idxOffset, leafIdx, leaf, path, i, left, right);
    l, o := l / 2, o / 2;
    root := HashPair(e, pub, addr, base, height, l + o, left, right);
  }

  lemma OnesStep(idx: nat, h: nat)
    requires Ones(idx, h) && Shr(idx, h) % 2 == 1
    ensures Ones(idx, h + 1)
  {
  }

  /** The inner loop of `treehashx1`: combines leaf `idx` with the left neighbours on the stack. */
  method Combine(e: Engine, pub: Bytes, out: array<Bytes>, authOff: nat, leaf: nat, height: nat, idx: nat, node: Bytes,
                 stack: array<Bytes>, addr: Addr, off: nat, ghost base: Adrs, ghost t: Tree, ghost was: seq<Bytes>)
    returns (h: nat, current: Bytes)
    requires authOff + height <= out.Length && stack.Length == height && stack != out
    requires idx < Pow2(height) && node == Node(t, 0, idx)
    requires t.join == Join(e, pub, base) && t.off == off && SameTree(addr.f, base)
    requires StackOk(t, stack[..], idx) && AuthOk(t, leaf, out[authOff..authOff + height], was, idx, 0)
    modifies out, addr
    ensures SameTree(addr.f, base)
    ensures h <= height && current == Node(t, h, Shr(idx, h)) && Ones(idx, h)
    ensures h < height ==> Shr(idx, h) % 2 == 0 && idx < Pow2(height) - 1
    ensures AuthOk(t, leaf, out[authOff..authOff + height], was, idx, if h < height then h + 1 else h)
    ensures out[..authOff] == old(out[..authOff]) && out[authOff + height..] == old(out[authOff + height..])
  {
    hide StackOk, AuthOk, Flip, SameTree, Ones, Node;
    current := node;
    var k, l, o := idx, leaf, off;
    h := 0;
    assert Ones(idx, 0) by { OnesNone(idx); }
    while true
      invariant 0 <= h <= height
      invariant k == Shr(idx, h) && l == Shr(leaf, h) && o == Shr(off, h)
      invariant Ones(idx, h)
      invariant current == Node(t, h, k)
      invariant SameTree(addr.f, base)
      invariant AuthOk(t, leaf, out[authOff..authOff + height], was, idx, h)
      invariant out[..authOff] == old(out[..authOff]) && out[authOff + height..] == old(out[authOff + height..])
      decreases height - h
    {
      if h == height {
        return;
      }
      AuthStep(t, leaf, out[authOff..authOff + height], was, idx, h);
      if k == Flip(l) {
        out[authOff + h] := current;
      }
      if k % 2 == 0 && idx < Pow2(height) - 1 {
        return;
      }
      LastIsOnes(height, h);
      JoinStep(t, stack[..], idx, h);
      OnesStep(idx, h);
      o := o / 2;
      current := HashPair(e, pub, addr, base, h + 1, k / 2 + o, stack[h], current);
      h, k, l := h + 1, k / 2, l / 2;
    }
  }

  lemma OnesNone(idx: nat)
    ensures Ones(idx, 0)
  {
  }

  /** `treehashx1`. */
  method TreeHashX1(e: Engine, c: Ctx, out: array<Bytes>, authOff: nat, leaf: nat, off: nat, height: nat,
      info: LeafInfo, addr: Addr)
    returns (root: Bytes)
    requires height >= 1 && authOff + height <= out.Length
    requires info.Valid() && JobFits(e.p, info.job, authOff)
    requires addr != info.leafAddr && addr != info.pkAddr && SameTree(addr.f, Base(info.gen))
    modifies out, addr, info.leafAddr, info.pkAddr
    ensures info.Valid() && SameTree(addr.f, Base(info.gen))
    ensures root == Node(TreeOf(e, c, info.gen, off), height, 0)
    ensures out[..] == TreeHashOut(e, c, info.gen, info.job, off, leaf, height, authOff, old(out[..]))
  {
    hide StackOk, AuthOk, Flip, EmittedBelow, Emitted, Leaf, Base, SameTree, Ones, Shr, TreeOf, Join, Node, AuthPath,
      TreeHashOut, Pow2, JobFits;
    ghost var t := TreeOf(e, c, info.gen, off);
    ghost var was := out[authOff..authOff + height];
    ghost var base := Base(info.gen);
    var stack := new Bytes[height];
    var maxIdx := Pow2(height) - 1;
    var idx := 0;
    Start(t, stack[..], leaf, was);
    EmitStep(e, c, info.gen, info.job, off, 0, out[..authOff]);
    while true
      invariant 0 <= idx <= maxIdx
      invariant info.Valid() && SameTree(addr.f, base)
      invariant StackOk(t, stack[..], idx)
      invariant AuthOk(t, leaf, out[authOff..authOff + height], was, idx, 0)
      invariant out[..authOff] == EmittedBelow(e, c, info.gen, info.job, off, idx, old(out[..authOff]))
      invariant out[authOff + height..] == old(out[authOff + height..])
      decreases maxIdx - idx
    {
      ghost var mid := out[authOff..];
      assert mid[..height] == out[authOff..authOff + height];
      var node := GenLeaf(e, c, info, idx + off, out, authOff);
      EmitStep(e, c, info.gen, info.job, off, idx, old(out[..authOff]));
      LeafNode(e, c, info.gen, off, idx);
      assert out[authOff..authOff + height] == mid[..height] && out[authOff + height..] == mid[height..];
      var h, current := Combine(e, c.pub, out, authOff, leaf, height, idx, node, stack, addr, off, base, t, was);
      if h == height {
        OnlyLastReachesTop(idx, height);
        Finish(t, leaf, out[authOff..authOff + height], was, height);
        assert old(out[..])[..authOff] == old(out[..authOff]) && old(out[..])[authOff..authOff + height] == was;
        assert out[..][authOff..authOff + height] == out[authOff..authOff + height];
        TreeHashOutIs(e, c, info.gen, info.job, off, leaf, height, authOff, old(out[..]), out[..]);
        return current;
      }
      Carry(t, stack[..], leaf, out[authOff..authOff + height], was, idx, h);
      stack[h] := current;
      idx := idx + 1;
    }
  }

  lemma LeafNode(e: Engine, c: Ctx, g: Gen, off: nat, idx: nat)
    ensures Node(TreeOf(e, c, g, off), 0, idx) == Leaf(e, c, g, idx + off)
    ensures TreeOf(e, c, g, off).join == Join(e, c.pub, Base(g)) && TreeOf(e, c, g, off).off == off
  {
  }
}
