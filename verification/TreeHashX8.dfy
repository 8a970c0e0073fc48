/**
 utilsx8.c: TreeHash on logical nodes of eight consecutive tree nodes. In the top three levels
 only the right-most lanes of the logical node are meaningful; the others hash uninitialised
 stack rows under wrapped addresses and are never read back.
 */
module TreeHashX8 {
  import opened Bits
  import opened Address
  import opened Engine
  import opened Merkle
  import opened Spec
  import opened LeafGen
  import opened LeafGenX8
  import T1 = TreeHashX1

  /** The number of meaningful lanes at height `h` of the top of a tree, and where they start. */
  ghost function Adj(height: nat, h: nat): int
    requires h <= height
  {
    if h < height - 3 then 0 else 8 - Pow2(height - h)
  }

  /** What the logical node `row` holds at height `h`, being number `k` of its level. */
  ghost predicate RowOk(t: Tree, row: Row, height: nat, h: nat, k: nat)
    requires h <= height
  {
    if h < height - 3 then forall j | 0 <= j < 8 :: row[j] == Node(t, h, 8 * k + j)
    else forall j | 0 <= Adj(height, h) <= j < 8 :: row[j] == Node(t, h, j - Adj(height, h))
  }

  ghost predicate StackOk(t: Tree, stack: seq<Row>, height: nat, idx: nat)
    requires |stack| == height
  {
    forall h | 0 <= h < height - 3 && Shr(idx, h) % 2 == 1 :: RowOk(t, stack[h], height, h, Shr(idx, h) - 1)
  }

  /** Exactly the path entries whose logical node is complete have been written. */
  ghost predicate AuthOk(t: Tree, leaf: nat, now: seq<Bytes>, was: seq<Bytes>, idx: nat, h: nat) {
    |now| == |was| &&
    forall j | 0 <= j < |now| ::
      now[j] == if Shr(leaf, j) / 8 < T1.Complete(idx, h, j) then Sibling(t, leaf, j) else was[j]
  }

  /** The leaf indices the code can be given: a leaf of the tree, or one too far right for any lane. */
  ghost predicate LeafArg(leaf: nat, height: nat) {
    leaf < Pow2(height) || leaf >= Pow2(height + 2)
  }

  /** Left adjustment of the level above, as the code computes it. */
  lemma AdjStep(height: nat, h: nat)
    requires height - 3 <= h < height
    ensures Adj(height, h) == 8 - 2 * Pow2(height - h - 1) && Adj(height, h + 1) == 8 - Pow2(height - h - 1)
    ensures 0 <= Adj(height, h) && 4 <= Adj(height, h + 1) <= 7
  {
    SmallPowers();
    assert height - h in {1, 2, 3};
  }

  lemma Start(t: Tree, stack: seq<Row>, height: nat, leaf: nat, was: seq<Bytes>)
    requires |stack| == height
    ensures StackOk(t, stack, height, 0) && AuthOk(t, leaf, was, was, 0, 0)
  {
    forall j: nat ensures Shr(0, j) == 0 { ShrZero(j); }
  }

  lemma IdxAtTop(height: nat, idx: nat, h: nat)
    requires 3 <= height && idx < Pow2(height - 3) && height - 3 <= h
    ensures Shr(idx, h) == 0
  {
    Pow2Mono(height - 3, h);
    ShrBound(idx, 0, h);
  }

  lemma LeafAtTop(height: nat, leaf: nat, h: nat)
    requires 3 <= height && LeafArg(leaf, height) && height - 3 <= h < height && Shr(leaf, h) < 8
    ensures Shr(leaf, h) < Pow2(height - h)
  {
    ShrBound(leaf, height - h, h);
    ShrBound(leaf, height + 2 - h, h);
    Pow2Mono(3, height + 2 - h);
    SmallPowers();
  }

  /**
   The inner loop reaches level `h` for logical leaf `idx`: the last one climbs to the top, the
   others their trailing ones.
   */
  ghost predicate Visited(idx: nat, h: nat, height: nat)
    requires height >= 3
  {
    idx < Pow2(height - 3) && h < height && (idx == Pow2(height - 3) - 1 || T1.Ones(idx, h))
  }

  /** Every lane `treehashx8` copies into the path is one of the eight. */
  ghost predicate LanesExist(leaf: nat, height: nat)
    requires height >= 3
  {
    forall idx: nat, h: nat | Visited(idx, h, height) && Shr(idx, h) == Shr(leaf, h) / 8 ::
      0 <= Flip(Shr(leaf, h) % 8) + Adj(height, h) < 8
  }

  lemma LaneExists(leaf: nat, height: nat, idx: nat, h: nat)
    requires 3 <= height && h < height && LeafArg(leaf, height) && idx < Pow2(height - 3)
        && Shr(idx, h) == Shr(leaf, h) / 8
    ensures 0 <= Flip(Shr(leaf, h) % 8) + Adj(height, h) < 8
  {
    hide Shr, Flip, Pow2;
    var l := Shr(leaf, h);
    FlipInRow(l);
    if h >= height - 3 {
      AdjStep(height, h);
      IdxAtTop(height, idx, h);
      LeafAtTop(height, leaf, h);
      T1.FlipBelowEven(l, Pow2(height - h - 1));
      Pow2Double(height - h);
    }
  }

  /**
   `treehashx8` stays inside its buffers exactly for the leaves of the tree and for numbers at
   least four times as large. In between, at the level below the root, it would copy a lane
   that does not exist; `treehashx1` copies nothing for such a number.
   */
  lemma LeafArgExact(leaf: nat, height: nat)
    requires height >= 3
    ensures LanesExist(leaf, height) <==> LeafArg(leaf, height)
  {
    if LeafArg(leaf, height) {
      forall idx: nat, h: nat | Visited(idx, h, height) && Shr(idx, h) == Shr(leaf, h) / 8
        ensures 0 <= Flip(Shr(leaf, h) % 8) + Adj(height, h) < 8
      {
        LaneExists(leaf, height, idx, h);
      }
    } else {
      hide Shr;
      var last, h := Pow2(height - 3) - 1, height - 1;
      ShrBound(leaf, 1, h);
      ShrBound(leaf, 3, h);
      IdxAtTop(height, last, h);
      SmallPowers();
      AdjStep(height, h);
      assert Visited(last, h, height) && Shr(last, h) == Shr(leaf, h) / 8;
      assert !(0 <= Flip(Shr(leaf, h) % 8) + Adj(height, h) < 8);
    }
  }

  /** One input: leaf 8 of a tree of height 3 would read lane 9. */
  lemma LaneNine()
    ensures Visited(0, 2, 3) && Shr(0, 2) == Shr(8, 2) / 8 && Flip(Shr(8, 2) % 8) + Adj(3, 2) == 9
    ensures !LanesExist(8, 3)
  {
    SmallPowers();
    assert Shr(8, 1) == 4 && Shr(0, 1) == 0;
    assert Pow2(4) == 16 && Pow2(5) == 32;
    LeafArgExact(8, 3);
  }

  lemma FlipInRow(l: nat)
    ensures Flip(l % 8) < 8 && 8 * (l / 8) + Flip(l % 8) == Flip(l)
  {
    var q, r := l / 8, l % 8;
    assert l == 2 * (4 * q) + r;
    assert l % 2 == r % 2;
  }

  /** The lane the authentication path entry is taken from, when this logical node holds it. */
  lemma LaneIsSibling(t: Tree, row: Row, height: nat, leaf: nat, idx: nat, h: nat)
    requires 3 <= height && h < height && LeafArg(leaf, height) && idx < Pow2(height - 3)
    requires RowOk(t, row, height, h, Shr(idx, h)) && Shr(idx, h) == Shr(leaf, h) / 8
    ensures 0 <= Flip(Shr(leaf, h) % 8) + Adj(height, h) < 8
    ensures row[Flip(Shr(leaf, h) % 8) + Adj(height, h)] == Sibling(t, leaf, h)
  {
    hide Shr, Flip, Pow2, Node;
    var l := Shr(leaf, h);
    FlipInRow(l);
    if h >= height - 3 {
      AdjStep(height, h);
      IdxAtTop(height, idx, h);
      LeafAtTop(height, leaf, h);
      T1.FlipBelowEven(l, Pow2(height - h - 1));
      Pow2Double(height - h);
    }
  }

  lemma Pow2Double(n: nat)
    requires n > 0
    ensures Pow2(n) == 2 * Pow2(n - 1)
  {
  }

  lemma AuthStep(t: Tree, row: Row, height: nat, leaf: nat, now: seq<Bytes>, was: seq<Bytes>, idx: nat, h: nat)
    requires 3 <= height == |now| && h < height && LeafArg(leaf, height) && idx < Pow2(height - 3)
    requires RowOk(t, row, height, h, Shr(idx, h)) && AuthOk(t, leaf, now, was, idx, h)
    ensures Shr(idx, h) == Shr(leaf, h) / 8 ==> 0 <= Flip(Shr(leaf, h) % 8) + Adj(height, h) < 8
    ensures AuthOk(t, leaf, if Shr(idx, h) == Shr(leaf, h) / 8
        then now[h := row[Flip(Shr(leaf, h) % 8) + Adj(height, h)]] else now, was, idx, h + 1)
  {
    hide Shr, Flip, Pow2, Node, Adj, RowOk, Sibling;
    if Shr(idx, h) == Shr(leaf, h) / 8 {
      LaneIsSibling(t, row, height, leaf, idx, h);
    }
  }

  /** The index under which lane `j` of the next logical node is hashed. */
  function LaneIndex(k: nat, j: nat, leftAdj: int, off: nat): int {
    4 * (k - k % 2) + j - leftAdj + off
  }

  /** One lane of `thashx8`: lanes 0 to 3 hash the left logical node, lanes 4 to 7 the right one. */
  ghost function Lane(t: Tree, h: nat, k: nat, leftAdj: int, off: nat, left: Row, right: Row, j: nat): Bytes
    requires j < 8
  {
    var src := if j < 4 then left else right;
    t.join(h, LaneIndex(k, j, leftAdj, off), src[2 * (j % 4)], src[2 * (j % 4) + 1])
  }

  ghost predicate IsNext(t: Tree, h: nat, k: nat, leftAdj: int, left: Row, right: Row, next: Row) {
    forall j | 0 <= j < 8 :: next[j] == Lane(t, h, k, leftAdj, Shr(t.off, h), left, right, j)
  }

  /** A node is the hash of its two children. */
  lemma NodeOfChildren(t: Tree, h: nat, i: nat, left: Bytes, right: Bytes)
    requires left == Node(t, h, 2 * i) && right == Node(t, h, 2 * i + 1)
    ensures t.join(h + 1, i + Shr(t.off, h + 1), left, right) == Node(t, h + 1, i)
  {
  }

  /** Below the top three levels two logical nodes make the next one. */
  lemma RowStep(t: Tree, left: Row, right: Row, next: Row, height: nat, h: nat, k: nat)
    requires h < height - 3 && k % 2 == 1 && (h + 1 == height - 3 ==> k / 2 == 0)
    requires RowOk(t, left, height, h, k - 1) && RowOk(t, right, height, h, k)
    requires IsNext(t, h + 1, k, 0, left, right, next)
    ensures RowOk(t, next, height, h + 1, k / 2)
  {
    hide Shr, Node;
    var q := k / 2;
    forall j | 0 <= j < 8 ensures next[j] == Node(t, h + 1, 8 * q + j) {
      assert next[j] == Lane(t, h + 1, k, 0, Shr(t.off, h + 1), left, right, j);
      var src := if j < 4 then left else right;
      assert 2 * (8 * q + j) == 8 * (if j < 4 then k - 1 else k) + 2 * (j % 4);
      NodeOfChildren(t, h, 8 * q + j, src[2 * (j % 4)], src[2 * (j % 4) + 1]);
    }
    SmallPowers();
  }

  /** In the top three levels the meaningful lanes halve and move right; the garbage lanes never reach them. */
  lemma TopStep(t: Tree, left: Row, right: Row, next: Row, height: nat, h: nat)
    requires height - 3 <= h < height
    requires RowOk(t, right, height, h, 0)
    requires IsNext(t, h + 1, 0, Adj(height, h + 1), left, right, next)
    ensures RowOk(t, next, height, h + 1, 0)
  {
    hide Shr, Node;
    var adj := Adj(height, h + 1);
    AdjStep(height, h);
    forall j | adj <= j < 8 ensures next[j] == Node(t, h + 1, j - adj) {
      assert next[j] == Lane(t, h + 1, 0, adj, Shr(t.off, h + 1), left, right, j);
      NodeOfChildren(t, h, j - adj, right[2 * j - 8], right[2 * j - 7]);
    }
  }

  lemma CarryStack(t: Tree, stack: seq<Row>, row: Row, height: nat, idx: nat, h: nat)
    requires |stack| == height && h < height - 3 && StackOk(t, stack, height, idx)
    requires T1.Ones(idx, h) && Shr(idx, h) % 2 == 0 && RowOk(t, row, height, h, Shr(idx, h))
    ensures StackOk(t, stack[h := row], height, idx + 1)
  {
    hide RowOk, Shr;
    T1.Carries(idx, idx + 1, h);
  }

  lemma CarryAuth(t: Tree, leaf: nat, now: seq<Bytes>, was: seq<Bytes>, idx: nat, h: nat)
    requires AuthOk(t, leaf, now, was, idx, h + 1) && T1.Ones(idx, h) && Shr(idx, h) % 2 == 0
    ensures AuthOk(t, leaf, now, was, idx + 1, 0)
  {
    hide Shr, Sibling;
    T1.Carries(idx, idx + 1, h);
  }

  /** The path entry at level `j` is complete at the end exactly for a leaf of the tree. */
  lemma EntryInRange(leaf: nat, height: nat, j: nat)
    requires 3 <= height && j < height && LeafArg(leaf, height)
    ensures Shr(leaf, j) / 8 < T1.Complete(Pow2(height - 3) - 1, height, j) <==> leaf < Pow2(height)
  {
    hide Shr, Pow2;
    ShrBound(leaf, height - j, j);
    if j < height - 3 {
      ShrOnes(height - 3 - j, j);
      Pow2Add(height - 3 - j, 3);
      SmallPowers();
    } else {
      IdxAtTop(height, Pow2(height - 3) - 1, j);
      if Shr(leaf, j) < 8 { LeafAtTop(height, leaf, j); } else { Pow2Mono(height - j, 3); SmallPowers(); }
    }
  }

  lemma Finish(t: Tree, leaf: nat, now: seq<Bytes>, was: seq<Bytes>, height: nat)
    requires 3 <= height == |now| && LeafArg(leaf, height) && AuthOk(t, leaf, now, was, Pow2(height - 3) - 1, height)
    ensures now == if leaf < Pow2(height) then AuthPath(t, leaf, height) else was
  {
    forall j | 0 <= j < height
      ensures now[j] == if leaf < Pow2(height) then Sibling(t, leaf, j) else was[j]
    {
      EntryInRange(leaf, height, j);
    }
  }

  // ---------- the methods ----------

  ghost predicate SameTrees(adrs: seq<Adrs>, base: Adrs) {
    |adrs| == 8 && forall j | 0 <= j < 8 :: T1.SameTree(adrs[j], base)
  }

  /** The inputs of `thashx8`: adjacent nodes of the left logical node, then of the right one. */
  function Pairs(left: Row, right: Row): (r: seq<seq<Bytes>>)
    ensures |r| == 8
    ensures forall j | 0 <= j < 8 ::
        r[j] == var src := if j < 4 then left else right; [src[2 * (j % 4)], src[2 * (j % 4) + 1]]
  {
    [[left[0], left[1]], [left[2], left[3]], [left[4], left[5]], [left[6], left[7]],
     [right[0], right[1]], [right[2], right[3]], [right[4], right[5]], [right[6], right[7]]]
  }

  /** Addresses all eight lanes of the next logical node and hashes them with `thashx8`. */
  method HashRow(e: Engine, pub: Bytes, adrs: array<Adrs>, ghost base: Adrs, ghost t: Tree, h: nat, k: nat,
      leftAdj: int, off: nat, left: Row, right: Row)
    returns (next: Row)
    requires SameTrees(adrs[..], base) && t.join == Join(e, pub, base) && off == Shr(t.off, h)
    modifies adrs
    ensures SameTrees(adrs[..], base)
    ensures IsNext(t, h, k, leftAdj, left, right, next)
  {
    forall j | 0 <= j < 8 { adrs[j] := adrs[j].SetHeight(h).SetIndex(LaneIndex(k, j, leftAdj, off)); }
    forall j | 0 <= j < 8 ensures adrs[j] == base.SetHeight(h).SetIndex(LaneIndex(k, j, leftAdj, off)) {
      assert old(adrs[..])[j] == old(adrs[j]);
    }
    next := ThashX8(e, pub, adrs[..], Pairs(left, right));
  }

  lemma LastIsOnes(height: nat, h: nat)
    requires h < height - 3
    ensures Shr(Pow2(height - 3) - 1, h) % 2 == 1
  {
    T1.LastIsOnes(height - 3, h);
  }

  /** A logical node other than the last stops below the top three levels. */
  lemma OnlyLastReachesTop(idx: nat, height: nat)
    requires 3 <= height && T1.Ones(idx, height - 3) && idx < Pow2(height - 3)
    ensures idx == Pow2(height - 3) - 1 && 8 * (idx + 1) == Pow2(height)
  {
    Pow2Add(height - 3, 3);
    SmallPowers();
    if height > 3 { T1.OnlyLastReachesTop(idx, height - 3); }
  }

  /** One level of the inner loop, whichever part of the tree it is in. */
  lemma LevelStep(t: Tree, stack: seq<Row>, row: Row, next: Row, height: nat, idx: nat, h: nat, leftAdj: int)
    requires 3 <= height == |stack| && h < height && idx < Pow2(height - 3)
    requires h < height - 3 ==> Shr(idx, h) % 2 == 1
    requires StackOk(t, stack, height, idx) && RowOk(t, row, height, h, Shr(idx, h))
    requires leftAdj == if h < height - 3 then 0 else 8 - Pow2(height - h - 1)
    requires IsNext(t, h + 1, Shr(idx, h), leftAdj, stack[h], row, next)
    ensures RowOk(t, next, height, h + 1, Shr(idx, h) / 2)
    ensures leftAdj == Adj(height, h + 1)
  {
    hide RowOk, IsNext;
    if h < height - 3 {
      SmallPowers();
      if h + 1 == height - 3 { IdxAtTop(height, idx, h + 1); }
      RowStep(t, stack[h], row, next, height, h, Shr(idx, h));
    } else {
      AdjStep(height, h);
      IdxAtTop(height, idx, h);
      TopStep(t, stack[h], row, next, height, h);
    }
  }

  /** The inner loop of `treehashx8`. */
  method Combine(e: Engine, pub: Bytes, out: array<Bytes>, authOff: nat, leaf: nat, height: nat, idx: nat, node: Row,
                 stack: array<Row>, adrs: array<Adrs>, off: nat, ghost base: Adrs, ghost t: Tree, ghost was: seq<Bytes>)
    returns (h: nat, current: Row)
    requires 3 <= height && authOff + height <= out.Length && stack.Length == height && LeafArg(leaf, height)
    requires idx < Pow2(height - 3) && RowOk(t, node, height, 0, idx)
    requires t.join == Join(e, pub, base) && t.off == off && SameTrees(adrs[..], base)
    requires StackOk(t, stack[..], height, idx) && AuthOk(t, leaf, out[authOff..authOff + height], was, idx, 0)
    modifies out, adrs
    ensures SameTrees(adrs[..], base)
    ensures h <= height && RowOk(t, current, height, h, Shr(idx, h))
        && T1.Ones(idx, if h < height - 3 then h else height - 3)
    ensures h < height ==> Shr(idx, h) % 2 == 0 && idx < Pow2(height - 3) - 1
    ensures AuthOk(t, leaf, out[authOff..authOff + height], was, idx, if h < height then h + 1 else h)
    ensures out[..authOff] == old(out[..authOff]) && out[authOff + height..] == old(out[authOff + height..])
  {
    hide StackOk, AuthOk, Flip, SameTrees, RowOk, IsNext, T1.Ones;
    current := node;
    var k, l, o := idx, leaf, off;
    var leftAdj, prevLeftAdj := 0, 0;
    h := 0;
    T1.OnesNone(idx);
    SmallPowers();
    while true
      invariant 0 <= h <= height
      invariant k == Shr(idx, h) && l == Shr(leaf, h) && o == Shr(off, h)
      invariant T1.Ones(idx, if h < height - 3 then h else height - 3)
      invariant RowOk(t, current, height, h, k)
      invariant leftAdj == Adj(height, h) && (h <= height - 3 ==> prevLeftAdj == 0)
      invariant SameTrees(adrs[..], base)
      invariant AuthOk(t, leaf, out[authOff..authOff + height], was, idx, h)
      invariant out[..authOff] == old(out[..authOff]) && out[authOff + height..] == old(out[authOff + height..])
      decreases height - h
    {
      if h >= height - 3 {
        if h == height {
          return;
        }
        prevLeftAdj := leftAdj;
        leftAdj := 8 - Pow2(height - h - 1);
      }
      AuthStep(t, current, height, leaf, out[authOff..authOff + height], was, idx, h);
      if k == l / 8 {
        out[authOff + h] := current[Flip(l % 8) + prevLeftAdj];
      }
      if k % 2 == 0 && idx < Pow2(height - 3) - 1 {
        return;
      }
      if h < height - 3 { LastIsOnes(height, h); T1.OnesStep(idx, h); }
      o := o / 2;
      var next := HashRow(e, pub, adrs, base, t, h + 1, k, leftAdj, o, stack[h], current);
      LevelStep(t, stack[..], current, next, height, idx, h, leftAdj);
      current := next;
      h, k, l := h + 1, k / 2, l / 2;
    }
  }

  lemma LeafRow(e: Engine, c: Ctx, g: Gen, off: nat, row: Row, height: nat, idx: nat)
    requires 3 <= height && idx < Pow2(height - 3)
    requires forall j | 0 <= j < 8 :: row[j] == Leaf(e, c, g, 8 * idx + off + j)
    ensures RowOk(TreeOf(e, c, g, off), row, height, 0, idx)
    ensures TreeOf(e, c, g, off).join == Join(e, c.pub, Base(g)) && TreeOf(e, c, g, off).off == off
  {
    hide Leaf, Base;
    SmallPowers();
    var t := TreeOf(e, c, g, off);
    forall j | 0 <= j < 8 ensures row[j] == Node(t, 0, 8 * idx + j) {
      T1.LeafNode(e, c, g, off, 8 * idx + j);
    }
  }

  /**
   A buffer after `n` groups of eight leaves from `off` on: the signature written, if any, is
   that of the key pair `off % 8` places to the right of the one requested.
   */
  ghost function EmittedRows(e: Engine, c: Ctx, g: Gen, job: Job, off: nat, n: nat, was: seq<Bytes>): (r: seq<Bytes>)
    ensures |r| == |was|
  {
    if g.WotsGen? && job.Sign? && off / 8 <= job.leaf / 8 < off / 8 + n && job.off + |job.steps| <= |was|
    then Patch(was, job.off, WotsSig(e, c, g.layer, g.tree, job.leaf + off % 8, job.steps))
    else was
  }

  lemma EmitRow(e: Engine, c: Ctx, g: Gen, job: Job, off: nat, n: nat, was: seq<Bytes>)
    ensures EmittedRows(e, c, g, job, off, 0, was) == was
    ensures EmittedX8(e, c, g, job, 8 * n + off, EmittedRows(e, c, g, job, off, n, was))
         == EmittedRows(e, c, g, job, off, n + 1, was)
  {
    hide WotsSig;
    var idx := 8 * n + off;
    assert idx / 8 == n + off / 8;
    if job.Sign? && idx / 8 == job.leaf / 8 {
      assert idx + job.leaf % 8 == job.leaf + off % 8;
    }
  }

  lemma EmittedRowsPrefix(e: Engine, c: Ctx, g: Gen, job: Job, off: nat, n: nat, was: seq<Bytes>, at: nat)
    requires at <= |was| && JobFits(e.p, job, at)
    ensures EmittedRows(e, c, g, job, off, n, was) == EmittedRows(e, c, g, job, off, n, was[..at]) + was[at..]
  {
    hide WotsSig;
    assert was == was[..at] + was[at..];
  }

  /** From a multiple of eight on, the request itself is honoured. */
  lemma EmitAligned(e: Engine, c: Ctx, g: Gen, job: Job, off: nat, n: nat, was: seq<Bytes>)
    requires g.ForsGen? || job.NoJob? || off % 8 == 0
    ensures EmittedRows(e, c, g, job, off, n, was) == EmittedBelow(e, c, g, job, off, 8 * n, was)
  {
    hide WotsSig, Patch;
  }

  /** What `treehashx8` leaves in the buffer. */
  ghost function TreeHashOutX8(e: Engine, c: Ctx, g: Gen, job: Job, off: nat, leaf: nat, height: nat, at: nat,
      was: seq<Bytes>)
    : (r: seq<Bytes>)
    requires height >= 3 && at + height <= |was|
    ensures |r| == |was|
  {
    Patch(EmittedRows(e, c, g, job, off, Pow2(height - 3), was), at,
          if leaf < Pow2(height) then AuthPath(TreeOf(e, c, g, off), leaf, height) else was[at..at + height])
  }

  lemma TreeHashOutX8Is(e: Engine, c: Ctx, g: Gen, job: Job, off: nat, leaf: nat, height: nat, at: nat,
      was: seq<Bytes>, now: seq<Bytes>)
    requires height >= 3 && at + height <= |was| == |now| && JobFits(e.p, job, at)
    requires now[..at] == EmittedRows(e, c, g, job, off, Pow2(height - 3), was[..at])
    requires now[at..at + height]
          == if leaf < Pow2(height) then AuthPath(TreeOf(e, c, g, off), leaf, height) else was[at..at + height]
    requires now[at + height..] == was[at + height..]
    ensures now == TreeHashOutX8(e, c, g, job, off, leaf, height, at, was)
  {
    hide EmittedRows, AuthPath, TreeOf, Pow2, Patch;
    EmittedRowsPrefix(e, c, g, job, off, Pow2(height - 3), was, at);
    PutTogether(EmittedRows(e, c, g, job, off, Pow2(height - 3), was), was, now, at, height);
  }

  /** The two TreeHash machines leave the same buffer. */
  lemma SameOut(e: Engine, c: Ctx, g: Gen, job: Job, off: nat, leaf: nat, height: nat, at: nat, was: seq<Bytes>)
    requires height >= 3 && at + height <= |was| && (g.ForsGen? || job.NoJob? || off % 8 == 0)
    ensures TreeHashOutX8(e, c, g, job, off, leaf, height, at, was) == TreeHashOut(e, c, g, job, off, leaf, height,
        at, was)
  {
    hide EmittedRows, EmittedBelow, AuthPath, TreeOf, Patch;
    EmitAligned(e, c, g, job, off, Pow2(height - 3), was);
    Pow2Add(height - 3, 3);
    SmallPowers();
  }

  lemma RootLane(t: Tree, row: Row, height: nat)
    requires RowOk(t, row, height, height, 0)
    ensures row[7] == Node(t, height, 0)
  {
    assert Adj(height, height) == 7;
  }

  /**
   `treehashx8`, on any tree of height three or more and at any offset: the root and the path of
   `treehashx1`, and the signature of `treehashx1` unless a WOTS signature is asked of a tree
   whose offset is no multiple of eight.
   */
  method TreeHashX8(e: Engine, c: Ctx, out: array<Bytes>, authOff: nat, leaf: nat, off: nat, height: nat,
      info: LeafInfoX8, adrs: array<Adrs>)
    returns (root: Bytes)
    requires height >= 3 && authOff + height <= out.Length && LeafArg(leaf, height)
    requires info.Valid() && JobFits(e.p, info.job, authOff)
    requires adrs != info.leafAddr && adrs != info.pkAddr && SameTrees(adrs[..], Base(info.gen))
    modifies out, adrs, info.leafAddr, info.pkAddr
    ensures info.Valid() && SameTrees(adrs[..], Base(info.gen))
    ensures root == Node(TreeOf(e, c, info.gen, off), height, 0)
    ensures out[..] == TreeHashOutX8(e, c, info.gen, info.job, off, leaf, height, authOff, old(out[..]))
    ensures info.gen.ForsGen? || info.job.NoJob? || off % 8 == 0 ==>
      out[..] == TreeHashOut(e, c, info.gen, info.job, off, leaf, height, authOff, old(out[..]))
  {
    hide TreeHashOutX8, EmittedRows, EmittedX8, StackOk, AuthOk, EmittedBelow, Leaf, Base, SameTrees, T1.Ones, Shr,
      TreeOf, Join, Node, AuthPath, TreeHashOut, RowOk, LeafArg, Pow2, JobFits;
    ghost var t := TreeOf(e, c, info.gen, off);
    ghost var was := out[authOff..authOff + height];
    ghost var base := Base(info.gen);
    var stack := new Row[height];
    var maxIdx := Pow2(height - 3) - 1;
    var idx := 0;
    Start(t, stack[..], height, leaf, was);
    EmitRow(e, c, info.gen, info.job, off, 0, out[..authOff]);
    while true
      invariant 0 <= idx <= maxIdx
      invariant info.Valid() && SameTrees(adrs[..], base)
      invariant StackOk(t, stack[..], height, idx)
      invariant AuthOk(t, leaf, out[authOff..authOff + height], was, idx, 0)
      invariant out[..authOff] == EmittedRows(e, c, info.gen, info.job, off, idx, old(out[..authOff]))
      invariant out[authOff + height..] == old(out[authOff + height..])
      decreases maxIdx - idx
    {
      ghost var mid := out[authOff..];
      assert mid[..height] == out[authOff..authOff + height];
      var node := GenLeafX8(e, c, info, 8 * idx + off, out, authOff);
      EmitRow(e, c, info.gen, info.job, off, idx, old(out[..authOff]));
      LeafRow(e, c, info.gen, off, node, height, idx);
      assert out[authOff..authOff + height] == mid[..height] && out[authOff + height..] == mid[height..];
      var h, current := Combine(e, c.pub, out, authOff, leaf, height, idx, node, stack, adrs, off, base, t, was);
      if h == height {
        OnlyLastReachesTop(idx, height);
        Finish(t, leaf, out[authOff..authOff + height], was, height);
        assert old(out[..])[..authOff] == old(out[..authOff]) && old(out[..])[authOff..authOff + height] == was;
        assert out[..][authOff..authOff + height] == out[authOff..authOff + height];
        TreeHashOutX8Is(e, c, info.gen, info.job, off, leaf, height, authOff, old(out[..]), out[..]);
        if info.gen.ForsGen? || info.job.NoJob? || off % 8 == 0 {
          SameOut(e, c, info.gen, info.job, off, leaf, height, authOff, old(out[..]));
        }
        IdxAtTop(height, idx, height);
        RootLane(t, current, height);
        return current[7];
      }
      if h >= height - 3 { OnlyLastReachesTop(idx, height); }
      CarryStack(t, stack[..], current, height, idx, h);
      CarryAuth(t, leaf, out[authOff..authOff + height], was, idx, h);
      stack[h] := current;
      idx := idx + 1;
    }
  }
}
