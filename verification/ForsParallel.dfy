/**
 fors.c, `fors_sign` on the scalar path: the trees are shared out over worker threads, a
 thread may fail to start, and the calling thread signs what was not handed out. The program
 is a state machine whose actions are taken in any order; a store of one block is one action.
 */
module ForsParallel {
  import opened Bits
  import opened Engine
  import opened Address
  import opened Spec
  import F = Fors

  /**
   The blocks of tree `x`: `width` of them (secret value, path, root), the right value of block `p`
   being `val(x, p)`.
   */
  datatype Forest = Forest(trees: nat, width: nat, val: (nat, nat) -> Bytes)

  type Block = (nat, nat)

  /** A thread signing trees `begin .. end`: it is at tree `i`, whose blocks `left` are still to be stored. */
  datatype Task = Task(begin: nat, end: nat, i: nat, left: set<nat>) {
    predicate Finished() { i >= end }
  }

  /** Where the calling thread is. */
  datatype Main = Spawning | Joining(t: nat) | Looping | Done

  datatype State = State(workers: nat, main: Main, start: nat, failed: bool, tasks: seq<Task>, own: Task,
                         mem: map<Block, Bytes>, written: set<Block>)

  datatype Action =
    | Store(k: nat, p: nat)   // worker k stores block p of its tree
    | Advance(k: nat)         // worker k moves to its next tree
    | Spawn                   // pthread_create succeeds
    | SpawnFails              // pthread_create fails
    | AllSpawned
    | Join                    // pthread_join returns
    | AllJoined
    | OwnStore(p: nat)        // the fallback loop of the caller
    | OwnAdvance
    | OwnDone

  /** The block numbers below `n`. */
  function Below(n: nat): (r: set<nat>)
    ensures forall p: nat :: p in r <==> p < n
  {
    if n == 0 then {} else Below(n - 1) + {n - 1}
  }

  function Blocks(f: Forest): set<nat> { Below(f.width) }

  function NewTask(f: Forest, begin: nat, end: nat): Task { Task(begin, end, begin, Blocks(f)) }

  /** `fors_sign` on entry: with one worker no thread is started. */
  predicate Init(f: Forest, s: State) {
    && s.workers >= 1 && s.start == 0 && !s.failed && s.tasks == [] && s.written == {}
    && s.own == NewTask(f, 0, f.trees)
    && s.main == if s.workers > 1 then Spawning else Looping
  }

  /** The ceiling share of the trees that are left for the next worker. */
  function Share(trees: nat, start: nat, workers: nat, t: nat): nat
    requires start <= trees && t < workers
  {
    (trees - start + (workers - t) - 1) / (workers - t)
  }

  predicate Enabled(f: Forest, s: State, a: Action) {
    match a
    case Store(k, p) => k < |s.tasks| && !s.tasks[k].Finished() && p in s.tasks[k].left
    case Advance(k) => k < |s.tasks| && !s.tasks[k].Finished() && s.tasks[k].left == {}
    case Spawn => s.main == Spawning && |s.tasks| < s.workers && s.start <= f.trees
    case SpawnFails => s.main == Spawning && |s.tasks| < s.workers && s.start <= f.trees
    case AllSpawned => s.main == Spawning && |s.tasks| == s.workers
    case Join => s.main.Joining? && s.main.t < |s.tasks| && s.tasks[s.main.t].Finished()
    case AllJoined => s.main.Joining? && s.main.t == |s.tasks|
    case OwnStore(p) => s.main == Looping && !s.own.Finished() && p in s.own.left
    case OwnAdvance => s.main == Looping && !s.own.Finished() && s.own.left == {}
    case OwnDone => s.main == Looping && s.own.Finished()
  }

  function Stored(f: Forest, s: State, x: nat, p: nat): State {
    s.(mem := s.mem[(x, p) := f.val(x, p)], written := s.written + {(x, p)})
  }

  function Next(f: Forest, s: State, a: Action): State
    requires Enabled(f, s, a)
  {
    match a
    case Store(k, p) =>
      var t := s.tasks[k];
      Stored(f, s, t.i, p).(tasks := s.tasks[k := t.(left := t.left - {p})])
    case Advance(k) =>
      var t := s.tasks[k];
      s.(tasks := s.tasks[k := t.(i := t.i + 1, left := Blocks(f))])
    case Spawn =>
      var end := s.start + Share(f.trees, s.start, s.workers, |s.tasks|);
      s.(tasks := s.tasks + [NewTask(f, s.start, end)], start := end)
    case SpawnFails => s.(main := Joining(0), failed := true)
    case AllSpawned => s.(main := Joining(0))
    case Join => s.(main := Joining(s.main.t + 1))
    case AllJoined =>
      if !s.failed && s.start == f.trees then s.(main := Done)
      else s.(main := Looping, own := NewTask(f, s.start, f.trees))
    case OwnStore(p) => Stored(f, s, s.own.i, p).(own := s.own.(left := s.own.left - {p}))
    case OwnAdvance => s.(own := s.own.(i := s.own.i + 1, left := Blocks(f)))
    case OwnDone => s.(main := Done)
  }

  // ---------- the invariant ----------

  /** Of the trees of a task, exactly what it has passed is written. */
  ghost predicate TaskOk(f: Forest, written: set<Block>, t: Task) {
    && t.begin <= t.i <= t.end <= f.trees && t.left <= Blocks(f)
    && forall x: nat, p: nat | t.begin <= x < t.end && p < f.width ::
      (x, p) in written <==> (x < t.i || (x == t.i && p !in t.left))
  }

  /** The tasks tile `0 .. start`: each begins where the one before ends. */
  ghost predicate Tiles(tasks: seq<Task>, start: nat) {
    && (forall k | 0 <= k < |tasks| :: tasks[k].begin == EndBefore(tasks, k))
    && start == EndBefore(tasks, |tasks|)
  }

  ghost function EndBefore(tasks: seq<Task>, k: nat): nat
    requires k <= |tasks|
  {
    if k == 0 then 0 else tasks[k - 1].end
  }

  lemma TilesUpdate(tasks: seq<Task>, start: nat, k: nat, t: Task)
    requires Tiles(tasks, start) && k < |tasks| && t.begin == tasks[k].begin && t.end == tasks[k].end
    ensures Tiles(tasks[k := t], start)
  {
    var now := tasks[k := t];
    forall j | 0 <= j < |now| ensures now[j].begin == EndBefore(now, j) {
      assert tasks[j].begin == EndBefore(tasks, j);
    }
  }

  lemma TilesAppend(tasks: seq<Task>, start: nat, t: Task)
    requires Tiles(tasks, start) && t.begin == start
    ensures Tiles(tasks + [t], t.end)
  {
    var now := tasks + [t];
    forall j | 0 <= j < |now| ensures now[j].begin == EndBefore(now, j) {
      if j < |tasks| { assert tasks[j].begin == EndBefore(tasks, j); }
    }
  }

  ghost predicate MemOk(f: Forest, s: State) {
    forall b | b in s.written :: b in s.mem && b.0 < f.trees && b.1 < f.width && s.mem[b] == f.val(b.0, b.1)
  }

  ghost predicate Unassigned(f: Forest, s: State) {
    forall x: nat, p: nat | s.start <= x :: (x, p) !in s.written
  }

  ghost predicate Inv(f: Forest, s: State) {
    && s.workers >= 1 && s.start <= f.trees && |s.tasks| <= s.workers
    && Tiles(s.tasks, s.start)
    && (forall k | 0 <= k < |s.tasks| ::
          TaskOk(f, s.written, s.tasks[k]) && s.tasks[k].begin <= s.tasks[k].end <= s.start)
    && MemOk(f, s)
    && (s.main == Spawning ==> !s.failed && (|s.tasks| == s.workers ==> s.start == f.trees))
    && (!(s.main == Looping || s.main == Done) ==> Unassigned(f, s))
    && (s.main.Joining? ==> s.main.t <= |s.tasks| && (forall k | 0 <= k < s.main.t :: s.tasks[k].Finished())
                            && (!s.failed ==> s.start == f.trees))
    && (s.main == Looping || s.main == Done ==> forall k | 0 <= k < |s.tasks| :: s.tasks[k].Finished())
    && (s.main == Looping ==> s.own.begin == s.start && s.own.end == f.trees && TaskOk(f, s.written, s.own))
    && (s.main == Done ==> AllWritten(f, s))
  }

  ghost predicate AllWritten(f: Forest, s: State) {
    forall x: nat, p: nat | x < f.trees && p < f.width :: (x, p) in s.written
  }

  lemma InitInv(f: Forest, s: State)
    requires Init(f, s)
    ensures Inv(f, s)
  {
  }

  /** The ceiling shares never overrun, and the last worker's share is everything that is left. */
  lemma ShareFits(trees: nat, start: nat, workers: nat, t: nat)
    requires start <= trees && t < workers
    ensures start + Share(trees, start, workers, t) <= trees
    ensures t + 1 == workers ==> start + Share(trees, start, workers, t) == trees
  {
    var r, w := trees - start, workers - t;
    if w == 1 {
      assert (r + 1 - 1) / 1 == r;
    } else if r == 0 {
      DivModUnique(w - 1, w, 0, w - 1);
    } else {
      MulGe2(w, r);
      DivLe(r + w - 1, w, r);
    }
  }

  lemma MulGe2(w: nat, r: nat)
    requires w >= 1 && r >= 1
    ensures w * r >= w + r - 1
  {
    assert (w - 1) * (r - 1) >= 0;
  }

  lemma MulCancel(w: nat, q: nat, r: nat)
    requires w >= 1 && w * q <= w * r
    ensures q <= r
  {
    if q > r { MulGe(w, q - r); }
  }

  lemma DivLe(x: nat, w: nat, r: nat)
    requires w >= 1 && x <= w * r
    ensures x / w <= r
  {
    assert x == w * (x / w) + x % w;
    MulCancel(w, x / w, r);
  }

  /** Storing one more block of the tree a task is at keeps that task's account right ... */
  lemma StoreOwn(f: Forest, written: set<Block>, t: Task, p: nat)
    requires TaskOk(f, written, t) && !t.Finished() && p in t.left
    ensures (t.i, p) !in written && t.i < f.trees && p < f.width
    ensures TaskOk(f, written + {(t.i, p)}, t.(left := t.left - {p}))
  {
  }

  /** ... and does not touch the account of a task with other trees. */
  lemma StoreOther(f: Forest, written: set<Block>, t: Task, x: nat, p: nat)
    requires TaskOk(f, written, t) && !(t.begin <= x < t.end)
    ensures TaskOk(f, written + {(x, p)}, t)
  {
  }

  lemma AdvanceOk(f: Forest, written: set<Block>, t: Task)
    requires TaskOk(f, written, t) && !t.Finished() && t.left == {}
    ensures TaskOk(f, written, t.(i := t.i + 1, left := Blocks(f)))
  {
  }

  /** Tiles of different tasks are disjoint. */
  lemma {:induction false} TilesOrdered(tasks: seq<Task>, start: nat, j: nat, k: nat)
    requires Tiles(tasks, start) && j < k < |tasks| && (forall i | 0 <= i < |tasks| :: tasks[i].begin <= tasks[i].end)
    ensures tasks[j].end <= tasks[k].begin
  {
    if j + 1 < k { TilesOrdered(tasks, start, j, k - 1); }
  }

  /** Every tree below `start` belongs to a task. */
  lemma {:induction false} TileOf(tasks: seq<Task>, n: nat, start: nat, x: nat) returns (k: nat)
    requires n <= |tasks| && Tiles(tasks, start) && x < (if n == 0 then 0 else tasks[n - 1].end)
    ensures k < n && tasks[k].begin <= x < tasks[k].end
  {
    if tasks[n - 1].begin <= x {
      k := n - 1;
    } else {
      k := TileOf(tasks, n - 1, start, x);
    }
  }

  ghost predicate TasksOk(f: Forest, written: set<Block>, tasks: seq<Task>, start: nat) {
    forall k | 0 <= k < |tasks| :: TaskOk(f, written, tasks[k]) && tasks[k].begin <= tasks[k].end <= start
  }

  lemma StoreTasks(f: Forest, s: State, k: nat, p: nat)
    requires Inv(f, s) && Enabled(f, s, Store(k, p))
    ensures var t := s.tasks[k]; (t.i, p) !in s.written && t.i < f.trees && p < f.width && t.i < s.start
    ensures var s' := Next(f, s, Store(k, p)); TasksOk(f, s'.written, s'.tasks, s.start) && Tiles(s'.tasks, s.start)
  {
    var t, s' := s.tasks[k], Next(f, s, Store(k, p));
    StoreOwn(f, s.written, t, p);
    TilesUpdate(s.tasks, s.start, k, s'.tasks[k]);
    forall j | 0 <= j < |s.tasks| ensures TaskOk(f, s'.written, s'.tasks[j]) {
      if j != k {
        if j < k { TilesOrdered(s.tasks, s.start, j, k); } else { TilesOrdered(s.tasks, s.start, k, j); }
        StoreOther(f, s.written, s.tasks[j], t.i, p);
      }
    }
  }

  lemma StoreInv(f: Forest, s: State, k: nat, p: nat)
    requires Inv(f, s) && Enabled(f, s, Store(k, p))
    ensures Inv(f, Next(f, s, Store(k, p)))
  {
    hide TaskOk, Tiles;
    StoreTasks(f, s, k, p);
  }

  lemma AdvanceInv(f: Forest, s: State, k: nat)
    requires Inv(f, s) && Enabled(f, s, Advance(k))
    ensures Inv(f, Next(f, s, Advance(k)))
  {
    hide TaskOk, Tiles;
    AdvanceOk(f, s.written, s.tasks[k]);
    TilesUpdate(s.tasks, s.start, k, Next(f, s, Advance(k)).tasks[k]);
  }

  lemma NewTaskOk(f: Forest, s: State, end: nat)
    requires Unassigned(f, s) && s.start <= end <= f.trees
    ensures TaskOk(f, s.written, NewTask(f, s.start, end))
  {
  }

  lemma SpawnInv(f: Forest, s: State)
    requires Inv(f, s) && Enabled(f, s, Spawn)
    ensures Inv(f, Next(f, s, Spawn))
  {
    hide TaskOk, Tiles, Share;
    ShareFits(f.trees, s.start, s.workers, |s.tasks|);
    var s' := Next(f, s, Spawn);
    NewTaskOk(f, s, s'.start);
    TilesAppend(s.tasks, s.start, NewTask(f, s.start, s'.start));
  }

  lemma TaskRange(f: Forest, written: set<Block>, t: Task)
    requires TaskOk(f, written, t)
    ensures t.begin <= t.i <= t.end <= f.trees && t.left <= Blocks(f)
  {
  }

  lemma OwnInv(f: Forest, s: State, a: Action)
    requires Inv(f, s) && Enabled(f, s, a) && (a.OwnStore? || a.OwnAdvance?)
    ensures Inv(f, Next(f, s, a))
    ensures a.OwnStore? ==> (s.own.i, a.p) !in s.written && s.own.i < f.trees && a.p < f.width
  {
    hide TaskOk, Tiles;
    assert a.OwnStore? ==> s.own.begin <= s.own.i < s.own.end <= f.trees by { TaskRange(f, s.written, s.own); }
    var s' := Next(f, s, a);
    if a.OwnStore? {
      StoreOwn(f, s.written, s.own, a.p);
      forall k | 0 <= k < |s.tasks| ensures TaskOk(f, s'.written, s.tasks[k]) {
        StoreOther(f, s.written, s.tasks[k], s.own.i, a.p);
      }
    } else {
      AdvanceOk(f, s.written, s.own);
    }
  }

  /** When all threads have been joined and nothing is left over, every block is stored. */
  lemma Everything(f: Forest, s: State, own: Task)
    requires Tiles(s.tasks, s.start) && TasksOk(f, s.written, s.tasks, s.start)
        && (forall k | 0 <= k < |s.tasks| :: s.tasks[k].Finished())
    requires s.start == f.trees || (own.begin == s.start && own.end == f.trees && TaskOk(f, s.written, own)
        && own.Finished())
    ensures AllWritten(f, s)
  {
    forall x: nat, p: nat | x < f.trees && p < f.width ensures (x, p) in s.written {
      if x < s.start {
        var k := TileOf(s.tasks, |s.tasks|, s.start, x);
        assert TaskOk(f, s.written, s.tasks[k]) && s.tasks[k].Finished();
      }
    }
  }

  lemma MainInv(f: Forest, s: State, a: Action)
    requires Inv(f, s) && Enabled(f, s, a) && !(a.Store? || a.Advance? || a.Spawn? || a.OwnStore? || a.OwnAdvance?)
    ensures Inv(f, Next(f, s, a))
  {
    hide TaskOk, Tiles;
    if a.OwnDone? || (a.AllJoined? && !s.failed) {
      Everything(f, s, s.own);
    } else if a.AllJoined? {
      NewTaskOk(f, s, f.trees);
    }
  }

  /** Every action of every thread keeps the invariant. */
  lemma NextInv(f: Forest, s: State, a: Action)
    requires Inv(f, s) && Enabled(f, s, a)
    ensures Inv(f, Next(f, s, a))
  {
    hide Inv, Next;
    match a
    case Store(k, p) => StoreInv(f, s, k, p);
    case Advance(k) => AdvanceInv(f, s, k);
    case Spawn => SpawnInv(f, s);
    case OwnStore(p) => OwnInv(f, s, a);
    case OwnAdvance => OwnInv(f, s, a);
    case _ => MainInv(f, s, a);
  }

  // ---------- runs ----------

  /** The actions `acts`, taken in order from `s`, are all enabled and lead to `s'`. */
  ghost predicate Run(f: Forest, s: State, acts: seq<Action>, s': State)
    decreases |acts|
  {
    if acts == [] then s' == s
    else Enabled(f, s, acts[0]) && Run(f, Next(f, s, acts[0]), acts[1..], s')
  }

  lemma {:induction false} RunInv(f: Forest, s: State, acts: seq<Action>, s': State)
    requires Inv(f, s) && Run(f, s, acts, s')
    ensures Inv(f, s')
    decreases |acts|
  {
    hide Inv, Next;
    if acts != [] {
      NextInv(f, s, acts[0]);
      RunInv(f, Next(f, s, acts[0]), acts[1..], s');
    }
  }

  /**
   Every schedule of every number of workers, whichever thread creation fails and when, that
   lets `fors_sign` finish leaves every block with the value the sequential loop stores.
   */
  lemma EveryScheduleSigns(f: Forest, s: State, acts: seq<Action>, s': State)
    requires Init(f, s) && Run(f, s, acts, s') && s'.main == Done
    ensures forall x: nat, p: nat | x < f.trees && p < f.width :: (x, p) in s'.mem && s'.mem[(x, p)] == f.val(x, p)
  {
    InitInv(f, s);
    RunInv(f, s, acts, s');
    forall x: nat, p: nat | x < f.trees && p < f.width ensures (x, p) in s'.mem && s'.mem[(x, p)] == f.val(x, p) {
      assert (x, p) in s'.written;
    }
  }

  /** No block is stored twice, so no two threads ever store to the same place. */
  lemma StoresAreDisjoint(f: Forest, s: State, acts: seq<Action>, s': State, a: Action)
    requires Init(f, s) && Run(f, s, acts, s') && Enabled(f, s', a)
    ensures a.Store? ==> (s'.tasks[a.k].i, a.p) !in s'.written
    ensures a.OwnStore? ==> (s'.own.i, a.p) !in s'.written
  {
    hide Next;
    InitInv(f, s);
    RunInv(f, s, acts, s');
    if a.Store? { StoreTasks(f, s', a.k, a.p); }
    if a.OwnStore? { OwnInv(f, s', a); }
  }

  /** If every thread starts, the shares cover all trees and the fallback loop is never entered. */
  lemma NoFailureNoFallback(f: Forest, s: State, acts: seq<Action>, s': State)
    requires Init(f, s) && Run(f, s, acts, s') && Enabled(f, s', AllJoined) && !s'.failed
    ensures s'.start == f.trees && Next(f, s', AllJoined).main == Done
  {
    InitInv(f, s);
    RunInv(f, s, acts, s');
  }

  /** No deadlock: until `fors_sign` is done, some thread can act. */
  lemma Progress(f: Forest, s: State) returns (a: Action)
    requires Inv(f, s) && s.main != Done
    ensures Enabled(f, s, a)
  {
    match s.main
    case Spawning => a := if |s.tasks| < s.workers then Spawn else AllSpawned;
    case Joining(t) =>
      if t == |s.tasks| {
        a := AllJoined;
      } else if s.tasks[t].Finished() {
        a := Join;
      } else if s.tasks[t].left == {} {
        a := Advance(t);
      } else {
        var p :| p in s.tasks[t].left;
        a := Store(t, p);
      }
    case Looping =>
      if s.own.Finished() {
        a := OwnDone;
      } else if s.own.left == {} {
        a := OwnAdvance;
      } else {
        var p :| p in s.own.left;
        a := OwnStore(p);
      }
  }

  // ---------- termination ----------

  /** The actions `n` whole trees take: a store per block, and an advance. */
  ghost function Cost(f: Forest, n: nat): nat { n * (f.width + 1) }

  lemma CostAdd(f: Forest, m: nat, n: nat)
    ensures Cost(f, m + n) == Cost(f, m) + Cost(f, n) && Cost(f, 0) == 0 && Cost(f, 1) == f.width + 1
  {
    assert (m + n) * (f.width + 1) == m * (f.width + 1) + n * (f.width + 1);
  }

  /** The actions a task still has to take. */
  ghost function Work(f: Forest, t: Task): nat {
    if t.Finished() then 0 else Cost(f, t.end - t.i - 1) + |t.left| + 1
  }

  ghost function TotalWork(f: Forest, tasks: seq<Task>): nat {
    if tasks == [] then 0 else TotalWork(f, tasks[..|tasks| - 1]) + Work(f, tasks[|tasks| - 1])
  }

  lemma {:induction false} TotalWorkUpdate(f: Forest, tasks: seq<Task>, k: nat, t: Task)
    requires k < |tasks|
    ensures TotalWork(f, tasks[k := t]) == TotalWork(f, tasks) - Work(f, tasks[k]) + Work(f, t)
  {
    hide Work;
    var n := |tasks| - 1;
    if k < n {
      TotalWorkUpdate(f, tasks[..n], k, t);
      assert tasks[k := t][..n] == tasks[..n][k := t];
    } else {
      assert tasks[k := t][..n] == tasks[..n];
    }
  }

  lemma {:induction false} BelowSize(n: nat)
    ensures |Below(n)| == n
  {
    if n > 0 { BelowSize(n - 1); }
  }

  lemma WorkOfNew(f: Forest, begin: nat, end: nat)
    requires begin <= end
    ensures Work(f, NewTask(f, begin, end)) == Cost(f, end - begin)
  {
    hide Cost;
    BelowSize(f.width);
    CostAdd(f, if begin < end then end - begin - 1 else 0, 1);
  }

  lemma WorkSteps(f: Forest, t: Task, p: nat)
    requires !t.Finished()
    ensures p in t.left ==> Work(f, t.(left := t.left - {p})) == Work(f, t) - 1
    ensures t.left == {} ==> Work(f, t.(i := t.i + 1, left := Blocks(f))) == Work(f, t) - 1
  {
    hide Cost;
    BelowSize(f.width);
    CostAdd(f, if t.i + 1 < t.end then t.end - t.i - 2 else 0, 1);
  }

  /** A bound on the number of actions left, whoever takes them. */
  ghost function Rank(f: Forest, s: State): int {
    var w := TotalWork(f, s.tasks);
    match s.main
    case Spawning => w + Cost(f, if s.start <= f.trees then f.trees - s.start else 0) + 2 * (s.workers - |s.tasks|)
      + |s.tasks| + 3
    case Joining(t) => w + Cost(f, if s.start <= f.trees then f.trees - s.start else 0) + (|s.tasks| - t) + 2
    case Looping => w + Work(f, s.own) + 1
    case Done => w
  }

  lemma SpawnRank(f: Forest, s: State)
    requires Inv(f, s) && Enabled(f, s, Spawn)
    ensures Rank(f, Next(f, s, Spawn)) < Rank(f, s)
  {
    hide Cost, Work, Inv, Share;
    assert s.start <= f.trees;
    ShareFits(f.trees, s.start, s.workers, |s.tasks|);
    var s' := Next(f, s, Spawn);
    var t := NewTask(f, s.start, s'.start);
    WorkOfNew(f, s.start, s'.start);
    assert s'.tasks[..|s.tasks|] == s.tasks;
    CostAdd(f, s'.start - s.start, f.trees - s'.start);
  }

  /** Every action uses the bound up, so every schedule is finite. */
  lemma RankDecreases(f: Forest, s: State, a: Action)
    requires Inv(f, s) && Enabled(f, s, a)
    ensures Rank(f, Next(f, s, a)) < Rank(f, s)
  {
    hide Cost, Work, TaskOk, Tiles, MemOk, TotalWork, Unassigned;
    match a
    case Store(k, p) =>
      WorkSteps(f, s.tasks[k], p);
      TotalWorkUpdate(f, s.tasks, k, Next(f, s, a).tasks[k]);
    case Advance(k) =>
      WorkSteps(f, s.tasks[k], 0);
      TotalWorkUpdate(f, s.tasks, k, Next(f, s, a).tasks[k]);
    case Spawn => SpawnRank(f, s);
    case AllJoined => WorkOfNew(f, s.start, f.trees);
    case OwnStore(p) => WorkSteps(f, s.own, p);
    case OwnAdvance => WorkSteps(f, s.own, 0);
    case _ =>
  }

  lemma RankPositive(f: Forest, s: State)
    requires Inv(f, s)
    ensures Rank(f, s) >= 0
  {
    hide Cost, Work, TaskOk, Tiles, MemOk, TotalWork, Unassigned;
  }

  /** No run is longer than the bound its first state sets, whatever the scheduler does. */
  lemma {:induction false} RunsAreBounded(f: Forest, s: State, acts: seq<Action>, s': State)
    requires Inv(f, s) && Run(f, s, acts, s')
    ensures |acts| <= Rank(f, s)
    decreases |acts|
  {
    hide Inv, Next, Rank;
    RankPositive(f, s);
    if acts != [] {
      NextInv(f, s, acts[0]);
      RankDecreases(f, s, acts[0]);
      RunsAreBounded(f, Next(f, s, acts[0]), acts[1..], s');
    }
  }

  // ---------- the forest that `fors_sign` signs ----------

  /** Blocks `0 .. a` of a tree are its share of the signature, block `a + 1` is its entry in `roots`. */
  ghost function ForestOf(e: Engine, c: Ctx, tree: nat, kp: nat, indices: seq<nat>): Forest
    requires |indices| == e.p.trees
  {
    Forest(e.p.trees, e.p.a + 2, (x: nat, p: nat) =>
      if x >= e.p.trees then [] else if p <= e.p.a then F.TreeSig(e, c, tree, kp, indices[x], x)[p]
        else F.ForsRoot(e, c, tree, kp, x))
  }

  /** The threaded signer writes the signature and the roots of the sequential one, byte for byte. */
  lemma ThreadsEqualSequential(e: Engine, c: Ctx, tree: nat, kp: nat, indices: seq<nat>, s: State, acts: seq<Action>,
      s': State, x: nat, p: nat)
    requires |indices| == e.p.trees && x < e.p.trees && p <= e.p.a
    requires var f := ForestOf(e, c, tree, kp, indices); Init(f, s) && Run(f, s, acts, s') && s'.main == Done
    ensures F.BlockOff(e.p, x) + p < |F.ForsSig(e, c, tree, kp, indices, e.p.trees)|
    ensures (x, p) in s'.mem && s'.mem[(x, p)] == F.ForsSig(e, c, tree, kp, indices, e.p.trees)[F.BlockOff(e.p, x) + p]
    ensures (x, e.p.a + 1) in s'.mem && s'.mem[(x, e.p.a + 1)] == F.ForsRoots(e, c, tree, kp)[x]
  {
    hide Init, Run, F.TreeSig, F.ForsRoot, F.ForsSig, F.BlockOff;
    var f := ForestOf(e, c, tree, kp, indices);
    EveryScheduleSigns(f, s, acts, s');
    var sig := F.ForsSig(e, c, tree, kp, indices, e.p.trees);
    F.PieceOfSig(e, c, tree, kp, indices, e.p.trees, x);
    F.BlockOffStep(e.p, x, e.p.trees);
    var lo, hi := F.BlockOff(e.p, x), F.BlockOff(e.p, x + 1);
    assert sig[lo..hi][p] == sig[lo + p];
    assert s'.mem[(x, p)] == f.val(x, p) && s'.mem[(x, e.p.a + 1)] == f.val(x, e.p.a + 1);
  }

  // ---------- places in memory ----------

  /** Where a block goes: an offset into `sig` or an entry of `roots`. */
  datatype Place = InSig(off: nat) | InRoots(i: nat)

  function PlaceOf(p: Params, b: Block): Place {
    if b.1 <= p.a then InSig(F.BlockOff(p, b.0) + b.1) else InRoots(b.0)
  }

  /** Division with remainder: an offset names one tree and one block of it. */
  lemma OffsetIs(p: Params, x: nat, k: nat)
    requires k <= p.a
    ensures (F.BlockOff(p, x) + k) / (p.a + 1) == x && (F.BlockOff(p, x) + k) % (p.a + 1) == k
  {
    var o := F.BlockOff(p, x) + k;
    assert o == (p.a + 1) * x + k;
    DivModUnique(o, p.a + 1, x, k);
  }

  /** Different blocks go to different places, and every place is inside its buffer. */
  lemma PlacesInjective(p: Params, b: Block, b': Block)
    requires b.0 < p.trees && b.1 < p.a + 2 && b'.0 < p.trees && b'.1 < p.a + 2
    ensures PlaceOf(p, b) == PlaceOf(p, b') <==> b == b'
    ensures match PlaceOf(p, b) case InSig(off) => off < F.BlockOff(p, p.trees) case InRoots(i) => i < p.trees
  {
    hide F.BlockOff;
    F.BlockOffStep(p, b.0, p.trees);
    if b.1 <= p.a { OffsetIs(p, b.0, b.1); }
    if b'.1 <= p.a { OffsetIs(p, b'.0, b'.1); }
  }

  /** The block an enabled store is about to write. */
  function Target(s: State, a: Action): Block
    requires (a.Store? && a.k < |s.tasks|) || a.OwnStore?
  {
    if a.Store? then (s.tasks[a.k].i, a.p) else (s.own.i, a.p)
  }

  /** No two stores of a run, by any threads, go to the same bytes of `sig` or `roots`, and none goes outside them. */
  lemma StoresGoToNewPlaces(e: Engine, c: Ctx, tree: nat, kp: nat, indices: seq<nat>, s: State, acts: seq<Action>,
      s': State, a: Action, b: Block)
    requires |indices| == e.p.trees
    requires var f := ForestOf(e, c, tree, kp, indices); Init(f, s) && Run(f, s, acts, s') && Enabled(f, s', a)
    requires (a.Store? || a.OwnStore?) && b in s'.written
    ensures PlaceOf(e.p, Target(s', a)) != PlaceOf(e.p, b)
    ensures match PlaceOf(e.p, Target(s', a)) case InSig(off) => off < F.BlockOff(e.p, e.p.trees)
        case InRoots(i) => i < e.p.trees
  {
    hide Init, Run, PlaceOf, F.BlockOff, F.TreeSig, F.ForsRoot;
    var f := ForestOf(e, c, tree, kp, indices);
    StoresAreDisjoint(f, s, acts, s', a);
    InitInv(f, s);
    RunInv(f, s, acts, s');
    TargetInRange(f, s', a, b);
    PlacesInjective(e.p, Target(s', a), b);
  }

  lemma TargetInRange(f: Forest, s: State, a: Action, b: Block)
    requires Inv(f, s) && Enabled(f, s, a) && (a.Store? || a.OwnStore?) && b in s.written
    ensures Target(s, a).0 < f.trees && Target(s, a).1 < f.width && b.0 < f.trees && b.1 < f.width
  {
    hide Next;
    if a.Store? { StoreTasks(f, s, a.k, a.p); } else { OwnInv(f, s, a); }
  }

  /**
   The buffers of the finished signer, read as `sig` and `roots`, are the sequential signature and
   roots, and the last `thash` of `fors_sign` over them is the FORS public key.
   */
  lemma FinishedBuffers(e: Engine, c: Ctx, tree: nat, kp: nat, indices: seq<nat>, s: State, acts: seq<Action>,
      s': State, sig: seq<Bytes>, roots: seq<Bytes>)
    requires |indices| == e.p.trees && |sig| == F.BlockOff(e.p, e.p.trees) && |roots| == e.p.trees
    requires var f := ForestOf(e, c, tree, kp, indices); Init(f, s) && Run(f, s, acts, s') && s'.main == Done
    requires forall b | b in s'.mem && b.0 < e.p.trees && b.1 <= e.p.a ::
        PlaceOf(e.p, b).off < |sig| && sig[PlaceOf(e.p, b).off] == s'.mem[b]
    requires forall b | b in s'.mem && b.0 < e.p.trees && b.1 == e.p.a + 1 :: roots[b.0] == s'.mem[b]
    ensures sig == F.ForsSig(e, c, tree, kp, indices, e.p.trees) && roots == F.ForsRoots(e, c, tree, kp)
    ensures e.thash(c.pub, Pos(0, tree, FORSPK, kp), roots) == F.ForsPk(e, c, tree, kp)
  {
    hide Init, Run, F.TreeSig, F.ForsRoot, F.ForsSig, F.BlockOff, Pos;
    var want := F.ForsSig(e, c, tree, kp, indices, e.p.trees);
    forall o | 0 <= o < |sig| ensures sig[o] == want[o] {
      var x, k := o / (e.p.a + 1), o % (e.p.a + 1);
      TreeOfOffset(e.p, o);
      ThreadsEqualSequential(e, c, tree, kp, indices, s, acts, s', x, k);
      assert PlaceOf(e.p, (x, k)).off == o;
    }
    forall x | 0 <= x < e.p.trees ensures roots[x] == F.ForsRoots(e, c, tree, kp)[x] {
      ThreadsEqualSequential(e, c, tree, kp, indices, s, acts, s', x, 0);
      var b := (x, e.p.a + 1);
      assert b in s'.mem && roots[b.0] == s'.mem[b];
    }
  }

  lemma TreeOfOffset(p: Params, o: nat)
    requires o < F.BlockOff(p, p.trees)
    ensures o / (p.a + 1) < p.trees && o % (p.a + 1) <= p.a && F.BlockOff(p, o / (p.a + 1)) + o % (p.a + 1) == o
  {
    var x, k := o / (p.a + 1), o % (p.a + 1);
    assert o == (p.a + 1) * x + k;
    if x >= p.trees { Larger(p.a + 1, p.trees, x); }
  }

  lemma Larger(d: nat, m: nat, n: nat)
    requires m <= n
    ensures d * m <= d * n
  {
  }
}
