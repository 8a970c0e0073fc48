/**
 Runs of the address setters. A memory holds any number of `uint32_t addr[8]` variables, zero at
 first; whatever sequence of setters and partial copies between them is carried out on the
 bytes, the 22 bytes that are hashed for a variable are those of the same sequence on fields.
 */
module AddressRuns {
  import opened Bits
  import opened Address

  /** A call of one of the ten functions of address.c, on variables by number. */
  datatype Op =
    | Layer(dst: nat, v: nat)
    | Tree(dst: nat, v: nat)
    | Type(dst: nat, v: nat)
    | Keypair(dst: nat, v: nat)
    | Chain(dst: nat, v: nat)
    | Hash(dst: nat, v: nat)
    | Height(dst: nat, v: nat)
    | Index(dst: nat, i: int)
    | Subtree(dst: nat, src: nat)
    | KeypairOf(dst: nat, src: nat)
  {
    /** The variables exist, and a copy is between different ones. */
    predicate On(n: nat) {
      dst < n && (Subtree? || KeypairOf? ==> src < n && src != dst)
    }
  }

  /** The effect on fields. */
  function Do(vars: seq<Adrs>, op: Op): (r: seq<Adrs>)
    requires op.On(|vars|)
    ensures |r| == |vars|
  {
    var f := vars[op.dst];
    vars[op.dst :=
      match op
      case Layer(_, v) => f.SetLayer(v)
      case Tree(_, v) => f.SetTree(v)
      case Type(_, v) => f.SetType(v)
      case Keypair(_, v) => f.SetKeypair(v)
      case Chain(_, v) => f.SetChain(v)
      case Hash(_, v) => f.SetHash(v)
      case Height(_, v) => f.SetHeight(v)
      case Index(_, i) => f.SetIndex(i)
      case Subtree(_, src) => f.CopySubtree(vars[src])
      case KeypairOf(_, src) => f.CopyKeypair(vars[src])]
  }

  ghost predicate AllOn(ops: seq<Op>, n: nat) {
    forall i | 0 <= i < |ops| :: ops[i].On(n)
  }

  /** The fields after a history of calls on cleared variables. */
  ghost function After(n: nat, ops: seq<Op>): (r: seq<Adrs>)
    requires AllOn(ops, n)
    ensures |r| == n
  {
    if ops == [] then seq(n, _ => ZERO) else Do(After(n, ops[..|ops| - 1]), ops[|ops| - 1])
  }

  /** The hashed bytes of variable number `i`. */
  function Slot(mem: Bytes, i: nat): (r: Bytes)
    requires 32 * i + 32 <= |mem|
    ensures |r| == 22
  {
    mem[32 * i..32 * i + 22]
  }

  /** The memory holds the variables `vars`, each in its 32 bytes. */
  ghost predicate Holds(mem: Bytes, vars: seq<Adrs>) {
    |mem| == 32 * |vars| && forall i | 0 <= i < |vars| :: Clear(Slot(mem, i)) && Fields(Slot(mem, i)) == vars[i]
  }

  /** Only the hashed bytes of variable `k` differ. */
  ghost predicate SameBut(was: Bytes, now: Bytes, k: nat) {
    |was| == |now| && forall j | 0 <= j < |was| && !(32 * k <= j < 32 * k + 22) :: now[j] == was[j]
  }

  lemma OtherSlot(was: Bytes, now: Bytes, k: nat, i: nat)
    requires SameBut(was, now, k) && i != k && 32 * i + 32 <= |was|
    ensures Slot(now, i) == Slot(was, i)
  {
    forall j | 0 <= j < 22 ensures Slot(now, i)[j] == Slot(was, i)[j] {
      assert now[32 * i + j] == was[32 * i + j];
    }
  }

  /** A setter on one variable leaves the others as they were. */
  lemma OneChanged(was: Bytes, now: Bytes, vars: seq<Adrs>, k: nat, f: Adrs)
    requires Holds(was, vars) && k < |vars| && SameBut(was, now, k) && Clear(Slot(now, k)) && Fields(Slot(now, k)) == f
    ensures Holds(now, vars[k := f])
  {
    hide Fields, Clear, Slot, SameBut;
    var vars' := vars[k := f];
    assert |was| == |now| by { SameLength(was, now, k); }
    forall i | 0 <= i < |vars'| ensures Clear(Slot(now, i)) && Fields(Slot(now, i)) == vars'[i] {
      if i != k { OtherSlot(was, now, k, i); }
    }
  }

  lemma SameLength(was: Bytes, now: Bytes, k: nat)
    requires SameBut(was, now, k)
    ensures |was| == |now|
  {
  }

  lemma SlotIs(mem: array<byte>, i: nat)
    requires 32 * i + 32 <= mem.Length
    ensures Slot(mem[..], i) == Hashed(mem, 32 * i) && Fields(Slot(mem[..], i)) == At(mem, 32 * i)
    ensures ClearAt(mem, 32 * i) <==> Clear(Slot(mem[..], i))
  {
    hide Fields;
    AtIsFields(mem, 32 * i);
    var s, o := Slot(mem[..], i), 32 * i;
    assert s == Hashed(mem, o);
    assert s[14] == mem[o + 14] && s[15] == mem[o + 15] && s[16] == mem[o + 16];
    if Clear(s) { assert mem[o + 14..o + 17] == [0, 0, 0]; }
    if ClearAt(mem, o) {
      var b := mem[o + 14..o + 17];
      assert b[0] == 0 && b[1] == 0 && b[2] == 0;
    }
  }

  /** One call on the bytes. */
  method Apply(mem: array<byte>, op: Op, ghost vars: seq<Adrs>)
    requires Holds(mem[..], vars) && op.On(|vars|)
    modifies mem
    ensures Holds(mem[..], Do(vars, op))
  {
    hide At, Fields, Clear, Slot;
    ghost var was := mem[..];
    var off := 32 * op.dst;
    SlotIs(mem, op.dst);
    assert ClearAt(mem, off) && At(mem, off) == vars[op.dst];
    if op.Subtree? || op.KeypairOf? { SlotIs(mem, op.src); }
    match op {
      case Layer(_, v) => SetLayerAddr(mem, off, v);
      case Tree(_, v) => SetTreeAddr(mem, off, v);
      case Type(_, v) => SetType(mem, off, v);
      case Keypair(_, v) => SetKeypairAddr(mem, off, v);
      case Chain(_, v) => SetChainAddr(mem, off, v);
      case Hash(_, v) => SetHashAddr(mem, off, v);
      case Height(_, v) => SetTreeHeight(mem, off, v);
      case Index(_, i) => SetTreeIndex(mem, off, i);
      case Subtree(_, src) => CopySubtreeAddr(mem, off, mem, 32 * src);
      case KeypairOf(_, src) => CopyKeypairAddr(mem, off, mem, 32 * src);
    }
    ghost var f := Do(vars, op)[op.dst];
    assert At(mem, off) == f && SameBut(was, mem[..], op.dst);
    SlotIs(mem, op.dst);
    OneChanged(was, mem[..], vars, op.dst, f);
    assert Do(vars, op) == vars[op.dst := f];
  }

  lemma AllZero(mem: Bytes, n: nat)
    requires mem == Zeros(32 * n)
    ensures Holds(mem, After(n, []))
  {
    hide FromBE;
    forall i | 0 <= i < n ensures Clear(Slot(mem, i)) && Fields(Slot(mem, i)) == ZERO {
      var s := Slot(mem, i);
      assert s == Zeros(22);
      assert s[1..9] == Zeros(8) && s[10..14] == Zeros(4) && s[18..22] == Zeros(4);
      ZeroValue(s[1..9]);
      ZeroValue(s[10..14]);
      ZeroValue(s[18..22]);
    }
  }

  lemma {:induction false} ZeroValue(b: Bytes)
    requires forall i | 0 <= i < |b| :: b[i] == 0
    ensures FromBE(b) == 0
  {
    if b != [] { ZeroValue(b[..|b| - 1]); }
  }

  /**
   Address discipline: after any history of setters and partial copies on `n` variables that
   started clear, the bytes hashed for every variable are the encoding of its fields.
   */
  method Run(n: nat, ops: seq<Op>) returns (mem: array<byte>)
    requires AllOn(ops, n)
    ensures fresh(mem) && mem.Length == 32 * n && Holds(mem[..], After(n, ops))
    ensures forall i | 0 <= i < n :: Hashed(mem, 32 * i) == Enc(After(n, ops)[i]) && ClearAt(mem, 32 * i)
  {
    hide At, Enc, Do, Hashed, Fields, Clear, ClearAt, Slot;
    mem := new byte[32 * n](_ => 0);
    assert mem[..] == Zeros(32 * n);
    AllZero(mem[..], n);
    for k := 0 to |ops|
      invariant mem.Length == 32 * n && Holds(mem[..], After(n, ops[..k]))
    {
      Apply(mem, ops[k], After(n, ops[..k]));
      assert ops[..k + 1][..k] == ops[..k];
    }
    assert ops[..|ops|] == ops;
    forall i | 0 <= i < n ensures Hashed(mem, 32 * i) == Enc(After(n, ops)[i]) && ClearAt(mem, 32 * i) {
      SlotIs(mem, i);
      HashedIsEnc(mem, 32 * i);
    }
  }

  /**
   Two variables of two memories with different histories hash the same bytes exactly if their
   fields came out the same.
   */
  lemma SameBytes(mem: Bytes, vars: seq<Adrs>, i: nat, mem': Bytes, vars': seq<Adrs>, j: nat)
    requires Holds(mem, vars) && Holds(mem', vars') && i < |vars| && j < |vars'|
    ensures Slot(mem, i) == Slot(mem', j) <==> vars[i] == vars'[j]
  {
    hide Enc, Fields, Slot;
    EncOfFields(Slot(mem, i));
    EncOfFields(Slot(mem', j));
  }
}
