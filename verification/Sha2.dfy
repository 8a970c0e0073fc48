/**
 sha2.c: the incremental SHA-256 and SHA-512 interface over an arbitrary compression function.
 The state is a byte buffer holding the chaining value and an eight-byte count of the bytes
 absorbed. Whatever whole-block split a message is absorbed in, the result is the hash of the
 message padded as in sections 5.1.1 and 5.1.2 of FIPS 180-4.
 */
module Sha2 {
  import opened Bits
  import opened Address

  /** Block size, chaining value size, length field of the standard, and the bytes of it that are written out. */
  datatype Variant = Variant(block: nat, out: nat, field: nat, written: nat)

  const SHA256 := Variant(64, 32, 8, 8)
  const SHA512 := Variant(128, 64, 16, 9)

  datatype RawHasher = RawHasher(v: Variant, iv: Bytes, compress: (Bytes, Bytes) -> Bytes) {
    ghost predicate Valid() {
      && (v == SHA256 || v == SHA512) && |iv| == v.out
      && forall s, b :: |compress(s, b)| == v.out
    }
  }

  type Hasher = h: RawHasher | h.Valid() ghost witness RawHasher(SHA256, Zeros(32), (s: Bytes, b: Bytes) => Zeros(32))

  /** `crypto_hashblocks`: folds the whole blocks of `data` into the chaining value; a partial block is ignored. */
  ghost function Absorb(h: Hasher, state: Bytes, data: Bytes): (r: Bytes)
    requires |state| == h.v.out
    ensures |r| == h.v.out
    decreases |data|
  {
    if |data| < h.v.block then state else Absorb(h, h.compress(state, data[..h.v.block]), data[h.v.block..])
  }

  lemma {:induction false} AbsorbSplit(h: Hasher, state: Bytes, x: Bytes, y: Bytes)
    requires |state| == h.v.out && |x| % h.v.block == 0
    ensures Absorb(h, state, x + y) == Absorb(h, Absorb(h, state, x), y)
    decreases |x|
  {
    var b := h.v.block;
    if |x| == 0 {
      assert x + y == y;
    } else {
      assert |x| >= b && (|x| - b) % b == 0 by { if h.v == SHA256 {} else {} }
      assert (x + y)[..b] == x[..b] && (x + y)[b..] == x[b..] + y;
      AbsorbSplit(h, h.compress(state, x[..b]), x[b..], y);
    }
  }

  /** A partial block at the end is ignored. */
  lemma {:induction false} AbsorbIgnoresTail(h: Hasher, state: Bytes, x: Bytes, tail: Bytes)
    requires |state| == h.v.out && |x| % h.v.block == 0 && |tail| < h.v.block
    ensures Absorb(h, state, x + tail) == Absorb(h, state, x)
  {
    AbsorbSplit(h, state, x, tail);
  }

  /** The number of zero bytes between the 0x80 and the length. */
  function Fill(v: Variant, len: nat): nat
    requires v == SHA256 || v == SHA512
  {
    (2 * v.block - v.field - 1 - len % v.block) % v.block
  }

  /** The padding of a message of `len` bytes. */
  function Padding(v: Variant, len: nat): Bytes
    requires v == SHA256 || v == SHA512
  {
    [0x80] + Zeros(Fill(v, len)) + BE(8 * len, v.field)
  }

  /** The padded message is a whole number of blocks, and no shorter padding would do. */
  lemma PaddingWhole(v: Variant, len: nat)
    requires v == SHA256 || v == SHA512
    ensures (len + |Padding(v, len)|) % v.block == 0 && 1 + v.field <= |Padding(v, len)| < 1 + v.field + v.block
  {
    hide BE;
  }

  /** The hash of a whole message. */
  ghost function Hash(h: Hasher, m: Bytes): (r: Bytes)
    ensures |r| == h.v.out
  {
    Absorb(h, h.iv, m + Padding(h.v, |m|))
  }

  // ---------- the bit length, as the source writes it ----------

  /** The nine bytes of `8 * b` are the nine shifts of `b` the source writes: 61, 53, ..., 5 right and 3 left. */
  function BitLength(b: nat): (r: Bytes)
    ensures |r| == 9
  {
    [b / 0x2000_0000_0000_0000 % 256, b / 0x20_0000_0000_0000 % 256, b / 0x2000_0000_0000 % 256,
      b / 0x20_0000_0000 % 256,
     b / 0x2000_0000 % 256, b / 0x20_0000 % 256, b / 0x2000 % 256, b / 0x20 % 256, 8 * b % 256]
  }

  lemma BEStep(q: nat, q': nat, n: nat)
    requires q' == q / 256 && n > 0
    ensures BE(q, n) == BE(q', n - 1) + [q % 256]
  {
  }

  lemma BENone(q: nat)
    ensures BE(q, 0) == []
  {
  }

  lemma Halves(b: nat)
    ensures 8 * b / 256 == b / 0x20 && b / 0x20 / 256 == b / 0x2000 && b / 0x2000 / 256 == b / 0x20_0000
    ensures b / 0x20_0000 / 256 == b / 0x2000_0000 && b / 0x2000_0000 / 256 == b / 0x20_0000_0000
  {
    DivModUnique(8 * b, 256, b / 0x20, 8 * (b % 0x20));
    DivNext(b, 0x20);
    DivNext(b, 0x2000);
    DivNext(b, 0x20_0000);
    DivNext(b, 0x2000_0000);
  }

  lemma Halves2(b: nat)
    ensures b / 0x20_0000_0000 / 256 == b / 0x2000_0000_0000 && b / 0x2000_0000_0000 / 256 == b / 0x20_0000_0000_0000
    ensures b / 0x20_0000_0000_0000 / 256 == b / 0x2000_0000_0000_0000
  {
    DivNext(b, 0x20_0000_0000);
    DivNext(b, 0x2000_0000_0000);
    DivNext(b, 0x20_0000_0000_0000);
  }

  lemma BitLengthIs(b: nat)
    ensures BitLength(b) == BE(8 * b, 9) && BitLength(b)[1..] == BE(8 * b, 8)
  {
    hide BE;
    Halves(b);
    Halves2(b);
    BENone(b / 0x2000_0000_0000_0000);
    BENone(b / 0x2000_0000_0000_0000 / 256);
    var q0, q1, q2, q3 := b / 0x20, b / 0x2000, b / 0x20_0000, b / 0x2000_0000;
    var q4, q5, q6, q7 := b / 0x20_0000_0000, b / 0x2000_0000_0000, b / 0x20_0000_0000_0000, b / 0x2000_0000_0000_0000;
    BETail(8 * b, q0, q1, q2, q3, q4, q5, q6, 0);
    BETail(8 * b, q0, q1, q2, q3, q4, q5, q6, 1);
    BEStep(q7, q7 / 256, 1);
  }

  lemma BETail(x: nat, q0: nat, q1: nat, q2: nat, q3: nat, q4: nat, q5: nat, q6: nat, n: nat)
    requires q0 == x / 256 && q1 == q0 / 256 && q2 == q1 / 256 && q3 == q2 / 256 && q4 == q3 / 256 && q5 == q4 / 256
        && q6 == q5 / 256
    ensures BE(x, n + 8) == BE(q6 / 256, n) + [q6 % 256, q5 % 256, q4 % 256, q3 % 256, q2 % 256, q1 % 256, q0 % 256,
        x % 256]
  {
    hide BE;
    BEStep(x, q0, n + 8);
    BEStep(q0, q1, n + 7);
    BEStep(q1, q2, n + 6);
    BEStep(q2, q3, n + 5);
    BEStep(q3, q4, n + 4);
    BEStep(q4, q5, n + 3);
    BEStep(q5, q6, n + 2);
    BEStep(q6, q6 / 256, n + 1);
  }

  // ---------- padding ----------

  /** The last one or two blocks: what is left of the message, 0x80, zeros, and the written part of the length. */
  function FinalBlocks(v: Variant, rest: Bytes, total: nat): (r: Bytes)
    requires (v == SHA256 || v == SHA512) && |rest| < v.block
    ensures |r| == if |rest| < v.block - v.field then v.block else 2 * v.block
  {
    var size := if |rest| < v.block - v.field then v.block else 2 * v.block;
    rest + [0x80] + Zeros(size - v.written - |rest| - 1) + BE(8 * total, v.written)
  }

  /** A 16-byte length is seven zeros and the nine bytes that are written, below 2^64 bytes. */
  lemma WideLength(total: nat)
    requires total < 0x1_0000_0000_0000_0000
    ensures BE(8 * total, 16) == Zeros(7) + BE(8 * total, 9)
  {
    hide BE;
    var x := 8 * total;
    BESplit(x, 7, 9);
    assert x / Pow256(9) == 0 by {
      assert Pow256(9) == 0x100 * Pow256(8);
      Widths();
      DivModUnique(x, Pow256(9), 0, x);
    }
    BEZero(7);
  }

  lemma {:induction false} BEZero(n: nat)
    ensures BE(0, n) == Zeros(n)
  {
    if n > 0 { BEZero(n - 1); }
  }

  lemma {:induction false} BESplit(x: nat, m: nat, n: nat)
    ensures BE(x, m + n) == BE(x / Pow256(n), m) + BE(x, n)
    decreases n
  {
    if n > 0 {
      BESplit(x / 256, m, n - 1);
      var p := Pow256(n - 1);
      assert Pow256(n) == 256 * p;
      DivStep(x, p);
      assert BE(x, m + n) == BE(x / 256, m + n - 1) + [x % 256];
      assert BE(x, n) == BE(x / 256, n - 1) + [x % 256];
    } else {
      assert x / 1 == x;
    }
  }

  lemma DivStep(x: nat, p: nat)
    requires p >= 1
    ensures x / 256 / p == x / (256 * p)
  {
    var q, r := x / 256 / p, x / 256 % p;
    assert x / 256 == p * q + r;
    assert x == 256 * (p * q + r) + x % 256;
    assert x == (256 * p) * q + (256 * r + x % 256);
    DivModUnique(x, 256 * p, q, 256 * r + x % 256);
  }

  lemma ZerosJoin(m: nat, n: nat)
    ensures Zeros(m) + Zeros(n) == Zeros(m + n)
  {
  }

  lemma FillIs(v: Variant, len: nat, r: nat)
    requires (v == SHA256 || v == SHA512) && r == len % v.block
    ensures Fill(v, len) == (if r < v.block - v.field then v.block else 2 * v.block) - v.field - r - 1
  {
  }

  /** What the code hashes last is the end of the padded message. */
  lemma FinalBlocksIsPadding(v: Variant, rest: Bytes, total: nat)
    requires (v == SHA256 || v == SHA512) && |rest| == total % v.block
        && (v == SHA512 ==> total < 0x1_0000_0000_0000_0000)
    ensures FinalBlocks(v, rest, total) == rest + Padding(v, total)
  {
    hide BE;
    FillIs(v, total, |rest|);
    var k := Fill(v, total);
    if v == SHA512 {
      WideLength(total);
      ZerosJoin(k, 7);
      assert rest + Padding(v, total) == rest + [0x80] + (Zeros(k) + Zeros(7)) + BE(8 * total, 9);
    }
  }

  // ---------- the buffer ----------

  /** The state buffer after the whole blocks `prefix` have been absorbed. */
  ghost predicate Absorbed(h: Hasher, st: Bytes, prefix: Bytes) {
    && |st| == h.v.out + 8 && |prefix| % h.v.block == 0
    && st[..h.v.out] == Absorb(h, h.iv, prefix)
    && FromBE(st[h.v.out..]) == |prefix| % 0x1_0000_0000_0000_0000
  }

  /** `sha256_inc_init`, `sha512_inc_init`. */
  method IncInit(h: Hasher, state: array<byte>)
    requires state.Length == h.v.out + 8
    modifies state
    ensures Absorbed(h, state[..], [])
  {
    forall i | 0 <= i < h.v.out { state[i] := h.iv[i]; }
    forall i | h.v.out <= i < h.v.out + 8 { state[i] := 0; }
    assert state[..][..h.v.out] == h.iv;
    assert state[..][h.v.out..] == Zeros(8);
    BEZero(8);
    Widths();
    FromBEOfBE(0, 8);
  }

  /** `crypto_hashblocks_sha256`, `crypto_hashblocks_sha512`. */
  method HashBlocks(h: Hasher, state: array<byte>, data: Bytes)
    requires state.Length == h.v.out + 8
    modifies state
    ensures state[..h.v.out] == Absorb(h, old(state[..h.v.out]), data)
    ensures state[h.v.out..] == old(state[h.v.out..])
  {
    var i := 0;
    while |data| - i >= h.v.block
      invariant 0 <= i <= |data|
      invariant Absorb(h, state[..h.v.out], data[i..]) == Absorb(h, old(state[..h.v.out]), data)
      invariant state[h.v.out..] == old(state[h.v.out..])
    {
      var cv := h.compress(state[..h.v.out], data[i..i + h.v.block]);
      assert data[i..][..h.v.block] == data[i..i + h.v.block] && data[i..][h.v.block..] == data[i + h.v.block..];
      forall j | 0 <= j < h.v.out { state[j] := cv[j]; }
      assert state[..h.v.out] == cv;
      i := i + h.v.block;
    }
  }

  /** The count read back, in 64-bit arithmetic. */
  lemma CountAdds(prefix: nat, more: nat)
    ensures (prefix % 0x1_0000_0000_0000_0000 + more) % 0x1_0000_0000_0000_0000
        == (prefix + more) % 0x1_0000_0000_0000_0000
  {
  }

  lemma WholeBlocks(v: Variant, m: nat, n: nat)
    requires (v == SHA256 || v == SHA512) && m % v.block == 0
    ensures (m + n) % v.block == n % v.block
  {
    DropWhole(v.block, m, n);
  }

  lemma DropWhole(b: nat, m: nat, n: nat)
    requires b > 0 && m % b == 0
    ensures (m + n) % b == n % b
  {
    assert m == b * (m / b) && n == b * (n / b) + n % b;
    assert m + n == b * (m / b + n / b) + n % b;
    DivModUnique(m + n, b, m / b + n / b, n % b);
  }

  lemma WholePart(v: Variant, n: nat)
    requires v == SHA256 || v == SHA512
    ensures (n - n % v.block) % v.block == 0
  {
  }

  /** `sha256_inc_blocks`, `sha512_inc_blocks`. */
  method IncBlocks(h: Hasher, state: array<byte>, data: Bytes, ghost prefix: Bytes)
    requires |data| % h.v.block == 0 && Absorbed(h, state[..], prefix)
    modifies state
    ensures Absorbed(h, state[..], prefix + data)
  {
    hide Absorb, BE, FromBE;
    var n := h.v.out;
    assert state.Length == n + 8;
    assert state[..][..n] == state[..n] && state[..][n..] == state[n..];
    var bytes := BytesToUll(state[n..]);
    HashBlocks(h, state, data);
    bytes := (bytes + |data|) % 0x1_0000_0000_0000_0000;
    ghost var cv := state[..n];
    UllToBytes(state, n, 8, bytes);
    assert state[..n] == cv;
    AbsorbSplit(h, h.iv, prefix, data);
    Widths();
    FromBEOfBE(bytes, 8);
    CountAdds(|prefix|, |data|);
    WholeBlocks(h.v, |prefix|, |data|);
    assert state[..][..n] == state[..n] && state[..][n..] == state[n..n + 8];
  }

  /** The shifted bytes of the count, one assignment each: `bytes >> 61`, `bytes >> 53`, ..., `bytes << 3`. */
  method StoreBitLength(v: Variant, buf: array<byte>, at: nat, bytes: nat)
    requires (v == SHA256 || v == SHA512) && at + v.written <= buf.Length
    modifies buf
    ensures buf[at..at + v.written] == BE(8 * bytes, v.written)
    ensures SameOutside(buf, at, at + v.written)
  {
    hide BE, BitLength;
    var shifts := BitLength(bytes)[9 - v.written..];
    forall j | 0 <= j < v.written { buf[at + j] := shifts[j]; }
    assert buf[at..at + v.written] == shifts;
    BitLengthIs(bytes);
    assert v == SHA512 ==> shifts == BitLength(bytes);
  }

  /** The `padded` buffer of the finalize functions: one or two blocks, filled in place. */
  method PadTail(v: Variant, rest: Bytes, bytes: nat) returns (padded: Bytes)
    requires (v == SHA256 || v == SHA512) && |rest| < v.block
    ensures padded == FinalBlocks(v, rest, bytes)
  {
    hide BE;
    var buf := new byte[2 * v.block];
    var r := |rest|;
    forall i | 0 <= i < r { buf[i] := rest[i]; }
    buf[r] := 0x80;
    var size := if r < v.block - v.field then v.block else 2 * v.block;
    var stop := size - v.written;
    var i := r + 1;
    while i < stop
      invariant r + 1 <= i <= stop
      invariant buf[..r] == rest && buf[r] == 0x80 && forall j | r < j < i :: buf[j] == 0
    {
      buf[i] := 0;
      i := i + 1;
    }
    ghost var front := buf[..stop];
    assert front == rest + [0x80] + Zeros(stop - r - 1);
    StoreBitLength(v, buf, stop, bytes);
    assert buf[..stop] == front;
    padded := buf[..size];
    assert padded == buf[..stop] + buf[stop..size];
  }

  /** Only the low 64 bits of the byte count reach the length field. */
  lemma EightMod(x: nat)
    ensures 8 * (x % 0x1_0000_0000_0000_0000) % 0x1_0000_0000_0000_0000 == 8 * x % 0x1_0000_0000_0000_0000
  {
    var q, r := x / 0x1_0000_0000_0000_0000, x % 0x1_0000_0000_0000_0000;
    var q', r' := 8 * r / 0x1_0000_0000_0000_0000, 8 * r % 0x1_0000_0000_0000_0000;
    assert x == 0x1_0000_0000_0000_0000 * q + r;
    assert 8 * r == 0x1_0000_0000_0000_0000 * q' + r';
    assert 8 * x == 0x1_0000_0000_0000_0000 * (8 * q + q') + r';
    DivModUnique(8 * x, 0x1_0000_0000_0000_0000, 8 * q + q', r');
  }

  lemma CountWraps(v: Variant, total: nat)
    requires v == SHA256 || (v == SHA512 && total < 0x1_0000_0000_0000_0000)
    ensures BE(8 * (total % 0x1_0000_0000_0000_0000), v.written) == BE(8 * total, v.written)
  {
    hide BE;
    if v == SHA256 {
      Widths();
      EightMod(total);
      BEMod(8 * total, 8);
      BEMod(8 * (total % 0x1_0000_0000_0000_0000), 8);
    }
  }

  lemma Regroup(prefix: Bytes, whole: Bytes, rest: Bytes, pad: Bytes)
    ensures (prefix + whole) + (rest + pad) == (prefix + (whole + rest)) + pad
  {
  }

  lemma AbsorbFinal(h: Hasher, prefix: Bytes, whole: Bytes, rest: Bytes, total: nat)
    requires |prefix| % h.v.block == 0 && |whole| % h.v.block == 0 && |prefix + whole| % h.v.block == 0
    requires total == |prefix + (whole + rest)| && |rest| == total % h.v.block
        && (h.v == SHA512 ==> total < 0x1_0000_0000_0000_0000)
    ensures Absorb(h, Absorb(h, Absorb(h, h.iv, prefix), whole + rest), FinalBlocks(h.v, rest, total))
        == Hash(h, prefix + (whole + rest))
  {
    hide Absorb, FinalBlocks, Padding;
    var pad := Padding(h.v, total);
    AbsorbIgnoresTail(h, Absorb(h, h.iv, prefix), whole, rest);
    AbsorbSplit(h, h.iv, prefix, whole);
    FinalBlocksIsPadding(h.v, rest, total);
    AbsorbSplit(h, h.iv, prefix + whole, rest + pad);
    Regroup(prefix, whole, rest, pad);
  }

  /**
   `sha256_inc_finalize`, `sha512_inc_finalize`: whatever whole-block split came before, the
   output is the hash of everything absorbed (SHA-512: up to 2^64 bytes, where its count wraps).
   */
  method IncFinalize(h: Hasher, state: array<byte>, data: Bytes, ghost prefix: Bytes) returns (out: Bytes)
    requires Absorbed(h, state[..], prefix) && (h.v == SHA512 ==> |prefix| + |data| < 0x1_0000_0000_0000_0000)
    modifies state
    ensures out == Hash(h, prefix + data)
  {
    hide Absorb, Hash, BE;
    var n := h.v.out;
    assert state[..][..n] == state[..n] && state[..][n..] == state[n..];
    var count := BytesToUll(state[n..]);
    var bytes := (count + |data|) % 0x1_0000_0000_0000_0000;
    CountAdds(|prefix|, |data|);
    HashBlocks(h, state, data);
    var r := |data| % h.v.block;
    var rest := data[|data| - r..];
    var padded := PadTail(h.v, rest, bytes);
    CountWraps(h.v, |prefix| + |data|);
    assert padded == FinalBlocks(h.v, rest, |prefix| + |data|);
    HashBlocks(h, state, padded);
    WholePart(h.v, |data|);
    assert data == data[..|data| - r] + rest;
    WholeBlocks(h.v, |prefix|, |data| - r);
    WholeBlocks(h.v, |prefix|, |data|);
    AbsorbFinal(h, prefix, data[..|data| - r], rest, |prefix| + |data|);
    out := state[..n];
  }

  /** `sha256`, `sha512`. */
  method Sha(h: Hasher, data: Bytes) returns (out: Bytes)
    requires h.v == SHA512 ==> |data| < 0x1_0000_0000_0000_0000
    ensures out == Hash(h, data)
  {
    hide Hash, Absorbed;
    var state := new byte[h.v.out + 8];
    IncInit(h, state);
    out := IncFinalize(h, state, data, []);
    assert [] + data == data;
  }
}
