/**
 The integer arithmetic the signature engine is built on: halving, sibling indices,
 powers of two, and fixed-width big-endian byte strings. C's unsigned shifts and masks
 are written as division and remainder; the width of a store is written out as `% 256`.
 */
module Bits {

  type byte = x: int | 0 <= x < 256

  type Bytes = seq<byte>

  function Zeros(n: nat): (r: Bytes)
    ensures |r| == n
  {
    seq(n, _ => 0)
  }

  /** `1 << n`. */
  function Pow2(n: nat): (r: nat)
    ensures r >= 1
  {
    if n == 0 then 1 else 2 * Pow2(n - 1)
  }

  /** `x >> n`, one halving at a time, as the tree loops do it. */
  function Shr(x: nat, n: nat): nat {
    if n == 0 then x else Shr(x, n - 1) / 2
  }

  /** `x ^ 1`: the sibling of node `x`. */
  function Flip(x: nat): nat {
    if x % 2 == 0 then x + 1 else x - 1
  }

  lemma {:induction false} ShrZero(n: nat)
    ensures Shr(0, n) == 0
  {
    if n > 0 { ShrZero(n - 1); }
  }

  /** Shifting right by `n` keeps exactly the values below `2^(m+n)` below `2^m`. */
  lemma {:induction false} ShrBound(x: nat, m: nat, n: nat)
    ensures x < Pow2(m + n) <==> Shr(x, n) < Pow2(m)
    decreases n
  {
    if n > 0 { ShrBound(x, m + 1, n - 1); }
  }

  /** The all-ones index `2^m - 1` stays all ones while it is shifted. */
  lemma {:induction false} ShrOnes(m: nat, n: nat)
    ensures Shr(Pow2(m + n) - 1, n) == Pow2(m) - 1
    decreases n
  {
    if n > 0 { ShrOnes(m + 1, n - 1); }
  }

  /**
   The carry law behind every TreeHash stack: if the low `h` bits of `x` are ones and bit `h`
   is zero, then adding one increments the shifted value at levels up to `h` and no further.
   */
  lemma {:induction false} ShrCarry(x: nat, h: nat, j: nat)
    requires forall i | 0 <= i < h :: Shr(x, i) % 2 == 1
    requires Shr(x, h) % 2 == 0
    ensures Shr(x + 1, j) == if j <= h then Shr(x, j) + 1 else Shr(x, j)
  {
    if j > 0 { ShrCarry(x, h, j - 1); }
  }

  lemma HalfOfQuotient(x: nat, p: nat)
    requires p >= 1
    ensures x / p / 2 == x / (2 * p)
  {
    var q, r := x / (2 * p), x % (2 * p);
    assert x == (2 * p) * q + r;
    if r < p {
      assert x == p * (2 * q) + r;
      DivModUnique(x, p, 2 * q, r);
    } else {
      assert x == p * (2 * q + 1) + (r - p);
      DivModUnique(x, p, 2 * q + 1, r - p);
    }
  }

  /** Shifting is division by a power of two. */
  lemma {:induction false} ShrIsDiv(x: nat, n: nat)
    ensures Shr(x, n) == x / Pow2(n)
  {
    if n > 0 {
      ShrIsDiv(x, n - 1);
      HalfOfQuotient(x, Pow2(n - 1));
    }
  }

  lemma {:induction false} ShrTwice(x: nat, m: nat, n: nat)
    ensures Shr(Shr(x, m), n) == Shr(x, m + n)
  {
    if n > 0 { ShrTwice(x, m, n - 1); }
  }

  /** The remainder of a number by twice `k`, from its lowest bit and the rest. */
  lemma ModDouble(y: nat, k: nat)
    requires k >= 1
    ensures y % (2 * k) == y % 2 + 2 * (y / 2 % k)
  {
    var q, r := y / 2 / k, y / 2 % k;
    assert y / 2 == k * q + r;
    assert y == 2 * (k * q + r) + y % 2 == (2 * k) * q + (2 * r + y % 2);
    DivModUnique(y, 2 * k, q, 2 * r + y % 2);
  }

  lemma Pow2Mono(m: nat, n: nat)
    requires m <= n
    ensures Pow2(m) <= Pow2(n)
    decreases n
  {
    if m < n { Pow2Mono(m, n - 1); }
  }

  lemma {:induction false} Pow2Add(m: nat, n: nat)
    ensures Pow2(m + n) == Pow2(m) * Pow2(n)
  {
    if n > 0 {
      Pow2Add(m, n - 1);
      calc {
        Pow2(m + n);
        2 * Pow2(m + n - 1);
        2 * (Pow2(m) * Pow2(n - 1));
        Pow2(m) * (2 * Pow2(n - 1));
      }
    }
  }

  /** The powers of two the eight-lane code and the byte operations use. */
  lemma SmallPowers()
    ensures Pow2(0) == 1 && Pow2(1) == 2 && Pow2(2) == 4 && Pow2(3) == 8 && Pow2(8) == 256
  {
    assert Pow2(4) == 16;
    Pow2Add(4, 4);
  }

  /** The powers of two that bound indices. */
  lemma LargePowers()
    ensures Pow2(16) == 0x1_0000 && Pow2(24) == 0x100_0000 && Pow2(29) == 0x2000_0000
    ensures Pow2(31) == 0x8000_0000 && Pow2(64) == 0x1_0000_0000_0000_0000
  {
    hide Pow2;
    SmallPowers();
    Pow2Add(8, 8);
    Pow2Add(16, 8);
    assert Pow2(5) == 32 && Pow2(7) == 128 by { Pow2Add(2, 3); Pow2Add(5, 2); }
    Pow2Add(24, 5);
    Pow2Add(24, 7);
    Pow2Add(16, 16);
    Pow2Add(32, 32);
  }

  /** The `len` low-order bytes of `n`, most significant first. */
  function BE(n: int, len: nat): (r: Bytes)
    ensures |r| == len
    decreases len
  {
    if len == 0 then [] else BE(n / 256, len - 1) + [n % 256]
  }

  /** The unsigned value of a big-endian byte string. */
  function FromBE(b: Bytes): nat {
    if b == [] then 0 else 256 * FromBE(b[..|b| - 1]) + b[|b| - 1]
  }

  /** The unsigned value of a little-endian byte string. */
  function FromLE(b: Bytes): nat {
    if b == [] then 0 else b[0] + 256 * FromLE(b[1..])
  }

  function Pow256(len: nat): (r: nat)
    ensures r >= 1
  {
    if len == 0 then 1 else 256 * Pow256(len - 1)
  }

  /** Decoding undoes encoding for every value that fits. */
  lemma {:induction false} FromBEOfBE(n: nat, len: nat)
    requires n < Pow256(len)
    ensures FromBE(BE(n, len)) == n
    decreases len
  {
    if len > 0 {
      FromBEOfBE(n / 256, len - 1);
      assert BE(n, len)[..len - 1] == BE(n / 256, len - 1);
    }
  }

  /** Encoding undoes decoding for every byte string. */
  lemma {:induction false} BEOfFromBE(b: Bytes)
    ensures BE(FromBE(b), |b|) == b
  {
    if b != [] {
      BEOfFromBE(b[..|b| - 1]);
      assert FromBE(b) / 256 == FromBE(b[..|b| - 1]);
      assert b == b[..|b| - 1] + [b[|b| - 1]];
    }
  }

  /** Dividing by 256 once more. */
  lemma DivNext(n: int, d: nat)
    requires d >= 1
    ensures n / d / 256 == n / (256 * d)
  {
    var q, r := n / (256 * d), n % (256 * d);
    var q', r' := r / d, r % d;
    assert r == d * q' + r';
    assert n == (256 * d) * q + r == d * (256 * q + q') + r';
    DivModUnique(n, d, 256 * q + q', r');
    QuotientBound(r, d, q', r');
    DivModUnique(n / d, 256, q, q');
  }

  lemma QuotientBound(r: int, d: nat, q: int, s: int)
    requires 0 <= r < 256 * d && r == d * q + s && 0 <= s < d
    ensures 0 <= q < 256
  {
  }

  lemma BE4(n: int)
    ensures BE(n, 4) == [n / 0x100_0000 % 256, n / 0x1_0000 % 256, n / 0x100 % 256, n % 256]
  {
    hide BE;
    DivNext(n, 0x100);
    DivNext(n, 0x1_0000);
    BEUnfold(n, 4);
    BEUnfold(n / 0x100, 3);
    BEUnfold(n / 0x1_0000, 2);
    BEUnfold(n / 0x100_0000, 1);
    BEUnfold(n / 0x100_0000 / 256, 0);
  }

  lemma BEUnfold(n: int, len: nat)
    ensures BE(n, len) == if len == 0 then [] else BE(n / 256, len - 1) + [n % 256]
  {
  }

  /** Reducing modulo the width first changes nothing that is stored. */
  lemma {:induction false} BEMod(n: int, len: nat)
    ensures BE(n % Pow256(len), len) == BE(n, len)
    decreases len
  {
    if len > 0 {
      var p := Pow256(len - 1);
      assert Pow256(len) == 256 * p;
      ModStep(n, p);
      BEMod(n / 256, len - 1);
    }
  }

  lemma ModStep(n: int, p: nat)
    requires p >= 1
    ensures n % (256 * p) / 256 == n / 256 % p && n % (256 * p) % 256 == n % 256
  {
    var q, r := n / 256 / p, n / 256 % p;
    assert n == 256 * (p * q + r) + n % 256;
    assert n == (256 * p) * q + (256 * r + n % 256);
    assert 0 <= 256 * r + n % 256 < 256 * p;
    DivModUnique(n, 256 * p, q, 256 * r + n % 256);
  }

  lemma DivModUnique(n: int, d: nat, q: int, r: int)
    requires d >= 1 && 0 <= r < d && n == d * q + r
    ensures n / d == q && n % d == r
  {
    var q' := n / d;
    assert n == d * q' + n % d;
    if q' > q {
      MulGe(d, q' - q);
    } else if q' < q {
      MulGe(d, q - q');
    }
  }

  lemma MulGe(d: nat, k: nat)
    requires k >= 1
    ensures d * k >= d
  {
    if k > 1 { MulGe(d, k - 1); }
  }

  lemma {:induction false} Pow256Is(k: nat)
    ensures Pow256(k) == Pow2(8 * k)
  {
    if k > 0 {
      Pow256Is(k - 1);
      SmallPowers();
      Pow2Add(8, 8 * (k - 1));
    }
  }

  /** A store of `len` bytes reads back as the value modulo the width. */
  lemma FromBEOfStore(n: int, len: nat)
    ensures FromBE(BE(n, len)) == n % Pow256(len)
  {
    BEMod(n, len);
    FromBEOfBE(n % Pow256(len), len);
  }
}
