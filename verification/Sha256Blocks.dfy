/**
 The byte interface of the SHA-256 compression function: big-endian loads and stores around
 the word-level rounds, and the scalar block loop of sha2.c.
 */
module Sha256Blocks {
  import opened Bits
  import opened Sha2
  import opened Sha256Rounds

  function Word(b0: int, b1: int, b2: int, b3: int): (w: int)
    ensures 0 <= b0 < 256 && 0 <= b1 < 256 && 0 <= b2 < 256 && 0 <= b3 < 256 ==> 0 <= w < 0x1_0000_0000
  {
    256 * (256 * (256 * b0 + b1) + b2) + b3
  }

  /** `load_bigendian_32(b + 4 * j)`. */
  function WordAt(b: Bytes, j: nat): word
    requires 4 * j + 4 <= |b|
  {
    Word(b[4 * j], b[4 * j + 1], b[4 * j + 2], b[4 * j + 3])
  }

  /** The sixteen message words of a block. */
  function Words(block: Bytes): (r: seq<word>)
    requires |block| == 64
    ensures |r| == 16
  {
    seq(16, j requires 0 <= j < 16 => WordAt(block, j))
  }

  function RegsOf(b: Bytes): Regs
    requires |b| == 32
  {
    Regs(WordAt(b, 0), WordAt(b, 1), WordAt(b, 2), WordAt(b, 3), WordAt(b, 4), WordAt(b, 5), WordAt(b, 6), WordAt(b, 7))
  }

  /** `store_bigendian_32`. */
  function Store(x: word): (r: Bytes)
    ensures |r| == 4
  {
    [x / 256 / 256 / 256, x / 256 / 256 % 256, x / 256 % 256, x % 256]
  }

  function BytesOf(r: Regs): (b: Bytes)
    ensures |b| == 32
  {
    Store(r.a) + Store(r.b) + Store(r.c) + Store(r.d) + Store(r.e) + Store(r.f) + Store(r.g) + Store(r.h)
  }

  lemma StoreParts(b0: byte, b1: byte, b2: byte, b3: byte)
    ensures Store(Word(b0, b1, b2, b3)) == [b0, b1, b2, b3]
  {
    var x := Word(b0, b1, b2, b3);
    assert x / 256 == 256 * (256 * b0 as int + b1) + b2 && x % 256 == b3;
    assert x / 256 / 256 == 256 * b0 as int + b1 && x / 256 % 256 == b2;
  }

  lemma StoreOfWord(b: Bytes, j: nat)
    requires 4 * j + 4 <= |b|
    ensures Store(WordAt(b, j)) == b[4 * j..4 * j + 4]
  {
    StoreParts(b[4 * j], b[4 * j + 1], b[4 * j + 2], b[4 * j + 3]);
  }

  lemma WordOfStore(b: Bytes, j: nat, x: word)
    requires 4 * j + 4 <= |b| && b[4 * j..4 * j + 4] == Store(x)
    ensures WordAt(b, j) == x
  {
    var s := b[4 * j..4 * j + 4];
    assert s[0] == b[4 * j] && s[1] == b[4 * j + 1] && s[2] == b[4 * j + 2] && s[3] == b[4 * j + 3];
  }

  /** A stored chaining value loads back. */
  lemma RegsOfBytes(r: Regs)
    ensures RegsOf(BytesOf(r)) == r
  {
    hide Store, WordAt;
    var b := BytesOf(r);
    WordOfStore(b, 0, r.a);
    WordOfStore(b, 1, r.b);
    WordOfStore(b, 2, r.c);
    WordOfStore(b, 3, r.d);
    WordOfStore(b, 4, r.e);
    WordOfStore(b, 5, r.f);
    WordOfStore(b, 6, r.g);
    WordOfStore(b, 7, r.h);
  }

  /** A loaded chaining value stores back. */
  lemma BytesOfRegs(b: Bytes)
    requires |b| == 32
    ensures BytesOf(RegsOf(b)) == b
  {
    hide Store, WordAt;
    StoreOfWord(b, 0);
    StoreOfWord(b, 1);
    StoreOfWord(b, 2);
    StoreOfWord(b, 3);
    StoreOfWord(b, 4);
    StoreOfWord(b, 5);
    StoreOfWord(b, 6);
    StoreOfWord(b, 7);
  }

  /** The hasher whose compression function is the SHA-256 rounds. */
  ghost predicate IsSha256(h: Hasher, o: Ops) {
    h.v == SHA256 && forall s: Bytes, b: Bytes | |s| == 32 && |b| == 64 ::
      h.compress(s, b) == BytesOf(Compress(o, RegsOf(s), Words(b)))
  }

  ghost function CompressBytes(o: Ops, s: Bytes, b: Bytes): (r: Bytes)
    ensures |r| == 32
  {
    if |s| == 32 && |b| == 64 then BytesOf(Compress(o, RegsOf(s), Words(b))) else Zeros(32)
  }

  /** There is one for every initial value. */
  ghost function Sha256Of(o: Ops, iv: Bytes): (h: Hasher)
    requires |iv| == 32
    ensures IsSha256(h, o) && h.iv == iv
  {
    RawHasher(SHA256, iv, (s, b) => CompressBytes(o, s, b))
  }

  lemma CompressIs(h: Hasher, o: Ops, r: Regs, b: Bytes)
    requires IsSha256(h, o) && |b| == 64
    ensures h.compress(BytesOf(r), b) == BytesOf(Compress(o, r, Words(b)))
  {
    hide BytesOf, RegsOf, Words, Compress;
    RegsOfBytes(r);
  }

  /**
   `crypto_hashblocks_sha256_ref`: the registers are loaded once, every whole block is folded in,
   and they are stored once.
   */
  method HashBlocksRef(h: Hasher, o: Ops, state: array<byte>, data: Bytes)
    requires IsSha256(h, o) && state.Length == 40
    modifies state
    ensures state[..32] == Absorb(h, old(state[..32]), data)
    ensures state[32..] == old(state[32..])
  {
    hide BytesOf, RegsOf, Words, Compress, WordAt;
    var r := RegsOf(state[..32]);
    BytesOfRegs(state[..32]);
    var i := 0;
    while |data| - i >= 64
      invariant 0 <= i <= |data|
      invariant state[..] == old(state[..])
      invariant Absorb(h, BytesOf(r), data[i..]) == Absorb(h, old(state[..32]), data)
    {
      CompressIs(h, o, r, data[i..i + 64]);
      assert data[i..][..64] == data[i..i + 64] && data[i..][64..] == data[i + 64..];
      r := ScalarCompress(o, r, Words(data[i..i + 64]));
      i := i + 64;
    }
    var b := BytesOf(r);
    forall j | 0 <= j < 32 { state[j] := b[j]; }
    assert state[..32] == b;
  }
}
