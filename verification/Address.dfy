/**
 address.c: the hash address. The engine works on the fields (`Adrs`); this module proves
 that the byte-level setters, writing in place into the caller's 32-byte buffer, keep the
 22 hashed bytes equal to the encoding of those fields, and that the encoding is injective.
 A C address pointer is a pair (buffer, offset), so that the eight addresses of the vector
 code share one buffer as they do in the source.
 */
module Address {
  import opened Bits

  /** SPX_ADDR_TYPE constants (address.h). */
  const WOTS := 0
  const WOTSPK := 1
  const HASHTREE := 2
  const FORSTREE := 3
  const FORSPK := 4
  const WOTSPRF := 5
  const FORSPRF := 6

  /**
   The fields of an address. `c` is the byte that holds either the chain number or the tree
   height, `w` the word whose last byte is the hash number and which as a whole is the node
   index: the source overlays them (sha2_offsets.h).
   */
  datatype Adrs = Adrs(layer: nat, tree: nat, kind: nat, kp: nat, c: nat, w: nat) {

    function SetLayer(v: nat): Adrs { this.(layer := v % 0x100) }

    function SetTree(v: nat): Adrs { this.(tree := v % 0x1_0000_0000_0000_0000) }

    function SetType(v: nat): Adrs { this.(kind := v % 0x100) }

    function SetKeypair(v: nat): Adrs { this.(kp := v % 0x1_0000_0000) }

    function SetChain(v: nat): Adrs { this.(c := v % 0x100) }

    /** Overwrites the last byte of the word only. */
    function SetHash(v: nat): Adrs { this.(w := w / 0x100 * 0x100 + v % 0x100) }

    function SetHeight(v: nat): Adrs { this.(c := v % 0x100) }

    function SetIndex(v: int): Adrs { this.(w := v % 0x1_0000_0000) }

    function CopySubtree(src: Adrs): Adrs { this.(layer := src.layer, tree := src.tree) }

    function CopyKeypair(src: Adrs): Adrs { this.(layer := src.layer, tree := src.tree, kp := src.kp) }

    predicate InRange() {
      layer < 0x100 && tree < 0x1_0000_0000_0000_0000 && kind < 0x100 && kp < 0x1_0000_0000 && c < 0x100
        && w < 0x1_0000_0000
    }
  }

  /** `uint32_t addr[8] = {0}`. */
  const ZERO := Adrs(0, 0, 0, 0, 0, 0)

  /** A `uint32_t addr[8]` variable, passed by pointer and written through by callees. */
  class Addr {
    var f: Adrs

    constructor ()
      ensures f == ZERO
    {
      f := ZERO;
    }
  }

  /** The fields held by the 22 hashed bytes of an address. */
  function Fields(s: Bytes): (r: Adrs)
    requires |s| == 22
  {
    Adrs(s[0], FromBE(s[1..9]), s[9], FromBE(s[10..14]), s[17], FromBE(s[18..22]))
  }

  /** Bytes 14 to 16 belong to no field and stay as they were initialised, zero. */
  predicate Clear(s: Bytes)
    requires |s| == 22
  {
    s[14] == 0 && s[15] == 0 && s[16] == 0
  }

  lemma Widths()
    ensures Pow256(4) == 0x1_0000_0000 && Pow256(8) == 0x1_0000_0000_0000_0000
  {
    assert Pow256(2) == 0x1_0000;
    assert Pow256(4) == 0x1_0000 * Pow256(2);
    assert Pow256(6) == 0x1_0000 * Pow256(4);
  }

  /** The 22 bytes hashed for the fields `a`. */
  function Enc(a: Adrs): (r: Bytes)
    ensures |r| == 22
  {
    [a.layer % 256] + BE(a.tree, 8) + ([a.kind % 256] + BE(a.kp, 4)) + ([0, 0, 0, a.c % 256] + BE(a.w, 4))
  }

  /**
   The two directions of domain separation: `Fields` reads every field back out of its
   encoding, so different fields are never hashed under the same bytes ...
   */
  lemma FieldsOfEnc(a: Adrs)
    requires a.InRange()
    ensures Fields(Enc(a)) == a && Clear(Enc(a))
  {
    Widths();
    FromBEOfBE(a.tree, 8);
    FromBEOfBE(a.kp, 4);
    FromBEOfBE(a.w, 4);
    assert Enc(a)[1..9] == BE(a.tree, 8);
    assert Enc(a)[10..14] == BE(a.kp, 4);
    assert Enc(a)[18..22] == BE(a.w, 4);
  }

  /** ... and a clear buffer hashes exactly the encoding of its fields, whatever its history. */
  lemma EncOfFields(s: Bytes)
    requires |s| == 22 && Clear(s)
    ensures Enc(Fields(s)) == s
  {
    hide BE, FromBE;
    BEOfFromBE(s[1..9]);
    BEOfFromBE(s[10..14]);
    BEOfFromBE(s[18..22]);
    assert s == [s[0]] + s[1..9] + ([s[9]] + s[10..14]) + ([s[14], s[15], s[16], s[17]] + s[18..22]);
  }

  /** What a setter leaves alone: every byte of the buffer outside `[lo, hi)`. */
  twostate predicate SameOutside(buf: array<byte>, lo: nat, hi: nat)
    reads buf
  {
    forall j | 0 <= j < buf.Length && !(lo <= j < hi) :: buf[j] == old(buf[j])
  }

  /** utils.c, `ull_to_bytes`. */
  method UllToBytes(buf: array<byte>, off: nat, len: nat, v: nat)
    requires off + len <= buf.Length
    modifies buf
    ensures buf[off..off + len] == BE(v, len)
    ensures SameOutside(buf, off, off + len)
  {
    var i, x := len, v;
    while i > 0
      invariant 0 <= i <= len
      invariant BE(v, len) == BE(x, i) + buf[off + i..off + len]
      invariant SameOutside(buf, off, off + len)
    {
      i := i - 1;
      buf[off + i] := x % 256;
      x := x / 256;
    }
  }

  /** utils.c, `u32_to_bytes`. */
  method U32ToBytes(buf: array<byte>, off: nat, v: int)
    requires off + 4 <= buf.Length
    modifies buf
    ensures buf[off..off + 4] == BE(v, 4)
    ensures SameOutside(buf, off, off + 4)
  {
    BE4(v);
    buf[off] := v / 0x100_0000 % 256;
    buf[off + 1] := v / 0x1_0000 % 256;
    buf[off + 2] := v / 0x100 % 256;
    buf[off + 3] := v % 256;
  }

  /** utils.c, `bytes_to_ull`: the or of shifted bytes, most significant first. */
  method BytesToUll(b: Bytes) returns (r: nat)
    ensures r == FromBE(b)
  {
    r := 0;
    var i := 0;
    while i < |b|
      invariant 0 <= i <= |b|
      invariant r == FromBE(b[..i])
    {
      assert b[..i + 1][..i] == b[..i];
      r := 256 * r + b[i];
      i := i + 1;
    }
    assert b[..i] == b;
  }

  /** The 22 hashed bytes of the address at `off`. */
  function Hashed(buf: array<byte>, off: nat): (r: Bytes)
    requires off + 32 <= buf.Length
    reads buf
    ensures |r| == 22
  {
    buf[off..off + 22]
  }

  /** The fields of the address at `off`. */
  function At(buf: array<byte>, off: nat): Adrs
    requires off + 32 <= buf.Length
    reads buf
  {
    Adrs(buf[off], FromBE(buf[off + 1..off + 9]), buf[off + 9], FromBE(buf[off + 10..off + 14]), buf[off + 17],
      FromBE(buf[off + 18..off + 22]))
  }

  lemma SliceOfSlice(s: Bytes, off: nat, len: nat, lo: nat, hi: nat)
    requires off + len <= |s| && lo <= hi <= len
    ensures s[off..off + len][lo..hi] == s[off + lo..off + hi]
  {
    var l, r := s[off..off + len][lo..hi], s[off + lo..off + hi];
    assert forall k | 0 <= k < hi - lo :: l[k] == s[off..off + len][lo + k] == s[off + (lo + k)] == r[k];
  }

  /** The bytes of the address at `off` that belong to no field are as they were initialised. */
  predicate ClearAt(buf: array<byte>, off: nat)
    requires off + 32 <= buf.Length
    reads buf
  {
    buf[off + 14..off + 17] == [0, 0, 0]
  }

  /** The fields of an address are those of the bytes hashed. */
  lemma AtIsFields(buf: array<byte>, off: nat)
    requires off + 32 <= buf.Length
    ensures At(buf, off) == Fields(Hashed(buf, off))
  {
    var s := buf[..];
    SliceOfSlice(s, off, 22, 1, 9);
    SliceOfSlice(s, off, 22, 10, 14);
    SliceOfSlice(s, off, 22, 18, 22);
    assert s[off..off + 22] == Hashed(buf, off);
    assert s[off + 1..off + 9] == buf[off + 1..off + 9];
    assert s[off + 10..off + 14] == buf[off + 10..off + 14];
    assert s[off + 18..off + 22] == buf[off + 18..off + 22];
  }

  /** A clear address hashes the encoding of its fields. */
  lemma HashedIsEnc(buf: array<byte>, off: nat)
    requires off + 32 <= buf.Length && ClearAt(buf, off)
    ensures Hashed(buf, off) == Enc(At(buf, off))
  {
    hide Fields, Enc;
    AtIsFields(buf, off);
    assert Clear(Hashed(buf, off)) by {
      var b := buf[off + 14..off + 17];
      assert b[0] == 0 && b[1] == 0 && b[2] == 0;
    }
    EncOfFields(Hashed(buf, off));
  }

  /** The fields at `off` became `f`, and no byte that belongs to no field was written. */
  twostate predicate Became(buf: array<byte>, off: nat, f: Adrs)
    requires off + 32 <= buf.Length
    reads buf
  {
    At(buf, off) == f && SameOutside(buf, off, off + 22) && buf[off + 14..off + 17] == old(buf[off + 14..off + 17])
  }

  method SetLayerAddr(buf: array<byte>, off: nat, layer: nat)
    requires off + 32 <= buf.Length
    modifies buf
    ensures Became(buf, off, old(At(buf, off)).SetLayer(layer))
  {
    buf[off] := layer % 256;
    assert buf[off + 1..off + 9] == old(buf[off + 1..off + 9])
      && buf[off + 10..off + 14] == old(buf[off + 10..off + 14]);
    assert buf[off + 18..off + 22] == old(buf[off + 18..off + 22]);
  }

  method SetTreeAddr(buf: array<byte>, off: nat, tree: nat)
    requires off + 32 <= buf.Length
    modifies buf
    ensures Became(buf, off, old(At(buf, off)).SetTree(tree))
  {
    UllToBytes(buf, off + 1, 8, tree);
    Widths();
    FromBEOfStore(tree, 8);
    assert buf[off + 10..off + 14] == old(buf[off + 10..off + 14])
      && buf[off + 18..off + 22] == old(buf[off + 18..off + 22]);
  }

  method SetType(buf: array<byte>, off: nat, kind: nat)
    requires off + 32 <= buf.Length
    modifies buf
    ensures Became(buf, off, old(At(buf, off)).SetType(kind))
  {
    buf[off + 9] := kind % 256;
    assert buf[off + 1..off + 9] == old(buf[off + 1..off + 9])
      && buf[off + 10..off + 14] == old(buf[off + 10..off + 14])
      && buf[off + 18..off + 22] == old(buf[off + 18..off + 22]);
  }

  method SetKeypairAddr(buf: array<byte>, off: nat, kp: nat)
    requires off + 32 <= buf.Length
    modifies buf
    ensures Became(buf, off, old(At(buf, off)).SetKeypair(kp))
  {
    U32ToBytes(buf, off + 10, kp);
    Widths();
    FromBEOfStore(kp, 4);
    assert buf[off + 1..off + 9] == old(buf[off + 1..off + 9])
      && buf[off + 18..off + 22] == old(buf[off + 18..off + 22]);
  }

  method SetChainAddr(buf: array<byte>, off: nat, chain: nat)
    requires off + 32 <= buf.Length
    modifies buf
    ensures Became(buf, off, old(At(buf, off)).SetChain(chain))
  {
    buf[off + 17] := chain % 256;
    assert buf[off + 1..off + 9] == old(buf[off + 1..off + 9])
      && buf[off + 10..off + 14] == old(buf[off + 10..off + 14])
      && buf[off + 18..off + 22] == old(buf[off + 18..off + 22]);
  }

  method SetHashAddr(buf: array<byte>, off: nat, hash: nat)
    requires off + 32 <= buf.Length
    modifies buf
    ensures Became(buf, off, old(At(buf, off)).SetHash(hash))
  {
    buf[off + 21] := hash % 256;
    assert buf[off + 1..off + 9] == old(buf[off + 1..off + 9])
      && buf[off + 10..off + 14] == old(buf[off + 10..off + 14]);
    assert buf[off + 18..off + 22][..3] == old(buf[off + 18..off + 22])[..3];
  }

  method SetTreeHeight(buf: array<byte>, off: nat, height: nat)
    requires off + 32 <= buf.Length
    modifies buf
    ensures Became(buf, off, old(At(buf, off)).SetHeight(height))
  {
    buf[off + 17] := height % 256;
    assert buf[off + 1..off + 9] == old(buf[off + 1..off + 9])
      && buf[off + 10..off + 14] == old(buf[off + 10..off + 14])
      && buf[off + 18..off + 22] == old(buf[off + 18..off + 22]);
  }

  method SetTreeIndex(buf: array<byte>, off: nat, index: int)
    requires off + 32 <= buf.Length
    modifies buf
    ensures Became(buf, off, old(At(buf, off)).SetIndex(index))
  {
    U32ToBytes(buf, off + 18, index);
    Widths();
    FromBEOfStore(index, 4);
    assert buf[off + 1..off + 9] == old(buf[off + 1..off + 9])
      && buf[off + 10..off + 14] == old(buf[off + 10..off + 14]);
  }

  /** Two addresses that do not overlap. */
  predicate Apart(dst: array<byte>, off: nat, src: array<byte>, srcOff: nat) {
    dst != src || off + 32 <= srcOff || srcOff + 32 <= off
  }

  method CopySubtreeAddr(dst: array<byte>, off: nat, src: array<byte>, srcOff: nat)
    requires off + 32 <= dst.Length && srcOff + 32 <= src.Length && Apart(dst, off, src, srcOff)
    modifies dst
    ensures Became(dst, off, old(At(dst, off)).CopySubtree(old(At(src, srcOff))))
  {
    ghost var from := src[srcOff + 1..srcOff + 9];
    forall j | 0 <= j < 9 { dst[off + j] := src[srcOff + j]; }
    assert dst[off + 1..off + 9] == from;
    assert dst[off + 10..off + 14] == old(dst[off + 10..off + 14])
      && dst[off + 18..off + 22] == old(dst[off + 18..off + 22]);
  }

  method CopyKeypairAddr(dst: array<byte>, off: nat, src: array<byte>, srcOff: nat)
    requires off + 32 <= dst.Length && srcOff + 32 <= src.Length && Apart(dst, off, src, srcOff)
    modifies dst
    ensures Became(dst, off, old(At(dst, off)).CopyKeypair(old(At(src, srcOff))))
  {
    ghost var tree, kp := src[srcOff + 1..srcOff + 9], src[srcOff + 10..srcOff + 14];
    forall j | 0 <= j < 9 { dst[off + j] := src[srcOff + j]; }
    forall j | 10 <= j < 14 { dst[off + j] := src[srcOff + j]; }
    assert dst[off + 1..off + 9] == tree && dst[off + 10..off + 14] == kp;
    assert dst[off + 18..off + 22] == old(dst[off + 18..off + 22]);
  }
}
