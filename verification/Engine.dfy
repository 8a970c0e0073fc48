/**
 The parameters and the hash functions of one instantiation. Nothing is assumed of the hash
 functions but the length of their output: every theorem holds for all of them.
 */
module Engine {
  import opened Bits
  import opened Address

  /**
   Parameters of a profile (params-sphincs-sha2-128s-bounded30.h and sign_stats.h): `n` hash
   bytes, `d` layers of trees of height `h`, `trees` signed FORS trees of height `a` and one
   more that is compressed away, Winternitz parameter `w`, and the two signing caps.
   */
  datatype Params = Params(n: nat, h: nat, d: nat, a: nat, trees: nat, w: nat, forscCap: nat, wotscCap: nat) {

    predicate Valid() {
      && 4 <= n <= 32
      && 3 <= h <= 29 && 1 <= d <= 255 && TreeBits() <= 64
      && 3 <= a <= 24 && 1 <= trees <= 31
      && (w == 16 || w == 256)
      && 1 <= forscCap < 0x1_0000_0000
      && wotscCap <= 0xFFFF
    }

    function LogW(): nat { if w == 256 then 8 else 4 }

    /** SPX_WOTS_LEN, the message chains only. */
    function Len(): nat { if w == 256 then n else 2 * n }

    /** SPX_WOTSC_TARGET. */
    function Target(): int { (w - 1) * Len() / 2 }

    function ForsMsgBytes(): nat { (a * (trees + 1) + 7) / 8 }

    function TreeBits(): nat { if d == 0 then 0 else h * (d - 1) }

    function TreeBytes(): nat { (TreeBits() + 7) / 8 }

    function LeafBytes(): nat { (h + 7) / 8 }

    function DigestBytes(): nat { ForsMsgBytes() + TreeBytes() + LeafBytes() }

    /** The size of a signature in blocks of `n` bytes: SPX_BYTES / SPX_N. */
    function SigBlocks(): nat { 1 + trees * (a + 1) + d * (Len() + h) }
  }

  datatype RawEngine = RawEngine(
    p: Params,
    thash: (Bytes, Adrs, seq<Bytes>) -> Bytes,  // pub_seed, address, input blocks
    prf: (Bytes, Bytes, Adrs) -> Bytes,         // pub_seed, sk_seed, address
    sha256: Bytes -> Bytes,
    sha512: Bytes -> Bytes,
    prfMsg: (Bytes, Bytes, Bytes) -> Bytes,     // sk_prf, optrand, message
    hashMsg: (Bytes, Bytes, Bytes) -> Bytes)    // R, public key, message
  {
    ghost predicate Valid() {
      && p.Valid()
      && (forall s, a, b :: |thash(s, a, b)| == p.n)
      && (forall s, t, a :: |prf(s, t, a)| == p.n)
      && (forall m :: |sha256(m)| == 32)
      && (forall m :: |sha512(m)| == 64)
      && (forall s, o, m :: |prfMsg(s, o, m)| == p.n)
      && (forall r, pk, m :: |hashMsg(r, pk, m)| == p.DigestBytes())
    }
  }

  const BOUNDED30 := Params(16, 6, 5, 16, 7, 256, 1835008, 0xFFFF)

  function NullEngine(): RawEngine {
    RawEngine(BOUNDED30, (s, a, b) => Zeros(16), (s, t, a) => Zeros(16), m => Zeros(32), m => Zeros(64),
              (s, o, m) => Zeros(16), (r, pk, m) => Zeros(20))
  }

  type Engine = e: RawEngine | e.Valid() ghost witness NullEngine()

  /** spx_ctx: the public seed, and the secret seed that only the key holder has. */
  datatype Ctx = Ctx(pub: Bytes, sk: Bytes)

  /** The shipped profile meets the constraints and signs in 3680 bytes, with 32- and 64-byte keys. */
  lemma Bounded30Sizes()
    ensures BOUNDED30.Valid()
    ensures BOUNDED30.SigBlocks() * BOUNDED30.n == 3680
    ensures BOUNDED30.DigestBytes() == 20 && BOUNDED30.Target() == 2040
  {
  }
}
