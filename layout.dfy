/** The fixed layout of the engine's byte pool: a Bloom bitmap at offset 0, a
    table of `uint32_t` bucket heads after it, and the append-only data zone
    after that. Also the two encodings read and written in the pool: the
    little-endian `uint32_t` word and the single Bloom bit. */
module Layout {
  import opened Hashes

  // The constants are written as numbers, so that the arithmetic on them
  // stays linear for the verifier; `LayoutConstants` states how they derive
  // from one another.

  /** Number of buckets (`BUCKET_COUNT`, 8 * 1024). */
  const BUCKET_COUNT: nat := 8192
  /** Number of Bloom bits (`BLOOM_SIZE`, 1 << 20). */
  const BLOOM_SIZE: nat := 0x10_0000
  /** Total pool size in bytes (`POOL_SIZE`, 64 MiB). */
  const POOL_SIZE: nat := 0x400_0000
  /** `sizeof(uint32_t)`. */
  const WORD_SIZE: nat := 4
  /** 2^32: every `uint32_t` is below it. */
  const WORD_LIMIT: nat := 0x1_0000_0000

  /** The Bloom bitmap starts the pool. */
  const BLOOM_OFF: nat := 0
  /** The bucket table follows the bitmap. */
  const BUCKET_OFF: nat := 0x2_0000
  /** The data zone follows the bucket table. */
  const DATA_OFF: nat := 0x2_8000
  /** `sizeof(Entry)`: the three `uint32_t` fields klen, vlen and next. */
  const HEADER_SIZE: nat := 12
  /** Entries start on multiples of this. */
  const ALIGNMENT: nat := 8

  /** The zones follow one another inside the pool, each as large as its
      contents, and every offset into the pool fits in a `uint32_t` bucket
      or next field. */
  lemma {:induction false} LayoutConstants()
    ensures BUCKET_OFF == BLOOM_OFF + BLOOM_SIZE / 8
    ensures DATA_OFF == BUCKET_OFF + BUCKET_COUNT * WORD_SIZE
    ensures HEADER_SIZE == 3 * WORD_SIZE
    ensures POOL_SIZE == 64 * 1024 * 1024
    ensures BLOOM_OFF < BUCKET_OFF < DATA_OFF < POOL_SIZE < WORD_LIMIT
    ensures DATA_OFF % ALIGNMENT == 0
  {
  }

  /** `(sizeof(Entry) + klen + vlen + 7) & ~7`. Clearing the low three bits
      of a non-negative number rounds it down to a multiple of 8, so the
      entry takes its header and bytes rounded up to the alignment. */
  function EntrySize(klen: nat, vlen: nat): (r: nat)
    ensures r % 8 == 0
    ensures HEADER_SIZE + klen + vlen <= r < HEADER_SIZE + klen + vlen + ALIGNMENT
  {
    var n := HEADER_SIZE + klen + vlen + 7;
    n - n % 8
  }

  // ---------------------------------------------------------------------------
  // Little-endian uint32_t words

  /** The `uint32_t` stored little-endian at `m[off..off + 4]`: the number
      whose base-256 digits are those bytes, least significant first. */
  function WordAt(m: seq<uint8>, off: nat): (r: nat)
    requires off + WORD_SIZE <= |m|
    ensures r < WORD_LIMIT
  {
    m[off] as nat + 256 * (m[off + 1] as nat + 256 * (m[off + 2] as nat + 256 * m[off + 3] as nat))
  }

  /** The four bytes that store `x`, least significant first. */
  function WordBytes(x: nat): (r: seq<uint8>)
    requires x < WORD_LIMIT
    ensures |r| == WORD_SIZE
  {
    [(x % 256) as uint8, (x / 256 % 256) as uint8, (x / 65536 % 256) as uint8, (x / 16777216) as uint8]
  }

  /** Every `uint32_t` is the little-endian number of its four digits. */
  lemma {:induction false} Digits(x: nat)
    requires x < WORD_LIMIT
    ensures x / 16777216 < 256
    ensures x == x % 256 + 256 * (x / 256 % 256 + 256 * (x / 65536 % 256 + 256 * (x / 16777216)))
  {
    var y := x / 256;
    var z := y / 256;
    assert x == x % 256 + 256 * y;
    assert y == y % 256 + 256 * z;
    assert z == z % 256 + 256 * (z / 256);
    assert z == x / 65536;
    assert z / 256 == x / 16777216;
  }

  /** The digits of a little-endian number are the ones it was made of. */
  lemma {:induction false} DigitsOf(d0: nat, d1: nat, d2: nat, d3: nat)
    requires d0 < 256 && d1 < 256 && d2 < 256 && d3 < 256
    ensures var x := d0 + 256 * (d1 + 256 * (d2 + 256 * d3));
      x % 256 == d0 && x / 256 % 256 == d1 && x / 65536 % 256 == d2 && x / 16777216 == d3
  {
    var x := d0 + 256 * (d1 + 256 * (d2 + 256 * d3));
    var hi := d1 + 256 * (d2 + 256 * d3);
    assert x == d0 + 256 * hi;
    assert x % 256 == d0 && x / 256 == hi;
    assert hi % 256 == d1 && hi / 256 == d2 + 256 * d3;
    assert x / 65536 == hi / 256;
    assert (d2 + 256 * d3) % 256 == d2 && (d2 + 256 * d3) / 256 == d3;
    assert x / 16777216 == (d2 + 256 * d3) / 256;
  }

  /** Reading back the four bytes written for `x` gives `x`. */
  lemma {:induction false} WordStoreLoad(m: seq<uint8>, off: nat, x: nat)
    requires off + WORD_SIZE <= |m| && x < WORD_LIMIT
    requires forall k :: 0 <= k < WORD_SIZE ==> m[off + k] == WordBytes(x)[k]
    ensures WordAt(m, off) == x
  {
    Digits(x);
    assert m[off] == WordBytes(x)[0] && m[off + 1] == WordBytes(x)[1];
    assert m[off + 2] == WordBytes(x)[2] && m[off + 3] == WordBytes(x)[3];
  }

  /** Writing back the word read at `off` writes the same four bytes. */
  lemma {:induction false} WordLoadStore(m: seq<uint8>, off: nat)
    requires off + WORD_SIZE <= |m|
    ensures WordBytes(WordAt(m, off)) == m[off..off + WORD_SIZE]
  {
    DigitsOf(m[off] as nat, m[off + 1] as nat, m[off + 2] as nat, m[off + 3] as nat);
  }

  /** A word reads the same in two pools that agree on its four bytes. */
  lemma {:induction false} WordFrame(m: seq<uint8>, m': seq<uint8>, off: nat)
    requires off + WORD_SIZE <= |m| && off + WORD_SIZE <= |m'|
    requires forall k :: off <= k < off + WORD_SIZE ==> m[k] == m'[k]
    ensures WordAt(m, off) == WordAt(m', off)
  {
    assert m[off] == m'[off] && m[off + 1] == m'[off + 1];
    assert m[off + 2] == m'[off + 2] && m[off + 3] == m'[off + 3];
  }

  // ---------------------------------------------------------------------------
  // Bucket table

  /** `h % BUCKET_COUNT`: the bucket a hash falls in. */
  function BucketIndex(h: U32): (b: nat)
    ensures b < BUCKET_COUNT
  {
    h % 8192
  }

  /** `fnv1a(key, klen) % BUCKET_COUNT`: the bucket of a key. */
  function BucketOf(key: Bytes): (b: nat)
    ensures b < BUCKET_COUNT
  {
    BucketIndex(Fnv1a(key))
  }

  /** Where `buckets[b]` lives in the pool. */
  function BucketSlot(b: nat): (off: nat)
    requires b < BUCKET_COUNT
    ensures BUCKET_OFF <= off && off + WORD_SIZE <= DATA_OFF
    ensures off % 4 == 0 && (off - BUCKET_OFF) / 4 == b
  {
    BUCKET_OFF + 4 * b
  }

  /** Distinct buckets occupy disjoint slots. */
  lemma {:induction false} BucketSlotsDisjoint(b: nat, c: nat, k: nat)
    requires b < BUCKET_COUNT && c < BUCKET_COUNT && b != c
    requires BucketSlot(c) <= k < BucketSlot(c) + WORD_SIZE
    ensures !(BucketSlot(b) <= k < BucketSlot(b) + WORD_SIZE)
  {
  }

  // ---------------------------------------------------------------------------
  // Bloom bitmap

  /** `h % BLOOM_SIZE`: bit index whose byte `h >> 3` lies in the Bloom zone. */
  function BitIndex(h: U32): (p: nat)
    ensures p < BLOOM_SIZE && BLOOM_OFF <= p / 8 < BUCKET_OFF
  {
    h % 0x10_0000
  }

  /** The three bits a key sets and tests. */
  function BloomBits(key: Bytes): (bits: seq<nat>)
    ensures |bits| == 3
    ensures forall i :: 0 <= i < 3 ==> bits[i] < BLOOM_SIZE
  {
    [BitIndex(Fnv1a(key)), BitIndex(Hash2(key)), BitIndex(Hash3(key))]
  }

  /** `1 << (p & 7)`: the bit of its byte that stands for bit `p`. */
  function Mask(p: nat): bv8
  {
    1 << (p % 8)
  }

  /** `x & 1 << (p & 7)` is not zero. */
  predicate ByteBit(x: uint8, p: nat)
  {
    (x as bv8) & Mask(p) != 0
  }

  /** Bit `p` of the bitmap at the start of `m` is set. */
  predicate BitSet(m: seq<uint8>, p: nat)
    requires p < BLOOM_SIZE && BUCKET_OFF <= |m|
  {
    ByteBit(m[p / 8], p)
  }

  /** `x | 1 << (p & 7)`. */
  function OrMask(x: uint8, p: nat): uint8
  {
    ByteBound((x as bv8) | Mask(p));
    ((x as bv8) | Mask(p)) as uint8
  }

  /** `bloom[p >> 3] |= 1 << (p & 7)`. */
  function SetBit(m: seq<uint8>, p: nat): (r: seq<uint8>)
    requires p < BLOOM_SIZE && BUCKET_OFF <= |m|
    ensures |r| == |m|
    ensures forall i :: 0 <= i < |m| && i != p / 8 ==> r[i] == m[i]
  {
    m[p / 8 := OrMask(m[p / 8], p)]
  }

  /** `OrMask` is the bitwise or of the byte with the mask. */
  lemma {:induction false} OrMaskBits(x: uint8, p: nat)
    ensures OrMask(x, p) as bv8 == (x as bv8) | Mask(p)
  {
  }

  /** Or-ing in the mask of bit `q` sets that bit of the byte and no other. */
  lemma {:induction false} OrMaskExact(x: uint8, q: nat, p: nat)
    ensures ByteBit(OrMask(x, q), p) <==> ByteBit(x, p) || p % 8 == q % 8
  {
    OrMaskBits(x, q);
    MaskOr(x as bv8, q, p);
  }

  lemma {:induction false} MaskOr(b: bv8, q: nat, p: nat)
    ensures (b | Mask(q)) & Mask(p) != 0 <==> b & Mask(p) != 0 || p % 8 == q % 8
  {
  }

  /** Two bit indexes in the same byte are equal when their offsets in it are. */
  lemma {:induction false} SameByte(q: nat, p: nat)
    requires p / 8 == q / 8
    ensures p % 8 == q % 8 <==> p == q
  {
  }

  /** Setting a bit of another byte leaves bit `p` as it was. */
  lemma {:induction false} SetBitOther(m: seq<uint8>, q: nat, p: nat)
    requires p < BLOOM_SIZE && q < BLOOM_SIZE && BUCKET_OFF <= |m| && p / 8 != q / 8
    ensures BitSet(SetBit(m, q), p) == BitSet(m, p)
  {
    assert SetBit(m, q)[p / 8] == m[p / 8];
  }

  /** Setting bit `q` sets exactly bit `q`. */
  lemma {:induction false} SetBitExact(m: seq<uint8>, q: nat, p: nat)
    requires p < BLOOM_SIZE && q < BLOOM_SIZE && BUCKET_OFF <= |m|
    ensures BitSet(SetBit(m, q), p) <==> BitSet(m, p) || p == q
  {
    if p / 8 == q / 8 {
      assert SetBit(m, q)[p / 8] == OrMask(m[q / 8], q);
      OrMaskExact(m[q / 8], q, p);
      SameByte(q, p);
    } else {
      SetBitOther(m, q, p);
    }
  }

  /** `bloom_maybe`: all three bits of the key are set. */
  predicate BloomHas(m: seq<uint8>, key: Bytes)
    requires BUCKET_OFF <= |m|
  {
    var bits := BloomBits(key);
    BitSet(m, bits[0]) && BitSet(m, bits[1]) && BitSet(m, bits[2])
  }

  /** `bloom_add`: the three bits of the key set in turn. */
  function BloomInsert(m: seq<uint8>, key: Bytes): (r: seq<uint8>)
    requires BUCKET_OFF <= |m|
    ensures |r| == |m|
    ensures forall i :: BUCKET_OFF <= i < |m| ==> r[i] == m[i]
  {
    var bits := BloomBits(key);
    SetBit(SetBit(SetBit(m, bits[0]), bits[1]), bits[2])
  }

  /** Adding a key sets exactly the key's bits on top of those already set:
      the filter only grows. */
  lemma {:induction false} BloomInsertBits(m: seq<uint8>, key: Bytes, p: nat)
    requires BUCKET_OFF <= |m| && p < BLOOM_SIZE
    ensures BitSet(BloomInsert(m, key), p) <==> BitSet(m, p) || p in BloomBits(key)
  {
    var bits := BloomBits(key);
    var m1 := SetBit(m, bits[0]);
    var m2 := SetBit(m1, bits[1]);
    SetBitExact(m, bits[0], p);
    SetBitExact(m1, bits[1], p);
    SetBitExact(m2, bits[2], p);
  }

  /** No false negative: right after a key is added the filter reports it. */
  lemma {:induction false} BloomInsertHas(m: seq<uint8>, key: Bytes)
    requires BUCKET_OFF <= |m|
    ensures BloomHas(BloomInsert(m, key), key)
  {
    var bits := BloomBits(key);
    BloomInsertBits(m, key, bits[0]);
    BloomInsertBits(m, key, bits[1]);
    BloomInsertBits(m, key, bits[2]);
  }

  /** Monotonicity: a key reported before an add is still reported after it. */
  lemma {:induction false} BloomInsertKeeps(m: seq<uint8>, key: Bytes, other: Bytes)
    requires BUCKET_OFF <= |m|
    requires BloomHas(m, other)
    ensures BloomHas(BloomInsert(m, key), other)
  {
    var bits := BloomBits(other);
    BloomInsertBits(m, key, bits[0]);
    BloomInsertBits(m, key, bits[1]);
    BloomInsertBits(m, key, bits[2]);
  }

  /** A bit reads the same in two pools that agree on the bitmap. */
  lemma {:induction false} BitFrame(m: seq<uint8>, m': seq<uint8>, p: nat)
    requires BUCKET_OFF <= |m| && BUCKET_OFF <= |m'| && p < BLOOM_SIZE
    requires forall i :: 0 <= i < BUCKET_OFF ==> m[i] == m'[i]
    ensures BitSet(m, p) <==> BitSet(m', p)
  {
    assert m[p / 8] == m'[p / 8];
  }

  /** The filter's answer depends on the bitmap bytes only. */
  lemma {:induction false} BloomFrame(m: seq<uint8>, m': seq<uint8>, key: Bytes)
    requires BUCKET_OFF <= |m| && BUCKET_OFF <= |m'|
    requires forall i :: 0 <= i < BUCKET_OFF ==> m[i] == m'[i]
    ensures BloomHas(m, key) <==> BloomHas(m', key)
  {
    var bits := BloomBits(key);
    BitFrame(m, m', bits[0]);
    BitFrame(m, m', bits[1]);
    BitFrame(m, m', bits[2]);
  }
}
