/** The three 32-bit string hashes of the key-value engine: `fnv1a` picks the
    bucket and, with `hash2` and `hash3`, the three Bloom-filter bits.
    Each runs a step function over the key bytes from a seed. The
    `uint32_t` arithmetic is written out on integers: every step ends
    reduced modulo 2^32, and the exclusive-or with a key byte, which only
    touches the low byte (or, for a sign-extended byte, flips the upper
    three bytes as well), is computed byte-wise. */
module Hashes {

  /** A byte (`uint8_t`, or a `char` read as unsigned). */
  newtype uint8 = x: int | 0 <= x < 0x100

  type Bytes = seq<uint8>

  /** 2^32: `uint32_t` arithmetic wraps modulo this. */
  const U32_LIMIT: nat := 0x1_0000_0000

  /** A `uint32_t` value. */
  type U32 = x: nat | x < U32_LIMIT

  /** 32-bit FNV-1a offset basis. */
  const FNV_OFFSET_BASIS: U32 := 2166136261
  /** Seeds of `hash2` and `hash3`. */
  const HASH2_SEED: U32 := 0x5bd1e995
  const HASH3_SEED: U32 := 0x811c9dc5

  lemma {:induction false} ByteBound(b: bv8)
    ensures b as nat < 256
  {
  }

  /** 2^n. */
  function Pow2(n: nat): (r: nat)
    ensures r >= 1
  {
    if n == 0 then 1 else 2 * Pow2(n - 1)
  }

  /** Bitwise exclusive-or of the low `n` bits of `x` and `y`, bit by bit
      from the least significant one. */
  function XorBits(x: nat, y: nat, n: nat): (r: nat)
    ensures r < Pow2(n)
  {
    if n == 0 then 0
    else (if x % 2 == y % 2 then 0 else 1) + 2 * XorBits(x / 2, y / 2, n - 1)
  }

  /** Bitwise exclusive-or of two bytes. */
  function XorByte(x: nat, b: uint8): (r: nat)
    requires x < 256
    ensures r < 256
  {
    assert Pow2(8) == 256 by {
      assert Pow2(4) == 16;
    }
    XorBits(x, b as nat, 8)
  }

  /** A word made of its upper three bytes `high` and its low byte `low`. */
  lemma {:induction false} HighLow(high: nat, low: nat)
    requires high < 0x100_0000 && low < 256
    ensures high * 256 + low < U32_LIMIT
    ensures (high * 256 + low) / 256 == high && (high * 256 + low) % 256 == low
  {
  }

  /** `h ^ (uint8_t)b`: the byte, zero-extended, changes only the low byte. */
  function XorUnsigned(h: U32, b: uint8): (r: U32)
    ensures r / 256 == h / 256
    ensures r % 256 == XorByte(h % 256, b)
  {
    HighLow(h / 256, XorByte(h % 256, b));
    h / 256 * 256 + XorByte(h % 256, b)
  }

  /** A key byte read through a signed `char` and converted to `uint32_t`:
      bytes from 0x80 up are sign-extended. */
  function Signed(b: uint8): (r: U32)
    ensures r % 256 == b as nat
    ensures r / 256 == if b < 0x80 then 0 else 0xFF_FFFF
  {
    if b < 0x80 then b as nat else 0xFFFF_FF00 + b as nat
  }

  /** `h ^ key[i]` with `key[i]` a signed `char`: the low byte is xored with
      the key byte, and the upper three bytes are flipped when the byte is
      negative. */
  function XorSigned(h: U32, b: uint8): (r: U32)
    ensures r % 256 == XorByte(h % 256, b)
    ensures r / 256 == if b < 0x80 then h / 256 else 0xFF_FFFF - h / 256
  {
    var high := if b < 0x80 then h / 256 else 0xFF_FFFF - h / 256;
    HighLow(high, XorByte(h % 256, b));
    high * 256 + XorByte(h % 256, b)
  }

  /** One round of FNV-1a: xor in the (unsigned) byte, then multiply by the
      32-bit FNV prime 16777619. */
  function Fnv1aStep(h: U32, b: uint8): U32
  {
    XorUnsigned(h, b) * 16777619 % 0x1_0000_0000
  }

  /** One round of `hash2`: `((h << 5) + h) ^ key[i]`, where the shift and
      the sum wrap, so the left operand is `33 * h` modulo 2^32. */
  function Hash2Step(h: U32, b: uint8): U32
  {
    XorSigned(h * 33 % 0x1_0000_0000, b)
  }

  /** One round of `hash3`: `h * 31 + key[i]` modulo 2^32. */
  function Hash3Step(h: U32, b: uint8): U32
  {
    (h * 31 + Signed(b)) % 0x1_0000_0000
  }

  /** The hashes of `s`: the seed, then one step per byte, in order. */
  function Fnv1a(s: Bytes): U32
  {
    if |s| == 0 then FNV_OFFSET_BASIS else Fnv1aStep(Fnv1a(s[..|s| - 1]), s[|s| - 1])
  }

  function Hash2(s: Bytes): U32
  {
    if |s| == 0 then HASH2_SEED else Hash2Step(Hash2(s[..|s| - 1]), s[|s| - 1])
  }

  function Hash3(s: Bytes): U32
  {
    if |s| == 0 then HASH3_SEED else Hash3Step(Hash3(s[..|s| - 1]), s[|s| - 1])
  }

  /** The FNV-1a round for the byte `a` (0x61) from the offset basis. */
  lemma {:induction false} Fnv1aStepA()
    ensures Fnv1aStep(FNV_OFFSET_BASIS, 0x61) == 0xe40c292c
  {
    assert FNV_OFFSET_BASIS % 256 == 0xc5;
    assert XorBits(1, 0, 1) == 1;
    assert XorBits(3, 1, 2) == 2;
    assert XorBits(6, 3, 3) == 5;
    assert XorBits(12, 6, 4) == 10;
    assert XorBits(24, 12, 5) == 20;
    assert XorBits(49, 24, 6) == 41;
    assert XorBits(98, 48, 7) == 82;
    assert XorBits(0xc5, 0x61, 8) == 0xa4;
    assert XorUnsigned(FNV_OFFSET_BASIS, 0x61) == 0x811c9da4;
  }

  /** Published FNV-1a 32-bit test vectors for "" and "a". */
  lemma {:induction false} Fnv1aTestVectors()
    ensures Fnv1a([]) == 0x811c9dc5
    ensures Fnv1a([0x61]) == 0xe40c292c
  {
    assert [0x61 as uint8][..0] == [];
    Fnv1aStepA();
  }

  /** `fnv1a`: the accumulator loop computes `Fnv1a`. */
  method ComputeFnv1a(key: Bytes) returns (h: U32)
    ensures h == Fnv1a(key)
  {
    h := FNV_OFFSET_BASIS;
    for i := 0 to |key|
      invariant h == Fnv1a(key[..i])
    {
      assert key[..i + 1][..i] == key[..i];
      h := Fnv1aStep(h, key[i]);
    }
    assert key[..|key|] == key;
  }

  /** `hash2`: the accumulator loop computes `Hash2`. */
  method ComputeHash2(key: Bytes) returns (h: U32)
    ensures h == Hash2(key)
  {
    h := HASH2_SEED;
    for i := 0 to |key|
      invariant h == Hash2(key[..i])
    {
      assert key[..i + 1][..i] == key[..i];
      h := Hash2Step(h, key[i]);
    }
    assert key[..|key|] == key;
  }

  /** `hash3`: the accumulator loop computes `Hash3`. */
  method ComputeHash3(key: Bytes) returns (h: U32)
    ensures h == Hash3(key)
  {
    h := HASH3_SEED;
    for i := 0 to |key|
      invariant h == Hash3(key[..i])
    {
      assert key[..i + 1][..i] == key[..i];
      h := Hash3Step(h, key[i]);
    }
    assert key[..|key|] == key;
  }
}
