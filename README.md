# In-memory key-value engine of `bench_vs.c`, modelled and verified in Dafny

`bench_vs.c` pits Tokyo Cabinet against a small hand-written key-value engine,
`KVM`. This project models that engine.

`KVM` keeps everything in one pool of bytes, split at fixed offsets into three
zones:

- a Bloom bitmap of 2^20 bits, filled with the three 32-bit string hashes
  `fnv1a`, `hash2` and `hash3`;
- a table of 8192 `uint32_t` bucket heads, where an offset below the data zone
  (in practice 0) means "empty";
- an append-only data zone of entries. Each entry is the three `uint32_t`
  fields `klen`, `vlen` and `next`, then the key bytes, then the value bytes,
  padded to a multiple of 8.

`kvm_put` appends an entry at `write_pos` and pushes it on the front of its
bucket's chain. It refuses with -1 when the entry does not fit. `kvm_get`
answers "absent" when the Bloom filter rejects the key. Otherwise it walks the
chain and returns the value of the first entry whose key matches exactly.

The model has five modules, one file each:

- `Hashes` (`hashes.dfy`): the three hashes as recursive functions over the key
  bytes, with `uint32_t` wrap-around written out. Each has a loop method proved
  equal to it.
- `Layout` (`layout.dfy`): the constants and zones, the entry size,
  little-endian words, bucket slots and Bloom bits.
- `History` (`history.dfy`): what the engine promises, stated over the list of
  successful puts. A lookup answers with the value of the latest put of the key.
- `Arena` (`arena.dfy`): the arena invariant `Represents(m, log)`, which says
  the pool `m` holds exactly the puts of `log`. It comes with the spec function
  `PutEffect` (what a successful put does to the pool), the lemmas that
  `PutEffect` keeps the invariant, and the chain-walk lemmas.
- `Engine` (`kvm.dfy`): the class `Kvm`. Its pool is an `array<uint8>`, and
  `writePos` and `count` are fields. A ghost `Log` records the successful puts.
  Open, Put, Get and the Bloom operations are methods that update the array in
  place. They are proved against `PutEffect`, `BloomInsert`, `BloomHas` and
  `Lookup`.

The central result is the contract of `Engine.Kvm.Get`: `r == Lookup(Log, key)`.
`Get` returns the value of the most recent successful put of the key, or
`None` when the key was never put. This covers both ways of answering "absent":
the Bloom filter says no, or the chain walk reaches its end.

## Model

| member | source | states |
|---|---|---|
| Hashes.ComputeFnv1a | bench_vs.c:47-52 | The accumulator loop returns `Fnv1a(key)`: start from 2166136261, then per byte xor the byte (as `uint8_t`) and multiply by 16777619 modulo 2^32 |
| Hashes.ComputeHash2 | bench_vs.c:54-59 | The loop returns `Hash2(key)`: start from 0x5bd1e995, then per byte `((h << 5) + h) ^ key[i]` modulo 2^32, with `key[i]` a signed `char` |
| Hashes.ComputeHash3 | bench_vs.c:61-66 | The loop returns `Hash3(key)`: start from 0x811c9dc5, then per byte `h * 31 + key[i]` modulo 2^32, with `key[i]` a signed `char` |
| Hashes.Fnv1aTestVectors | bench_vs.c:47-52 | `fnv1a` meets the published FNV-1a 32-bit vectors: "" hashes to 0x811c9dc5 and "a" to 0xe40c292c |
| Hashes.XorUnsigned | bench_vs.c:50 | `h ^ (uint8_t)b` keeps the upper three bytes of `h` and xors the low byte with `b` |
| Hashes.Signed | bench_vs.c:54-66 | A key byte promoted from signed `char` to `uint32_t` keeps its low byte; the upper bytes are all ones exactly when the byte is 0x80 or above |
| Hashes.XorSigned | bench_vs.c:57 | `h ^ key[i]` with a signed `char` xors the low byte, and flips the upper three bytes exactly when the byte is 0x80 or above |
| Layout.LayoutConstants | bench_vs.c:23-29 | The offsets derive from the sizes as the macros say; the zones follow one another inside the pool; the pool is smaller than 2^32, so every offset fits a `uint32_t` field; the data zone starts 8-aligned |
| Layout.EntrySize | bench_vs.c:104 | `(12 + klen + vlen + 7) & ~7` is a multiple of 8, at least `12 + klen + vlen`, and less than `12 + klen + vlen + 8` |
| Layout.WordStoreLoad | bench_vs.c:31-36 | A `uint32_t` read from the four bytes written for `x` is `x` |
| Layout.WordLoadStore | bench_vs.c:31-36 | The four bytes written for a word read from the pool are the bytes it was read from |
| Layout.WordFrame | bench_vs.c:31-36 | A word reads the same in two pools that agree on its four bytes |
| Layout.BucketIndex | bench_vs.c:106 | `h % BUCKET_COUNT` is a valid bucket |
| Layout.BucketSlot | bench_vs.c:93 | `buckets[b]` lies in the bucket zone, word-aligned, and its position gives back `b` |
| Layout.BucketSlotsDisjoint | bench_vs.c:93 | Distinct buckets occupy disjoint four-byte slots |
| Layout.BitIndex | bench_vs.c:69-72 | `h % BLOOM_SIZE` is a valid bit whose byte `h >> 3` lies inside the Bloom zone |
| Layout.BloomBits | bench_vs.c:69-71 | A key selects three valid Bloom bits |
| Layout.OrMaskExact | bench_vs.c:72-74 | or-ing `1 << (q & 7)` into a byte sets bit `q & 7` of the byte and leaves every other bit as it was |
| Layout.SetBitExact | bench_vs.c:72-74 | or-ing `1 << (q & 7)` into `bloom[q >> 3]` sets bit `q` and no other bit: bit `p` is set afterwards iff it was set before or `p == q` |
| Layout.SetBit | bench_vs.c:72-74 | Setting a Bloom bit changes at most the one byte holding it |
| Layout.BloomInsert | bench_vs.c:68-75 | `bloom_add` changes no byte outside the Bloom zone |
| Layout.BloomInsertBits | bench_vs.c:68-75 | After `bloom_add(key)`, a bit is set iff it was set before or it is one of the key's three bits |
| Layout.BloomInsertHas | bench_vs.c:68-84 | No false negative: right after `bloom_add(key)`, `bloom_maybe(key)` holds |
| Layout.BloomInsertKeeps | bench_vs.c:68-84 | Monotonicity: a key reported before a `bloom_add` is still reported after it |
| Layout.BloomFrame | bench_vs.c:77-84 | `bloom_maybe` depends on the Bloom zone only |
| History.LookupLatest | bench_vs.c:118-133 | After `put(k, v)`, looking up `k` answers `v`, whatever was put before |
| History.LookupOther | bench_vs.c:118-133 | A put of another key does not change the answer for `k` |
| History.LookupAbsent | bench_vs.c:118-133 | A key is absent iff it was never put |
| History.LookupFound | bench_vs.c:118-133 | A key answers `v` iff some put of the key with `v` was followed by no other put of the key |
| History.LookupSwap | bench_vs.c:118-133 | Two adjacent puts of different keys commute |
| Arena.Used | bench_vs.c:113 | `write_pos - DATA_OFF` is a multiple of 8 |
| Arena.UsedPush | bench_vs.c:113 | A put moves `write_pos` by the size of its entry |
| Arena.OffsetOrder | bench_vs.c:107-113 | Entries are laid out in put order without overlap |
| Arena.EntryInZone | bench_vs.c:105-107 | Every entry lies in the data zone, below `write_pos` |
| Arena.LastInBucket | bench_vs.c:106-111 | The latest earlier put into bucket `b`, if any, is in bucket `b`, and no later one is |
| Arena.ChainHeadBelow | bench_vs.c:106-130 | A nonempty bucket head or `next` offset is at least `DATA_OFF`, strictly below the entry (or `write_pos`) that holds it, and is the offset of an entry of the same bucket |
| Arena.ChainHeadPush | bench_vs.c:108-111 | A put makes its entry the head of its own bucket and leaves every other head as it was |
| Arena.ChainStep | bench_vs.c:122-131 | Among the puts so far, a key is decided by the latest entry of its bucket: that entry's value when the keys match, otherwise the answer among the puts before it |
| Arena.ChainVisit | bench_vs.c:122-131 | At a head at or above `DATA_OFF`, the pool holds the fields of the bucket's latest entry; its `next` is strictly smaller; the lookup is that entry's value or continues below it |
| Arena.ChainEnd | bench_vs.c:121-132 | A head below `DATA_OFF` ends the walk: no earlier put of the key |
| Arena.EntryFields | bench_vs.c:123-125 | An entry's bytes read back as its `klen`, `vlen` and `next` fields, its key and its value |
| Arena.RepresentsEmpty | bench_vs.c:91-94 | A pool whose Bloom and bucket zones are zero holds no puts |
| Arena.BloomRejects | bench_vs.c:120 | When the Bloom filter rejects a key, no put of the key was ever made |
| Arena.PutKeeps | bench_vs.c:106-115 | Writing the entry at `write_pos` linked to the old head, making it the head, setting its Bloom bits and changing nothing else below `write_pos` keeps the arena invariant for one more put |
| Arena.OverwriteAdjacent | bench_vs.c:108-110 | Two consecutive `memcpy`s into adjacent ranges are one `memcpy` of the joined bytes |
| Arena.EntryImageAt | bench_vs.c:108-110 | After writing an entry's bytes at `at`, the entry is found at `at` |
| Arena.PutEffectEntry | bench_vs.c:107-110 | After a put, the new entry sits at the old `write_pos`, its `next` being the previous head of its bucket |
| Arena.PutEffectHead | bench_vs.c:111 | After a put, the key's bucket head is the old `write_pos` |
| Arena.PutEffectOtherHead | bench_vs.c:106-115 | A put leaves every other bucket head as it was |
| Arena.PutEffectFrame | bench_vs.c:106-115 | A put changes no byte outside the Bloom zone, the key's bucket slot and the new entry |
| Arena.PutEffectBits | bench_vs.c:112 | A put adds exactly the key's Bloom bits |
| Arena.PutPreserves | bench_vs.c:102-116 | A successful put keeps the arena invariant, now for one more put, and `write_pos` ends right after the new entry |
| Engine.Kvm.Open | bench_vs.c:86-96 | A fresh engine: Bloom and bucket zones zero, `write_pos == DATA_OFF`, `count == 0`, no puts, invariant established |
| Engine.Kvm.LoadWord | bench_vs.c:121-124 | Reads the `uint32_t` stored at the offset |
| Engine.Kvm.Write | bench_vs.c:109-110 | `memcpy` into the pool: the bytes land at the offset and nothing else changes |
| Engine.Kvm.StoreWord | bench_vs.c:108-111 | Stores a `uint32_t` as its four bytes |
| Engine.Kvm.WriteHeader | bench_vs.c:108 | Writes `klen`, `vlen` and `next` one after the other |
| Engine.Kvm.WriteEntry | bench_vs.c:107-110 | Writes the header, the key and the value: the entry's bytes at `at`, nothing else |
| Engine.Kvm.SetBloomBit | bench_vs.c:72-74 | The pool after or-ing `1 << (p & 7)` into `bloom[p >> 3]`, as `SetBit` |
| Engine.Kvm.BloomAdd | bench_vs.c:68-75 | The pool after setting the key's three bits, as `BloomInsert` |
| Engine.Kvm.BloomMaybe | bench_vs.c:77-84 | Answers whether all three of the key's bits are set, as `BloomHas` |
| Engine.Kvm.Append | bench_vs.c:106-112 | The writes of a successful put: the pool becomes `PutEffect` of the old pool |
| Engine.Kvm.Put | bench_vs.c:102-116 | When the entry does not fit: -1 and no change at all. Otherwise: 0, the pool becomes `PutEffect`, `write_pos` grows by the entry size, `count` by one, the put is logged, and the invariant is kept |
| Engine.Kvm.VisitEntry | bench_vs.c:123-130 | At an entry: found iff its key is the key, then with its value; otherwise its `next` |
| Engine.Kvm.Get | bench_vs.c:118-133 | Answers `Lookup(Log, key)`: the value of the latest put of the key, or absent when it was never put |
| Engine.LatestPutWins | bench_vs.c:102-133 | On a fresh engine, `put("a", "1"); put("a", "2"); get("a")` answers "2" |

## Left out

- `main`, `now_sec`, `print_result` and the Tokyo Cabinet calls (bench_vs.c:136-307) are not modelled. They are timing, key generation, console output and a foreign library.
- `kvm_close` (bench_vs.c:98-100) and the `mmap`/`malloc` fallback and `calloc` in `kvm_open` (bench_vs.c:87-90) are memory plumbing. The pool is a freshly allocated array. Only the zeroing of the Bloom and bucket zones is modelled; the data zone is left as allocated.
- The `bloom` and `buckets` fields (bench_vs.c:41-42, 92-93) are addresses inside `mem`. They are modelled as the offsets `BLOOM_OFF` and `BUCKET_OFF` into the one array.
- `strlen` (bench_vs.c:103, 119) is modelled by the `CString` type: byte sequences with no 0 byte and a length that fits the `uint32_t` it is stored in.
- `kvm_get`'s `malloc` and NUL termination of the copy (bench_vs.c:125-127) are not modelled. The answer is an `Option` of the value bytes.
- `memcmp` is modelled as equality of byte sequences.
- The `uint32_t` header fields are stored little-endian, as on the platforms the program targets. C leaves the byte order to the platform.
- `hash2` and `hash3` read `key[i]` as a signed `char`, so a byte of 0x80 or above is sign-extended before the xor or the addition. `fnv1a` casts to `uint8_t` and is not affected.
- Integers are unbounded. `write_pos` and `count` are `size_t` in C and cannot overflow here: `write_pos` stays within the 64 MiB pool and `count` below it. The truncation of `write_pos` into a `uint32_t` bucket or `next` slot (bench_vs.c:108, 111) loses nothing, because the pool is smaller than 2^32 (`Layout.LayoutConstants`).
- `& ~7` on the entry size is modelled as rounding down to a multiple of 8, which is what it computes on a non-negative number.
