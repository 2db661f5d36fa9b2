/** How the pool represents a history of puts: where each entry sits in the
    data zone, what its header and bytes hold, how the bucket heads and the
    `next` fields chain the entries of one bucket, newest first, and which
    Bloom bits are set. */
module Arena {
  import opened Hashes
  import opened Layout
  import opened History

  /** Bytes an entry takes in the data zone. */
  function Size(e: Insertion): nat
  {
    EntrySize(|e.key|, |e.value|)
  }

  /** Bytes taken by the entries of `log`: how far `write_pos` has moved. */
  function Used(log: seq<Insertion>): (n: nat)
    ensures n % 8 == 0
  {
    if |log| == 0 then 0 else Used(log[..|log| - 1]) + Size(log[|log| - 1])
  }

  /** A put moves `write_pos` by the size of its entry. */
  lemma {:induction false} UsedPush(log: seq<Insertion>, e: Insertion)
    ensures Used(log + [e]) == Used(log) + Size(e)
  {
    assert (log + [e])[..|log|] == log;
  }

  /** Where the entry of the `i`-th put starts: `write_pos` at that put. */
  function EntryOffset(log: seq<Insertion>, i: nat): (off: nat)
    requires i <= |log|
  {
    DATA_OFF + Used(log[..i])
  }

  /** Offsets depend only on the puts before. */
  lemma {:induction false} OffsetPrefix(log: seq<Insertion>, extra: seq<Insertion>, i: nat)
    requires i <= |log|
    ensures EntryOffset(log + extra, i) == EntryOffset(log, i)
  {
    assert (log + extra)[..i] == log[..i];
  }

  /** Each entry starts where the previous one ends. */
  lemma {:induction false} OffsetNext(log: seq<Insertion>, i: nat)
    requires i < |log|
    ensures EntryOffset(log, i + 1) == EntryOffset(log, i) + Size(log[i])
  {
    assert log[..i + 1][..i] == log[..i];
  }

  /** Entries are laid out in put order without overlap: an earlier entry
      ends at or before a later one starts. */
  lemma {:induction false} OffsetOrder(log: seq<Insertion>, i: nat, j: nat)
    requires i < j <= |log|
    ensures EntryOffset(log, i) + Size(log[i]) <= EntryOffset(log, j)
    decreases j - i
  {
    OffsetNext(log, i);
    if i + 1 < j {
      OffsetOrder(log, i + 1, j);
    }
  }

  /** Every entry lies in the data zone below `write_pos`. */
  lemma {:induction false} EntryInZone(log: seq<Insertion>, i: nat)
    requires i < |log|
    ensures DATA_OFF <= EntryOffset(log, i)
    ensures EntryOffset(log, i) + Size(log[i]) <= DATA_OFF + Used(log)
  {
    OffsetOrder(log, i, |log|);
    assert log[..|log|] == log;
  }

  /** Index of the latest of the first `n` puts whose key falls in bucket
      `b`, or -1 when there is none. */
  function LastInBucket(log: seq<Insertion>, b: nat, n: nat): (j: int)
    requires n <= |log|
    ensures -1 <= j < n
    ensures j >= 0 ==> BucketOf(log[j].key) == b
    ensures forall k :: j < k < n ==> BucketOf(log[k].key) != b
  {
    if n == 0 then -1
    else if BucketOf(log[n - 1].key) == b then n - 1
    else LastInBucket(log, b, n - 1)
  }

  /** The head of bucket `b` once the first `n` puts are done: the offset of
      its latest entry, or the sentinel 0. This is `buckets[b]`, and it is
      the `next` field written by the `n`-th put when that put is in `b`. */
  function ChainHead(log: seq<Insertion>, b: nat, n: nat): nat
    requires n <= |log|
  {
    var j := LastInBucket(log, b, n);
    if j < 0 then 0 else EntryOffset(log, j)
  }

  /** Chain invariant: a nonzero head is the offset of an entry of the same
      bucket, at or above `DATA_OFF` and strictly below the offset of the
      `n`-th entry (below `write_pos` when `n` is every put), so every
      `next` points strictly down and the walk ends. */
  lemma {:induction false} ChainHeadBelow(log: seq<Insertion>, b: nat, n: nat)
    requires n <= |log|
    ensures ChainHead(log, b, n) == 0 || DATA_OFF <= ChainHead(log, b, n)
    ensures ChainHead(log, b, n) < EntryOffset(log, n)
    ensures ChainHead(log, b, n) != 0 ==>
      var j := LastInBucket(log, b, n);
      0 <= j < n && BucketOf(log[j].key) == b && ChainHead(log, b, n) == EntryOffset(log, j)
  {
    var j := LastInBucket(log, b, n);
    if j >= 0 {
      OffsetOrder(log, j, n);
    }
  }

  /** A later put changes no earlier head. */
  lemma {:induction false} ChainHeadPrefix(log: seq<Insertion>, e: Insertion, b: nat, n: nat)
    requires n <= |log|
    ensures ChainHead(log + [e], b, n) == ChainHead(log, b, n)
  {
    var log' := log + [e];
    assert forall k :: 0 <= k < n ==> log'[k] == log[k];
    LastInBucketPrefix(log, log', b, n);
    var j := LastInBucket(log, b, n);
    if j >= 0 {
      OffsetPrefix(log, [e], j);
    }
  }

  lemma {:induction false} LastInBucketPrefix(log: seq<Insertion>, log': seq<Insertion>, b: nat, n: nat)
    requires n <= |log| && n <= |log'|
    requires forall k :: 0 <= k < n ==> log'[k] == log[k]
    ensures LastInBucket(log', b, n) == LastInBucket(log, b, n)
  {
    if n > 0 {
      LastInBucketPrefix(log, log', b, n - 1);
    }
  }

  /** A put moves the head of its own bucket to its entry and leaves every
      other head alone. */
  lemma {:induction false} ChainHeadPush(log: seq<Insertion>, e: Insertion, b: nat)
    ensures ChainHead(log + [e], b, |log| + 1) ==
      if b == BucketOf(e.key) then DATA_OFF + Used(log) else ChainHead(log, b, |log|)
  {
    var log' := log + [e];
    assert log'[|log|] == e;
    if b == BucketOf(e.key) {
      OffsetPrefix(log, [e], |log|);
      assert log[..|log|] == log;
    } else {
      ChainHeadPrefix(log, e, b, |log|);
    }
  }

  /** One step of the chain walk. Among the first `n` puts, a key of bucket
      `b` is decided by the latest entry of `b`: it is that entry's value if
      the keys match, and otherwise the answer among the puts before it. */
  lemma {:induction false} ChainStep(log: seq<Insertion>, key: Bytes, n: nat)
    requires n <= |log|
    ensures var j := LastInBucket(log, BucketOf(key), n);
      Lookup(log[..n], key) ==
        if j < 0 then None
        else if log[j].key == key then Some(log[j].value)
        else Lookup(log[..j], key)
  {
    if n > 0 {
      var b := BucketOf(key);
      assert log[..n][..n - 1] == log[..n - 1];
      if BucketOf(log[n - 1].key) != b {
        ChainStep(log, key, n - 1);
      }
    }
  }

  /** One step of `kvm_get`'s walk: a chain head at or above `DATA_OFF` is
      the entry of the latest put into the bucket, whose fields read back
      in full and whose `next` is strictly below it, and the lookup is
      decided by that entry's key or continues below it. */
  lemma {:induction false} ChainVisit(m: seq<uint8>, log: seq<Insertion>, key: Bytes, n: nat)
    requires Represents(m, log) && n <= |log|
    requires DATA_OFF <= ChainHead(log, BucketOf(key), n)
    ensures var b := BucketOf(key);
      var off, j := ChainHead(log, b, n), LastInBucket(log, b, n);
      0 <= j < n &&
      FieldsAt(m, off, log[j], ChainHead(log, b, j)) &&
      ChainHead(log, b, j) < off &&
      Lookup(log[..n], key) == (if log[j].key == key then Some(log[j].value) else Lookup(log[..j], key))
  {
    var b := BucketOf(key);
    ChainHeadBelow(log, b, n);
    var j := LastInBucket(log, b, n);
    var off, e, next := EntryOffset(log, j), log[j], ChainHead(log, b, j);
    assert EntryHolds(m, log, j);
    EntryFields(m, off, e, next);
    ChainHeadBelow(log, b, j);
    ChainStep(log, key, n);
  }

  /** The walk ends: a chain head below `DATA_OFF` means no earlier put of
      the key. */
  lemma {:induction false} ChainEnd(log: seq<Insertion>, key: Bytes, n: nat)
    requires n <= |log| && ChainHead(log, BucketOf(key), n) < DATA_OFF
    ensures Lookup(log[..n], key) == None
  {
    ChainHeadBelow(log, BucketOf(key), n);
    ChainStep(log, key, n);
  }

  /** The entry for `e` sits at `off`: the pool holds its bytes there,
      header `klen`, `vlen`, `next` first, then the key, then the value. */
  ghost predicate EntryAt(m: seq<uint8>, off: nat, e: Insertion, next: nat)
  {
    |e.key| < WORD_LIMIT && |e.value| < WORD_LIMIT && next < WORD_LIMIT &&
    off + HEADER_SIZE + |e.key| + |e.value| <= |m| &&
    m[off..off + HEADER_SIZE + |e.key| + |e.value|] == EntryImage(e, next)
  }

  /** What `kvm_get` reads of the entry at `off`: the header words hold
      the key length, the value length and `next`, and the key and value
      bytes follow the header. */
  ghost predicate FieldsAt(m: seq<uint8>, off: nat, e: Insertion, next: nat)
  {
    var k, v := off + HEADER_SIZE, off + HEADER_SIZE + |e.key|;
    v + |e.value| <= |m| &&
    WordAt(m, off) == |e.key| &&
    WordAt(m, off + WORD_SIZE) == |e.value| &&
    WordAt(m, off + 2 * WORD_SIZE) == next &&
    m[k..v] == e.key &&
    m[v..v + |e.value|] == e.value
  }

  /** An entry's bytes decode to its fields. */
  lemma {:induction false} EntryFields(m: seq<uint8>, off: nat, e: Insertion, next: nat)
    requires EntryAt(m, off, e, next)
    ensures FieldsAt(m, off, e, next)
  {
    var img := EntryImage(e, next);
    var kl, vl := |e.key|, |e.value|;
    EntryImageParts(e, next);
    ImageWord(m, off, img, 0, kl);
    ImageWord(m, off, img, WORD_SIZE, vl);
    ImageWord(m, off, img, 2 * WORD_SIZE, next);
    ImageSlice(m, off, img, HEADER_SIZE, kl);
    ImageSlice(m, off, img, HEADER_SIZE + kl, vl);
  }

  /** A slice of bytes the pool holds at `off` is the pool's slice. */
  lemma {:induction false} ImageSlice(m: seq<uint8>, off: nat, img: seq<uint8>, j: nat, n: nat)
    requires off + |img| <= |m| && m[off..off + |img|] == img && j + n <= |img|
    ensures m[off + j..off + j + n] == img[j..j + n]
  {
    forall i | off + j <= i < off + j + n
      ensures m[i] == img[i - off]
    {
      assert m[i] == m[off..off + |img|][i - off];
    }
    assert m[off + j..off + j + n] == img[j..j + n];
  }

  /** A word inside bytes the pool holds at `off` reads back. */
  lemma {:induction false} ImageWord(m: seq<uint8>, off: nat, img: seq<uint8>, j: nat, x: nat)
    requires off + |img| <= |m| && m[off..off + |img|] == img
    requires j + WORD_SIZE <= |img| && x < WORD_LIMIT && img[j..j + WORD_SIZE] == WordBytes(x)
    ensures WordAt(m, off + j) == x
  {
    forall k | 0 <= k < WORD_SIZE
      ensures m[off + j + k] == WordBytes(x)[k]
    {
      assert m[off + j + k] == m[off..off + |img|][j + k];
    }
    WordStoreLoad(m, off + j, x);
  }

  /** An entry reads the same in two pools that agree on its bytes. */
  lemma {:induction false} EntryFrame(m: seq<uint8>, m': seq<uint8>, off: nat, e: Insertion, next: nat)
    requires EntryAt(m, off, e, next) && |m'| == |m|
    requires forall i :: off <= i < off + HEADER_SIZE + |e.key| + |e.value| ==> m'[i] == m[i]
    ensures EntryAt(m', off, e, next)
  {
    var end := off + HEADER_SIZE + |e.key| + |e.value|;
    assert m'[off..end] == m[off..end];
  }

  /** The slot of bucket `b` holds the head of its chain. */
  ghost predicate HeadHolds(m: seq<uint8>, log: seq<Insertion>, b: nat)
    requires DATA_OFF <= |m| && b < BUCKET_COUNT
  {
    WordAt(m, BucketSlot(b)) == ChainHead(log, b, |log|)
  }

  ghost predicate HeadsHold(m: seq<uint8>, log: seq<Insertion>)
    requires DATA_OFF <= |m|
  {
    forall b :: 0 <= b < BUCKET_COUNT ==> HeadHolds(m, log, b)
  }

  /** The entry of the `i`-th put sits at its offset, its `next` linking to
      the previous entry of its bucket. */
  ghost predicate EntryHolds(m: seq<uint8>, log: seq<Insertion>, i: nat)
    requires i < |log|
  {
    EntryAt(m, EntryOffset(log, i), log[i], ChainHead(log, BucketOf(log[i].key), i))
  }

  ghost predicate EntriesHold(m: seq<uint8>, log: seq<Insertion>)
  {
    forall i :: 0 <= i < |log| ==> EntryHolds(m, log, i)
  }

  /** The key of the `i`-th put has its Bloom bits set. */
  ghost predicate KeyInBloom(m: seq<uint8>, log: seq<Insertion>, i: nat)
    requires BUCKET_OFF <= |m| && i < |log|
  {
    BloomHas(m, log[i].key)
  }

  ghost predicate BloomHolds(m: seq<uint8>, log: seq<Insertion>)
    requires BUCKET_OFF <= |m|
  {
    forall i :: 0 <= i < |log| ==> KeyInBloom(m, log, i)
  }

  /** The arena invariant: the pool `m` holds the puts of `log`. */
  ghost predicate Represents(m: seq<uint8>, log: seq<Insertion>)
  {
    |m| == POOL_SIZE &&
    DATA_OFF + Used(log) <= |m| &&
    HeadsHold(m, log) &&
    EntriesHold(m, log) &&
    BloomHolds(m, log)
  }

  /** A pool whose Bloom and bucket zones are zero represents no puts. */
  lemma {:induction false} RepresentsEmpty(m: seq<uint8>)
    requires |m| == POOL_SIZE
    requires forall i :: 0 <= i < DATA_OFF ==> m[i] == 0
    ensures Represents(m, [])
  {
    forall b | 0 <= b < BUCKET_COUNT
      ensures WordAt(m, BucketSlot(b)) == ChainHead([], b, 0)
    {
      var s := BucketSlot(b);
      assert forall k :: 0 <= k < WORD_SIZE ==> m[s + k] == WordBytes(0)[k];
      WordStoreLoad(m, s, 0);
    }
    assert HeadsHold(m, []);
  }

  /** No false negative: a key the Bloom filter rejects was never put. */
  lemma {:induction false} BloomRejects(m: seq<uint8>, log: seq<Insertion>, key: Bytes)
    requires Represents(m, log)
    requires !BloomHas(m, key)
    ensures Lookup(log, key) == None
  {
    forall i | 0 <= i < |log|
      ensures log[i].key != key
    {
      assert KeyInBloom(m, log, i);
    }
    LookupAbsent(log, key);
  }

  lemma {:induction false} PutKeepsHeads(m: seq<uint8>, m': seq<uint8>, log: seq<Insertion>, e: Insertion)
    requires DATA_OFF <= |m| && DATA_OFF <= |m'| && HeadsHold(m, log)
    requires WordAt(m', BucketSlot(BucketOf(e.key))) == DATA_OFF + Used(log)
    requires forall c :: 0 <= c < BUCKET_COUNT && c != BucketOf(e.key) ==>
      WordAt(m', BucketSlot(c)) == WordAt(m, BucketSlot(c))
    ensures HeadsHold(m', log + [e])
  {
    forall c | 0 <= c < BUCKET_COUNT
      ensures HeadHolds(m', log + [e], c)
    {
      assert HeadHolds(m, log, c);
      PutKeepsHead(m, m', log, e, c);
    }
  }

  lemma {:induction false} PutKeepsHead(m: seq<uint8>, m': seq<uint8>, log: seq<Insertion>, e: Insertion, c: nat)
    requires DATA_OFF <= |m| && DATA_OFF <= |m'| && c < BUCKET_COUNT
    requires WordAt(m, BucketSlot(c)) == ChainHead(log, c, |log|)
    requires WordAt(m', BucketSlot(c)) ==
      if c == BucketOf(e.key) then DATA_OFF + Used(log) else WordAt(m, BucketSlot(c))
    ensures WordAt(m', BucketSlot(c)) == ChainHead(log + [e], c, |log| + 1)
  {
    ChainHeadPush(log, e, c);
  }

  lemma {:induction false} PutKeepsEntry(m: seq<uint8>, m': seq<uint8>, log: seq<Insertion>, e: Insertion, i: nat)
    requires i < |log| && |m'| == |m| && DATA_OFF + Used(log) <= |m|
    requires EntryAt(m, EntryOffset(log, i), log[i], ChainHead(log, BucketOf(log[i].key), i))
    requires forall k :: DATA_OFF <= k < DATA_OFF + Used(log) ==> m'[k] == m[k]
    ensures var log' := log + [e];
      EntryAt(m', EntryOffset(log', i), log'[i], ChainHead(log', BucketOf(log'[i].key), i))
  {
    var log' := log + [e];
    var off, b := EntryOffset(log, i), BucketOf(log[i].key);
    var next := ChainHead(log, b, i);
    EntryInZone(log, i);
    assert forall k :: off <= k < off + HEADER_SIZE + |log[i].key| + |log[i].value| ==> m'[k] == m[k];
    EntryFrame(m, m', off, log[i], next);
    OffsetPrefix(log, [e], i);
    assert EntryAt(m', EntryOffset(log', i), log[i], next);
    ChainHeadPrefix(log, e, b, i);
    assert EntryAt(m', EntryOffset(log', i), log[i], ChainHead(log', b, i));
    assert log'[i] == log[i];
  }

  lemma {:induction false} PutNewEntry(m': seq<uint8>, log: seq<Insertion>, e: Insertion)
    requires EntryAt(m', DATA_OFF + Used(log), e, ChainHead(log, BucketOf(e.key), |log|))
    ensures var log' := log + [e];
      EntryAt(m', EntryOffset(log', |log|), log'[|log|], ChainHead(log', BucketOf(log'[|log|].key), |log|))
  {
    var n, b := |log|, BucketOf(e.key);
    var log' := log + [e];
    OffsetPrefix(log, [e], n);
    assert log[..n] == log;
    ChainHeadPrefix(log, e, b, n);
    assert log'[n] == e;
  }

  lemma {:induction false} PutEntryAt(m: seq<uint8>, m': seq<uint8>, log: seq<Insertion>, e: Insertion, i: nat)
    requires EntriesHold(m, log) && |m'| == |m| && DATA_OFF + Used(log) <= |m|
    requires forall k :: DATA_OFF <= k < DATA_OFF + Used(log) ==> m'[k] == m[k]
    requires EntryAt(m', DATA_OFF + Used(log), e, ChainHead(log, BucketOf(e.key), |log|))
    requires i <= |log|
    ensures EntryHolds(m', log + [e], i)
  {
    if i < |log| {
      assert EntryHolds(m, log, i);
      PutKeepsEntry(m, m', log, e, i);
    } else {
      PutNewEntry(m', log, e);
    }
  }

  lemma {:induction false} PutKeepsEntries(m: seq<uint8>, m': seq<uint8>, log: seq<Insertion>, e: Insertion)
    requires EntriesHold(m, log) && |m'| == |m| && DATA_OFF + Used(log) <= |m|
    requires forall i :: DATA_OFF <= i < DATA_OFF + Used(log) ==> m'[i] == m[i]
    requires EntryAt(m', DATA_OFF + Used(log), e, ChainHead(log, BucketOf(e.key), |log|))
    ensures EntriesHold(m', log + [e])
  {
    forall i | 0 <= i < |log| + 1
      ensures EntryHolds(m', log + [e], i)
    {
      PutEntryAt(m, m', log, e, i);
    }
  }

  lemma {:induction false} PutKeepsBloom(m: seq<uint8>, m': seq<uint8>, log: seq<Insertion>, e: Insertion)
    requires BUCKET_OFF <= |m| && BUCKET_OFF <= |m'| && BloomHolds(m, log)
    requires forall p :: 0 <= p < BLOOM_SIZE && BitSet(m, p) ==> BitSet(m', p)
    requires BloomHas(m', e.key)
    ensures BloomHolds(m', log + [e])
  {
    var log' := log + [e];
    forall i | 0 <= i < |log'|
      ensures KeyInBloom(m', log', i)
    {
      if i < |log| {
        assert KeyInBloom(m, log, i);
        var bits := BloomBits(log[i].key);
        assert BloomHas(m, log[i].key);
        assert BitSet(m', bits[0]) && BitSet(m', bits[1]) && BitSet(m', bits[2]);
      }
    }
  }

  /** A pool change that writes an entry at `write_pos`, links it in front
      of its bucket's chain, sets its Bloom bits and changes nothing else
      below `write_pos` keeps the arena invariant, now for one more put. */
  lemma {:induction false} PutKeeps(m: seq<uint8>, m': seq<uint8>, log: seq<Insertion>, e: Insertion)
    requires Represents(m, log)
    requires DATA_OFF + Used(log) + Size(e) <= |m| == |m'|
    requires forall i :: DATA_OFF <= i < DATA_OFF + Used(log) ==> m'[i] == m[i]
    requires EntryAt(m', DATA_OFF + Used(log), e, WordAt(m, BucketSlot(BucketOf(e.key))))
    requires WordAt(m', BucketSlot(BucketOf(e.key))) == DATA_OFF + Used(log)
    requires forall c :: 0 <= c < BUCKET_COUNT && c != BucketOf(e.key) ==>
      WordAt(m', BucketSlot(c)) == WordAt(m, BucketSlot(c))
    requires forall p :: 0 <= p < BLOOM_SIZE && BitSet(m, p) ==> BitSet(m', p)
    requires BloomHas(m', e.key)
    ensures Represents(m', log + [e])
  {
    UsedPush(log, e);
    PutKeepsHeads(m, m', log, e);
    assert HeadHolds(m, log, BucketOf(e.key));
    PutKeepsEntries(m, m', log, e);
    PutKeepsBloom(m, m', log, e);
  }

  // ---------------------------------------------------------------------------
  // What a successful put does to the pool

  /** The pool `m` with `bytes` written from `at` on. */
  function Overwrite(m: seq<uint8>, at: nat, bytes: seq<uint8>): (r: seq<uint8>)
    requires at + |bytes| <= |m|
    ensures |r| == |m|
  {
    m[..at] + bytes + m[at + |bytes|..]
  }

  /** Byte by byte, the overwritten range holds `bytes` and every other
      byte is as it was. */
  lemma {:induction false} OverwriteIndex(m: seq<uint8>, at: nat, bytes: seq<uint8>)
    requires at + |bytes| <= |m|
    ensures forall i :: 0 <= i < |m| ==>
      Overwrite(m, at, bytes)[i] == if at <= i < at + |bytes| then bytes[i - at] else m[i]
  {
  }

  /** Two writes of adjacent ranges are one write of the joined bytes. */
  lemma {:induction false} OverwriteAdjacent(m: seq<uint8>, at: nat, x: seq<uint8>, y: seq<uint8>)
    requires at + |x| + |y| <= |m|
    ensures Overwrite(Overwrite(m, at, x), at + |x|, y) == Overwrite(m, at, x + y)
  {
    var l, r := Overwrite(Overwrite(m, at, x), at + |x|, y), Overwrite(m, at, x + y);
    assert forall i :: 0 <= i < |m| ==> l[i] == r[i];
  }

  /** The bytes of an entry: `klen`, `vlen` and `next` as little-endian
      `uint32_t`, then the key, then the value. */
  function EntryImage(e: Insertion, next: nat): (r: seq<uint8>)
    requires |e.key| < WORD_LIMIT && |e.value| < WORD_LIMIT && next < WORD_LIMIT
    ensures |r| == HEADER_SIZE + |e.key| + |e.value|
  {
    WordBytes(|e.key|) + WordBytes(|e.value|) + WordBytes(next) + e.key + e.value
  }

  /** Where each field lies in an entry's bytes. */
  lemma {:induction false} EntryImageParts(e: Insertion, next: nat)
    requires |e.key| < WORD_LIMIT && |e.value| < WORD_LIMIT && next < WORD_LIMIT
    ensures var img, kl, vl := EntryImage(e, next), |e.key|, |e.value|;
      img[0..WORD_SIZE] == WordBytes(kl) &&
      img[WORD_SIZE..2 * WORD_SIZE] == WordBytes(vl) &&
      img[2 * WORD_SIZE..HEADER_SIZE] == WordBytes(next) &&
      img[HEADER_SIZE..HEADER_SIZE + kl] == e.key &&
      img[HEADER_SIZE + kl..HEADER_SIZE + kl + vl] == e.value
  {
  }

  /** Reading back a written entry: the entry is found where it was
      written. */
  lemma {:induction false} EntryImageAt(m: seq<uint8>, at: nat, e: Insertion, next: nat)
    requires |e.key| < WORD_LIMIT && |e.value| < WORD_LIMIT && next < WORD_LIMIT
    requires at + HEADER_SIZE + |e.key| + |e.value| <= |m|
    ensures EntryAt(Overwrite(m, at, EntryImage(e, next)), at, e, next)
  {
    var img := EntryImage(e, next);
    var r := Overwrite(m, at, img);
    assert r[at..at + |img|] == img;
  }

  /** The pool after a successful `kvm_put` of `e` at `write_pos == at`: the
      entry written at `at` with `next` the old head of its bucket, the
      bucket's slot set to `at`, then the key's Bloom bits set. */
  function PutEffect(m: seq<uint8>, at: nat, e: Insertion): (r: seq<uint8>)
    requires |m| == POOL_SIZE && at + Size(e) <= |m|
    requires |e.key| < WORD_LIMIT && |e.value| < WORD_LIMIT
    ensures |r| == |m|
  {
    var slot := BucketSlot(BucketOf(e.key));
    var m1 := Overwrite(m, at, EntryImage(e, WordAt(m, slot)));
    var m2 := Overwrite(m1, slot, WordBytes(at));
    BloomInsert(m2, e.key)
  }

  /** After a put, the new entry sits at `at` and links to the old head of
      its bucket. */
  lemma {:induction false} PutEffectEntry(m: seq<uint8>, at: nat, e: Insertion)
    requires |m| == POOL_SIZE && DATA_OFF <= at && at + Size(e) <= |m|
    requires |e.key| < WORD_LIMIT && |e.value| < WORD_LIMIT
    ensures EntryAt(PutEffect(m, at, e), at, e, WordAt(m, BucketSlot(BucketOf(e.key))))
  {
    var slot := BucketSlot(BucketOf(e.key));
    var head := WordAt(m, slot);
    var m1 := Overwrite(m, at, EntryImage(e, head));
    var m2 := Overwrite(m1, slot, WordBytes(at));
    EntryImageAt(m, at, e, head);
    EntryFrame(m1, BloomInsert(m2, e.key), at, e, head);
  }

  /** After a put, the head of the key's bucket is the new entry. */
  lemma {:induction false} PutEffectHead(m: seq<uint8>, at: nat, e: Insertion)
    requires |m| == POOL_SIZE && DATA_OFF <= at && at + Size(e) <= |m|
    requires |e.key| < WORD_LIMIT && |e.value| < WORD_LIMIT
    ensures WordAt(PutEffect(m, at, e), BucketSlot(BucketOf(e.key))) == at
  {
    var slot := BucketSlot(BucketOf(e.key));
    var m1 := Overwrite(m, at, EntryImage(e, WordAt(m, slot)));
    var m2 := Overwrite(m1, slot, WordBytes(at));
    assert m2[slot..slot + WORD_SIZE] == WordBytes(at);
    assert WordBytes(at)[0..WORD_SIZE] == WordBytes(at);
    ImageWord(m2, slot, WordBytes(at), 0, at);
    WordFrame(m2, BloomInsert(m2, e.key), slot);
  }

  /** A put changes no byte outside the Bloom zone, the key's bucket slot
      and the new entry. */
  lemma {:induction false} PutEffectFrame(m: seq<uint8>, at: nat, e: Insertion, i: nat)
    requires |m| == POOL_SIZE && DATA_OFF <= at && at + Size(e) <= |m|
    requires |e.key| < WORD_LIMIT && |e.value| < WORD_LIMIT
    requires BUCKET_OFF <= i < |m|
    requires !(BucketSlot(BucketOf(e.key)) <= i < BucketSlot(BucketOf(e.key)) + WORD_SIZE)
    requires !(at <= i < at + HEADER_SIZE + |e.key| + |e.value|)
    ensures PutEffect(m, at, e)[i] == m[i]
  {
    var slot := BucketSlot(BucketOf(e.key));
    var img := EntryImage(e, WordAt(m, slot));
    var m1 := Overwrite(m, at, img);
    OverwriteIndex(m, at, img);
    OverwriteIndex(m1, slot, WordBytes(at));
    assert Overwrite(m1, slot, WordBytes(at))[i] == m[i];
  }

  /** A put leaves every other bucket's head as it was. */
  lemma {:induction false} PutEffectOtherHead(m: seq<uint8>, at: nat, e: Insertion, c: nat)
    requires |m| == POOL_SIZE && DATA_OFF <= at && at + Size(e) <= |m|
    requires |e.key| < WORD_LIMIT && |e.value| < WORD_LIMIT
    requires c < BUCKET_COUNT && c != BucketOf(e.key)
    ensures WordAt(PutEffect(m, at, e), BucketSlot(c)) == WordAt(m, BucketSlot(c))
  {
    var r := PutEffect(m, at, e);
    forall k | BucketSlot(c) <= k < BucketSlot(c) + WORD_SIZE
      ensures r[k] == m[k]
    {
      BucketSlotsDisjoint(BucketOf(e.key), c, k);
      PutEffectFrame(m, at, e, k);
    }
    WordFrame(m, r, BucketSlot(c));
  }

  /** A put adds exactly the key's Bloom bits. */
  lemma {:induction false} PutEffectBits(m: seq<uint8>, at: nat, e: Insertion, p: nat)
    requires |m| == POOL_SIZE && DATA_OFF <= at && at + Size(e) <= |m|
    requires |e.key| < WORD_LIMIT && |e.value| < WORD_LIMIT
    requires p < BLOOM_SIZE
    ensures BitSet(PutEffect(m, at, e), p) <==> BitSet(m, p) || p in BloomBits(e.key)
  {
    var slot := BucketSlot(BucketOf(e.key));
    var m1 := Overwrite(m, at, EntryImage(e, WordAt(m, slot)));
    var m2 := Overwrite(m1, slot, WordBytes(at));
    BitFrame(m, m2, p);
    BloomInsertBits(m2, e.key, p);
  }

  /** A successful put keeps the arena invariant, now for one more put. */
  lemma {:induction false} PutPreserves(m: seq<uint8>, m': seq<uint8>, at: nat, log: seq<Insertion>, e: Insertion)
    requires Represents(m, log) && at == DATA_OFF + Used(log)
    requires at + Size(e) <= |m|
    requires |e.key| < WORD_LIMIT && |e.value| < WORD_LIMIT
    requires m' == PutEffect(m, at, e)
    ensures Represents(m', log + [e])
    ensures DATA_OFF + Used(log + [e]) == at + Size(e)
  {
    UsedPush(log, e);
    var r := m';
    PutEffectEntry(m, at, e);
    PutEffectHead(m, at, e);
    forall c | 0 <= c < BUCKET_COUNT && c != BucketOf(e.key)
      ensures WordAt(r, BucketSlot(c)) == WordAt(m, BucketSlot(c))
    {
      PutEffectOtherHead(m, at, e, c);
    }
    forall p | 0 <= p < BLOOM_SIZE
      ensures BitSet(m, p) ==> BitSet(r, p)
    {
      PutEffectBits(m, at, e, p);
    }
    forall i | DATA_OFF <= i < at
      ensures r[i] == m[i]
    {
      PutEffectFrame(m, at, e, i);
    }
    var bits := BloomBits(e.key);
    PutEffectBits(m, at, e, bits[0]);
    PutEffectBits(m, at, e, bits[1]);
    PutEffectBits(m, at, e, bits[2]);
    PutKeeps(m, r, log, e);
  }
}
