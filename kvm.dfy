/** The engine (`KVM`): one pool of bytes, a write cursor and an entry
    counter. `Put` appends an entry and links it in place; `Get` checks the
    Bloom filter and walks one bucket's chain. */
module Engine {
  import opened Hashes
  import opened Layout
  import opened History
  import opened Arena

  /** A key or value as `strlen` measures it: no NUL byte, and a length that
      fits the `uint32_t` it is stored in. */
  type CString = s: Bytes | |s| < WORD_LIMIT && forall i :: 0 <= i < |s| ==> s[i] != 0

  class Kvm {
    /** `mem_size`: the pool's size in bytes. */
    const memSize: nat
    /** `mem`: the Bloom bitmap, the bucket table and the data zone. */
    const mem: array<uint8>
    /** `write_pos`: where the next entry goes. */
    var writePos: nat
    /** `count`: the number of successful puts. */
    var count: nat
    /** The successful puts so far, oldest first. */
    ghost var Log: seq<Insertion>

    /** The pool holds exactly the puts of `Log`, and the cursor sits right
        after the last entry, inside the pool. */
    ghost predicate Valid()
      reads this, mem
    {
      memSize == mem.Length == POOL_SIZE &&
      writePos == DATA_OFF + Used(Log) &&
      count == |Log| &&
      Represents(mem[..], Log)
    }

    /** `kvm_open`: a fresh pool whose Bloom and bucket zones are zeroed; the
        data zone is left as allocated. */
    constructor Open()
      ensures Valid() && fresh(mem)
      ensures Log == [] && writePos == DATA_OFF && count == 0
      ensures forall i :: 0 <= i < DATA_OFF ==> mem[i] == 0
    {
      memSize := POOL_SIZE;
      mem := new uint8[POOL_SIZE];
      writePos := DATA_OFF;
      count := 0;
      Log := [];
      new;
      forall i | 0 <= i < DATA_OFF {
        mem[i] := 0;
      }
      RepresentsEmpty(mem[..]);
    }

    /** Reads the `uint32_t` at `off`. */
    method LoadWord(off: nat) returns (x: nat)
      requires off + WORD_SIZE <= mem.Length
      ensures x == WordAt(mem[..], off)
    {
      x := mem[off] as nat + 256 * (mem[off + 1] as nat + 256 * (mem[off + 2] as nat + 256 * mem[off + 3] as nat));
    }

    /** `memcpy(mem + at, bytes, |bytes|)`: writes `bytes` from `at` on. */
    method Write(at: nat, bytes: Bytes)
      requires at + |bytes| <= mem.Length
      modifies mem
      ensures mem[..] == Overwrite(old(mem[..]), at, bytes)
    {
      forall k | 0 <= k < |bytes| {
        mem[at + k] := bytes[k];
      }
    }

    /** Stores the `uint32_t` `x` at `off`. */
    method StoreWord(off: nat, x: nat)
      requires off + WORD_SIZE <= mem.Length && x < WORD_LIMIT
      modifies mem
      ensures mem[..] == Overwrite(old(mem[..]), off, WordBytes(x))
    {
      Write(off, WordBytes(x));
    }

    /** Writes an entry header at `at`: the fields `klen`, `vlen` and
        `next`, one `uint32_t` after the other. */
    method WriteHeader(at: nat, klen: nat, vlen: nat, next: nat)
      requires at + HEADER_SIZE <= mem.Length && klen < WORD_LIMIT && vlen < WORD_LIMIT && next < WORD_LIMIT
      modifies mem
      ensures mem[..] == Overwrite(old(mem[..]), at, WordBytes(klen) + WordBytes(vlen) + WordBytes(next))
    {
      ghost var m0 := mem[..];
      ghost var w1, w2, w3 := WordBytes(klen), WordBytes(vlen), WordBytes(next);
      StoreWord(at, klen);
      StoreWord(at + WORD_SIZE, vlen);
      OverwriteAdjacent(m0, at, w1, w2);
      StoreWord(at + 2 * WORD_SIZE, next);
      OverwriteAdjacent(m0, at, w1 + w2, w3);
    }

    /** Writes the entry for `key` and `value` at `at`: the header, then the
        key bytes, then the value bytes. */
    method WriteEntry(at: nat, key: CString, value: CString, next: nat)
      requires at + HEADER_SIZE + |key| + |value| <= mem.Length && next < WORD_LIMIT
      modifies mem
      ensures mem[..] == Overwrite(old(mem[..]), at, EntryImage(Insertion(key, value), next))
    {
      ghost var m0 := mem[..];
      ghost var header := WordBytes(|key|) + WordBytes(|value|) + WordBytes(next);
      WriteHeader(at, |key|, |value|, next);
      Write(at + HEADER_SIZE, key);
      OverwriteAdjacent(m0, at, header, key);
      Write(at + HEADER_SIZE + |key|, value);
      OverwriteAdjacent(m0, at, header + key, value);
      assert header + key + value == EntryImage(Insertion(key, value), next);
    }

    /** `bloom[p >> 3] |= 1 << (p & 7)`. */
    method SetBloomBit(p: nat)
      requires p < BLOOM_SIZE && BUCKET_OFF <= mem.Length
      modifies mem
      ensures mem[..] == SetBit(old(mem[..]), p)
    {
      mem[p / 8] := OrMask(mem[p / 8], p);
    }

    /** `bloom_add`: sets the key's three bits. */
    method BloomAdd(key: Bytes)
      requires BUCKET_OFF <= mem.Length
      modifies mem
      ensures mem[..] == BloomInsert(old(mem[..]), key)
    {
      var h1 := ComputeFnv1a(key);
      var h2 := ComputeHash2(key);
      var h3 := ComputeHash3(key);
      SetBloomBit(BitIndex(h1));
      SetBloomBit(BitIndex(h2));
      SetBloomBit(BitIndex(h3));
    }

    /** `bloom_maybe`: whether all three of the key's bits are set. */
    method BloomMaybe(key: Bytes) returns (maybe: bool)
      requires BUCKET_OFF <= mem.Length
      ensures maybe == BloomHas(mem[..], key)
    {
      var h1 := ComputeFnv1a(key);
      var h2 := ComputeHash2(key);
      var h3 := ComputeHash3(key);
      var p1, p2, p3 := BitIndex(h1), BitIndex(h2), BitIndex(h3);
      maybe := ByteBit(mem[p1 / 8], p1) && ByteBit(mem[p2 / 8], p2) && ByteBit(mem[p3 / 8], p3);
    }

    /** The writes of a successful `kvm_put` at `at`: the entry with the
        old head of its bucket as `next`, the bucket's new head, then the
        key's Bloom bits. */
    method Append(at: nat, key: CString, value: CString)
      requires mem.Length == POOL_SIZE && DATA_OFF <= at && at + EntrySize(|key|, |value|) <= mem.Length
      modifies mem
      ensures mem[..] == PutEffect(old(mem[..]), at, Insertion(key, value))
    {
      var h := ComputeFnv1a(key);
      var bucket := BucketIndex(h);
      var head := LoadWord(BucketSlot(bucket));
      WriteEntry(at, key, value, head);
      StoreWord(BucketSlot(bucket), at);
      BloomAdd(key);
    }

    /** `kvm_put`. When the entry does not fit, returns -1 and changes
        nothing. Otherwise the pool becomes `PutEffect` of the old pool (see
        `PutEffectEntry` and its siblings for what that changes), `write_pos`
        advances by the entry size, `count` by one, and it returns 0. */
    method Put(key: CString, value: CString) returns (status: int)
      requires Valid()
      modifies this, mem
      ensures Valid()
      ensures old(writePos) + EntrySize(|key|, |value|) > memSize ==>
        status == -1 && mem[..] == old(mem[..]) &&
        writePos == old(writePos) && count == old(count) && Log == old(Log)
      ensures old(writePos) + EntrySize(|key|, |value|) <= memSize ==>
        status == 0 && Log == old(Log) + [Insertion(key, value)] &&
        writePos == old(writePos) + EntrySize(|key|, |value|) && count == old(count) + 1 &&
        mem[..] == PutEffect(old(mem[..]), old(writePos), Insertion(key, value))
    {
      var klen, vlen := |key|, |value|;
      var entrySize := EntrySize(klen, vlen);
      if writePos + entrySize > memSize {
        return -1;
      }
      var at := writePos;
      ghost var m0, log0, e := mem[..], Log, Insertion(key, value);
      Append(at, key, value);
      ghost var m1 := mem[..];
      PutPreserves(m0, m1, at, log0, e);
      writePos := writePos + entrySize;
      count := count + 1;
      Log := log0 + [e];
      status := 0;
      assert mem[..] == m1;
    }

    /** One round of `kvm_get`'s walk over the entry `e` at `off`: when its
        key is `key`, the value bytes; otherwise its `next` field. */
    method VisitEntry(off: nat, key: CString, ghost e: Insertion, ghost next: nat)
      returns (found: bool, value: Bytes, link: nat)
      requires FieldsAt(mem[..], off, e, next)
      ensures found <==> e.key == key
      ensures found ==> value == e.value
      ensures !found ==> link == next
    {
      var klen := LoadWord(off);
      var k := off + HEADER_SIZE;
      if klen == |key| && mem[k..k + klen] == key {
        var vlen := LoadWord(off + WORD_SIZE);
        found, value, link := true, mem[k + klen..k + klen + vlen], 0;
      } else {
        found, value := false, [];
        link := LoadWord(off + 2 * WORD_SIZE);
      }
    }

    /** `kvm_get`: absent when the Bloom filter rejects the key; otherwise
        the value of the first entry on the key's bucket chain whose key
        matches exactly, which is the value of the latest put of the key. */
    method Get(key: CString) returns (r: Option<Bytes>)
      requires Valid()
      ensures r == Lookup(Log, key)
    {
      var maybe := BloomMaybe(key);
      if !maybe {
        BloomRejects(mem[..], Log, key);
        return None;
      }
      var h := ComputeFnv1a(key);
      var b := BucketIndex(h);
      assert b == BucketOf(key);
      var off := LoadWord(BucketSlot(b));
      assert HeadHolds(mem[..], Log, b);
      ghost var n: nat := |Log|;
      assert Log[..n] == Log;
      while off >= DATA_OFF
        invariant n <= |Log| && off == ChainHead(Log, b, n)
        invariant Lookup(Log, key) == Lookup(Log[..n], key)
        decreases off
      {
        ChainVisit(mem[..], Log, key, n);
        ghost var j: nat := LastInBucket(Log, b, n);
        var found, value, next := VisitEntry(off, key, Log[j], ChainHead(Log, b, j));
        if found {
          return Some(value);
        }
        off := next;
        n := j;
      }
      ChainEnd(Log, key, n);
      r := None;
    }
  }

  /** Head-insertion in action: two puts of the same key on a fresh engine,
      then a get, answers with the second value. */
  method LatestPutWins() returns (r: Option<Bytes>)
    ensures r == Some([0x32])
  {
    var kvm := new Kvm.Open();
    var s := kvm.Put([0x61], [0x31]);
    s := kvm.Put([0x61], [0x32]);
    r := kvm.Get([0x61]);
    LookupLatest([Insertion([0x61], [0x31])], [0x61], [0x32]);
  }
}
