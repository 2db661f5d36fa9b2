/** What the engine promises, stated over the history of its successful puts:
    a lookup answers with the value of the most recent put of the key. */
module History {
  import opened Hashes

  datatype Option<T> = None | Some(value: T)

  /** One successful `kvm_put(key, value)`. */
  datatype Insertion = Insertion(key: Bytes, value: Bytes)

  /** The value of the latest insertion of `key` in `log` (oldest first). */
  function Lookup(log: seq<Insertion>, key: Bytes): Option<Bytes>
  {
    if |log| == 0 then None
    else if log[|log| - 1].key == key then Some(log[|log| - 1].value)
    else Lookup(log[..|log| - 1], key)
  }

  /** The latest put of a key wins: `put(k, v1); put(k, v2)` then `get(k)` is `v2`. */
  lemma {:induction false} LookupLatest(log: seq<Insertion>, key: Bytes, value: Bytes)
    ensures Lookup(log + [Insertion(key, value)], key) == Some(value)
  {
  }

  /** A put of another key leaves the answer for `key` as it was. */
  lemma {:induction false} LookupOther(log: seq<Insertion>, k: Bytes, v: Bytes, key: Bytes)
    requires k != key
    ensures Lookup(log + [Insertion(k, v)], key) == Lookup(log, key)
  {
    assert (log + [Insertion(k, v)])[..|log|] == log;
  }

  /** A key is absent exactly when it was never put. */
  lemma {:induction false} LookupAbsent(log: seq<Insertion>, key: Bytes)
    ensures Lookup(log, key) == None <==> forall i :: 0 <= i < |log| ==> log[i].key != key
  {
    if |log| > 0 {
      var init := log[..|log| - 1];
      LookupAbsent(init, key);
      assert forall i :: 0 <= i < |init| ==> init[i] == log[i];
    }
  }

  /** A key is found with `value` exactly when some put of the key with that
      value was followed by no other put of the key. */
  lemma {:induction false} LookupFound(log: seq<Insertion>, key: Bytes, value: Bytes)
    ensures Lookup(log, key) == Some(value) <==>
      exists i :: 0 <= i < |log| && log[i] == Insertion(key, value) &&
        forall j :: i < j < |log| ==> log[j].key != key
  {
    if |log| > 0 {
      var n := |log| - 1;
      var init := log[..n];
      LookupFound(init, key, value);
      assert forall i :: 0 <= i < |init| ==> init[i] == log[i];
      if log[n].key == key {
        if Lookup(log, key) != Some(value) {
          forall i | 0 <= i < |log| && log[i] == Insertion(key, value)
            ensures exists j :: i < j < |log| && log[j].key == key
          {
            assert i != n;
            assert i < n && log[n].key == key;
          }
        }
      } else if Lookup(log, key) == Some(value) {
        var i :| 0 <= i < |init| && init[i] == Insertion(key, value) &&
          forall j :: i < j < |init| ==> init[j].key != key;
        assert forall j :: i < j < |log| ==> log[j].key != key;
      } else {
        forall i | 0 <= i < |log| && log[i] == Insertion(key, value)
          ensures exists j :: i < j < |log| && log[j].key == key
        {
          assert i < n;
          var j :| i < j < |init| && init[j].key == key;
          assert log[j].key == key;
        }
      }
    }
  }

  /** Two adjacent puts of different keys commute: for distinct keys the
      answers do not depend on the order of insertion. */
  lemma {:induction false} LookupSwap(a: seq<Insertion>, x: Insertion, y: Insertion, b: seq<Insertion>, key: Bytes)
    requires x.key != y.key
    ensures Lookup(a + [x, y] + b, key) == Lookup(a + [y, x] + b, key)
  {
    var s, t := a + [x, y] + b, a + [y, x] + b;
    if |b| == 0 {
      assert s == (a + [x]) + [y] && t == (a + [y]) + [x];
      assert s[..|s| - 1] == a + [x] && t[..|t| - 1] == a + [y];
      assert (a + [x])[..|a|] == a && (a + [y])[..|a|] == a;
    } else {
      var init := b[..|b| - 1];
      assert s[..|s| - 1] == a + [x, y] + init;
      assert t[..|t| - 1] == a + [y, x] + init;
      assert s[|s| - 1] == t[|t| - 1] == b[|b| - 1];
      LookupSwap(a, x, y, init, key);
    }
  }
}
