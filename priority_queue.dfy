/**
 * What the two priority queues of include/min_priority_queue.h share: the
 * (key, value) entry, the IDX_NULL marker, and the bookkeeping that both keep
 * between their `keys` vector of active entries and their `indexes` vector,
 * which maps every node id of the universe 0..max_key to its position in
 * `keys` or to IDX_NULL.  Both queues are specified by the same abstract
 * value: the map from every active key to its value (`Contents`).
 */
module PriorityQueue {

  /** Marker for "this key is not in the queue". */
  const IDX_NULL: int := -1

  /** One queue entry: node id `key` with priority `value`. */
  datatype KeyValue = KeyValue(key: int, value: int)

  /** Number of entries of `indexes` after the constructor ran `for i <= max_key`. */
  function Universe(maxKey: int): nat
  {
    if maxKey < 0 then 0 else maxKey + 1
  }

  /**
   * The positional invariant: every entry of `keys` is registered at its own
   * position, and every registered position holds the key that points at it.
   */
  ghost predicate IndexConsistent(maxKey: int, indexes: seq<int>, keys: seq<KeyValue>)
  {
    && |indexes| == Universe(maxKey)
    && (forall i :: 0 <= i < |keys| ==> 0 <= keys[i].key < |indexes| && indexes[keys[i].key] == i)
    && (forall k :: 0 <= k < |indexes| ==>
          indexes[k] == IDX_NULL || (0 <= indexes[k] < |keys| && keys[indexes[k]].key == k))
  }

  /** The abstract queue: each active key mapped to its stored value. */
  ghost function Contents(indexes: seq<int>, keys: seq<KeyValue>): map<int, int>
  {
    map k | 0 <= k < |indexes| && 0 <= indexes[k] < |keys| :: keys[indexes[k]].value
  }

  /** Exchange of two positions, as `swap_keys` does to `keys`. */
  function Swap(keys: seq<KeyValue>, i: int, j: int): (r: seq<KeyValue>)
    requires 0 <= i < |keys| && 0 <= j < |keys|
    ensures |r| == |keys| && r[i] == keys[j] && r[j] == keys[i]
    ensures forall m :: 0 <= m < |keys| && m != i && m != j ==> r[m] == keys[m]
  {
    keys[i := keys[j]][j := keys[i]]
  }

  /** Removal by "move the last entry into slot i, then pop_back". */
  function RemoveAt(keys: seq<KeyValue>, i: int): (r: seq<KeyValue>)
    requires 0 <= i < |keys|
    ensures |r| == |keys| - 1
    ensures forall m :: 0 <= m < |r| && m != i ==> r[m] == keys[m]
    ensures i < |r| ==> r[i] == keys[|keys| - 1]
  {
    keys[i := keys[|keys| - 1]][..|keys| - 1]
  }

  /** The `indexes` update that goes with `RemoveAt(keys, i)`. */
  function RemoveIndexes(indexes: seq<int>, keys: seq<KeyValue>, i: int): seq<int>
    requires 0 <= i < |keys|
    requires forall m :: 0 <= m < |keys| ==> 0 <= keys[m].key < |indexes|
  {
    var cleared := indexes[keys[i].key := IDX_NULL];
    if i < |keys| - 1 then cleared[keys[|keys| - 1].key := i] else cleared
  }

  lemma ContentsDomain(maxKey: int, indexes: seq<int>, keys: seq<KeyValue>, k: int)
    requires IndexConsistent(maxKey, indexes, keys)
    ensures k in Contents(indexes, keys) <==> 0 <= k < |indexes| && indexes[k] != IDX_NULL
    ensures k in Contents(indexes, keys) ==> Contents(indexes, keys)[k] == keys[indexes[k]].value
  {
  }

  /** Every entry of `keys` is an active key of the abstract queue, with its value. */
  lemma EntryInContents(maxKey: int, indexes: seq<int>, keys: seq<KeyValue>, i: int)
    requires IndexConsistent(maxKey, indexes, keys)
    requires 0 <= i < |keys|
    ensures keys[i].key in Contents(indexes, keys)
    ensures Contents(indexes, keys)[keys[i].key] == keys[i].value
  {
  }

  /** `size()` is the number of active keys: |keys| equals the size of the abstract map. */
  lemma {:induction false} ContentsSize(maxKey: int, indexes: seq<int>, keys: seq<KeyValue>)
    requires IndexConsistent(maxKey, indexes, keys)
    ensures |Contents(indexes, keys)| == |keys|
    decreases |keys|
  {
    if |keys| == 0 {
      assert Contents(indexes, keys) == map[];
    } else {
      var n := |keys| - 1;
      var last := keys[n];
      var indexes' := RemoveIndexes(indexes, keys, n);
      var keys' := RemoveAt(keys, n);
      RemoveAtConsistent(maxKey, indexes, keys, n);
      ContentsSize(maxKey, indexes', keys');
      var m := Contents(indexes, keys);
      EntryInContents(maxKey, indexes, keys, n);
      assert Contents(indexes', keys').Keys == m.Keys - {last.key};
      assert |m.Keys - {last.key}| == |m.Keys| - 1;
    }
  }

  /** Activation of an absent key by `push_back`, as both `decrease_key`s do. */
  lemma AppendConsistent(maxKey: int, indexes: seq<int>, keys: seq<KeyValue>, e: KeyValue)
    requires IndexConsistent(maxKey, indexes, keys)
    requires 0 <= e.key <= maxKey && indexes[e.key] == IDX_NULL
    ensures IndexConsistent(maxKey, indexes[e.key := |keys|], keys + [e])
    ensures Contents(indexes[e.key := |keys|], keys + [e]) == Contents(indexes, keys)[e.key := e.value]
  {
    var indexes', keys' := indexes[e.key := |keys|], keys + [e];
    forall k | 0 <= k < |indexes'|
      ensures indexes'[k] == IDX_NULL || (0 <= indexes'[k] < |keys'| && keys'[indexes'[k]].key == k)
    {
      if k != e.key && indexes[k] != IDX_NULL {
        assert keys'[indexes[k]] == keys[indexes[k]];
      }
    }
    assert Contents(indexes', keys') == Contents(indexes, keys)[e.key := e.value] by {
      forall k ensures k in Contents(indexes', keys') <==> k in Contents(indexes, keys)[e.key := e.value] {
        if k != e.key && 0 <= k < |indexes| && 0 <= indexes[k] < |keys| {
          assert keys'[indexes[k]] == keys[indexes[k]];
        }
      }
    }
  }

  /** Overwrite in place of an active key's entry. */
  lemma OverwriteConsistent(maxKey: int, indexes: seq<int>, keys: seq<KeyValue>, e: KeyValue)
    requires IndexConsistent(maxKey, indexes, keys)
    requires 0 <= e.key <= maxKey && indexes[e.key] != IDX_NULL
    ensures 0 <= indexes[e.key] < |keys|
    ensures IndexConsistent(maxKey, indexes, keys[indexes[e.key] := e])
    ensures Contents(indexes, keys[indexes[e.key] := e]) == Contents(indexes, keys)[e.key := e.value]
  {
    var keys' := keys[indexes[e.key] := e];
    assert Contents(indexes, keys') == Contents(indexes, keys)[e.key := e.value] by {
      forall k | k in Contents(indexes, keys') && k != e.key
        ensures Contents(indexes, keys')[k] == Contents(indexes, keys)[k]
      {
        assert indexes[k] != indexes[e.key];
      }
    }
  }

  /** `swap_keys` keeps the bookkeeping consistent and the abstract queue unchanged. */
  lemma SwapConsistent(maxKey: int, indexes: seq<int>, keys: seq<KeyValue>, i: int, j: int)
    requires IndexConsistent(maxKey, indexes, keys)
    requires 0 <= i < |keys| && 0 <= j < |keys|
    ensures IndexConsistent(maxKey, indexes[keys[j].key := i][keys[i].key := j], Swap(keys, i, j))
    ensures Contents(indexes[keys[j].key := i][keys[i].key := j], Swap(keys, i, j)) == Contents(indexes, keys)
  {
    var indexes' := indexes[keys[j].key := i][keys[i].key := j];
    var keys' := Swap(keys, i, j);
    forall k | 0 <= k < |indexes'|
      ensures indexes'[k] == IDX_NULL || (0 <= indexes'[k] < |keys'| && keys'[indexes'[k]].key == k)
    {
      if k != keys[i].key && k != keys[j].key && indexes[k] != IDX_NULL {
        assert indexes[k] != i && indexes[k] != j;
      }
    }
    assert Contents(indexes', keys') == Contents(indexes, keys) by {
      forall k | 0 <= k < |indexes| && k != keys[i].key && k != keys[j].key && 0 <= indexes[k] < |keys|
        ensures indexes'[k] == indexes[k] && keys'[indexes[k]] == keys[indexes[k]]
      {
        assert indexes[k] != i && indexes[k] != j;
      }
    }
  }

  /** Removal of the entry at position i by swap-with-last and pop. */
  lemma RemoveAtConsistent(maxKey: int, indexes: seq<int>, keys: seq<KeyValue>, i: int)
    requires IndexConsistent(maxKey, indexes, keys)
    requires 0 <= i < |keys|
    ensures IndexConsistent(maxKey, RemoveIndexes(indexes, keys, i), RemoveAt(keys, i))
    ensures Contents(RemoveIndexes(indexes, keys, i), RemoveAt(keys, i)) == Contents(indexes, keys) - {keys[i].key}
  {
    RemoveAtIndexes(maxKey, indexes, keys, i);
    RemoveAtContents(maxKey, indexes, keys, i);
  }

  lemma RemoveAtIndexes(maxKey: int, indexes: seq<int>, keys: seq<KeyValue>, i: int)
    requires IndexConsistent(maxKey, indexes, keys)
    requires 0 <= i < |keys|
    ensures IndexConsistent(maxKey, RemoveIndexes(indexes, keys, i), RemoveAt(keys, i))
  {
    var n := |keys| - 1;
    var indexes' := RemoveIndexes(indexes, keys, i);
    var keys' := RemoveAt(keys, i);
    forall k | 0 <= k < |indexes'|
      ensures indexes'[k] == IDX_NULL || (0 <= indexes'[k] < |keys'| && keys'[indexes'[k]].key == k)
    {
      if k != keys[i].key && k != keys[n].key && indexes[k] != IDX_NULL {
        assert indexes[k] != i && indexes[k] != n;
      }
    }
    forall m | 0 <= m < |keys'|
      ensures 0 <= keys'[m].key < |indexes'| && indexes'[keys'[m].key] == m
    {
      if m != i {
        assert keys[m].key != keys[i].key && keys[m].key != keys[n].key;
      }
    }
  }

  lemma RemoveAtContents(maxKey: int, indexes: seq<int>, keys: seq<KeyValue>, i: int)
    requires IndexConsistent(maxKey, indexes, keys)
    requires 0 <= i < |keys|
    ensures Contents(RemoveIndexes(indexes, keys, i), RemoveAt(keys, i)) == Contents(indexes, keys) - {keys[i].key}
  {
    var n := |keys| - 1;
    var indexes' := RemoveIndexes(indexes, keys, i);
    var keys' := RemoveAt(keys, i);
    forall k | 0 <= k < |indexes| && k != keys[i].key && k != keys[n].key && 0 <= indexes[k] < |keys|
      ensures indexes'[k] == indexes[k] && keys'[indexes[k]] == keys[indexes[k]]
    {
      assert indexes[k] != i && indexes[k] != n;
    }
  }
}
