/**
 * `UnorderedArray` (src/unordered_array.cc): the active entries in arbitrary
 * order, `extract_min` scanning the whole universe 0..max_key.
 */
module UnorderedArrays {
  import opened PriorityQueue

  class UnorderedArray {
    const maxKey: int
    var indexes: seq<int>
    var keys: seq<KeyValue>

    ghost predicate Valid()
      reads this
    {
      IndexConsistent(maxKey, indexes, keys)
    }

    /** The abstract queue: active key to its value. */
    ghost function Model(): map<int, int>
      reads this
    {
      Contents(indexes, keys)
    }

    constructor (maxKey: int)
      ensures Valid()
      ensures this.maxKey == maxKey
      ensures indexes == seq(Universe(maxKey), _ => IDX_NULL) && keys == []
      ensures Model() == map[]
    {
      this.maxKey := maxKey;
      var nulls := [];
      var i := 0;
      while i <= maxKey
        invariant 0 <= i <= Universe(maxKey)
        invariant nulls == seq(i, _ => IDX_NULL)
      {
        nulls := nulls + [IDX_NULL];
        i := i + 1;
      }
      indexes := nulls;
      keys := [];
    }

    /** Identical to `DecreaseKey`. */
    method InsertKey(element: KeyValue)
      requires Valid()
      modifies this
      ensures Valid()
      ensures !(0 <= element.key <= maxKey) ==> keys == old(keys) && indexes == old(indexes)
      ensures 0 <= element.key <= maxKey ==> Model() == old(Model())[element.key := element.value]
      ensures 0 <= element.key <= maxKey && old(indexes)[element.key] == IDX_NULL ==>
                keys == old(keys) + [element]
      ensures 0 <= element.key <= maxKey && old(indexes)[element.key] != IDX_NULL ==>
                keys == old(keys)[old(indexes)[element.key] := element]
    {
      DecreaseKey(element);
    }

    /**
     * Out-of-universe keys are ignored; an absent key is appended; a present
     * key's entry is overwritten in place (in either direction), no other
     * entry moving.
     */
    method DecreaseKey(element: KeyValue)
      requires Valid()
      modifies this
      ensures Valid()
      ensures !(0 <= element.key <= maxKey) ==> keys == old(keys) && indexes == old(indexes)
      ensures 0 <= element.key <= maxKey ==> Model() == old(Model())[element.key := element.value]
      ensures 0 <= element.key <= maxKey && old(indexes)[element.key] == IDX_NULL ==>
                keys == old(keys) + [element]
      ensures 0 <= element.key <= maxKey && old(indexes)[element.key] != IDX_NULL ==>
                keys == old(keys)[old(indexes)[element.key] := element]
    {
      if element.key < 0 || element.key > maxKey {
        return;
      }
      var index := indexes[element.key];
      if index == IDX_NULL {
        AppendConsistent(maxKey, indexes, keys, element);
        indexes := indexes[element.key := |keys|];
        keys := keys + [element];
      } else {
        OverwriteConsistent(maxKey, indexes, keys, element);
        keys := keys[index := element];
      }
    }

    /**
     * Scans the universe in ascending order keeping the first key of
     * strictly smallest value, then removes it by swap-with-last and pop.
     */
    method ExtractMin() returns (min: KeyValue)
      requires Valid() && |keys| > 0
      modifies this
      ensures Valid()
      ensures min.key in old(Model()) && min.value == old(Model())[min.key]
      ensures forall k :: k in old(Model()) ==> min.value <= old(Model())[k]
      ensures forall k :: k in old(Model()) && old(Model())[k] == min.value ==> min.key <= k
      ensures Model() == old(Model()) - {min.key}
      ensures keys == RemoveAt(old(keys), old(indexes)[min.key])
    {
      var minKey := -1;
      for i := 0 to maxKey + 1
        invariant minKey == -1 ==> forall j :: 0 <= j < i ==> indexes[j] == IDX_NULL
        invariant minKey != -1 ==> 0 <= minKey < i && indexes[minKey] != IDX_NULL
        invariant minKey != -1 ==> forall j :: 0 <= j < i && indexes[j] != IDX_NULL ==>
                    keys[indexes[minKey]].value <= keys[indexes[j]].value
        invariant minKey != -1 ==> forall j :: 0 <= j < minKey && indexes[j] != IDX_NULL ==>
                    keys[indexes[minKey]].value < keys[indexes[j]].value
      {
        if indexes[i] != IDX_NULL &&
           (minKey == -1 || keys[indexes[i]].value < keys[indexes[minKey]].value) {
          minKey := i;
        }
      }
      assert indexes[keys[0].key] == 0;
      assert minKey != -1;
      forall k | k in Model() ensures keys[indexes[minKey]].value <= Model()[k] {
        ContentsDomain(maxKey, indexes, keys, k);
      }
      forall k | k in Model() && Model()[k] == keys[indexes[minKey]].value ensures minKey <= k {
        ContentsDomain(maxKey, indexes, keys, k);
      }
      min := keys[indexes[minKey]];
      var index := indexes[min.key];
      RemoveAtConsistent(maxKey, indexes, keys, index);
      ContentsDomain(maxKey, indexes, keys, minKey);
      indexes := indexes[min.key := IDX_NULL];
      keys := keys[index := keys[|keys| - 1]];
      keys := keys[..|keys| - 1];
      if index < |keys| {
        indexes := indexes[keys[index].key := index];
      }
    }

    /** `size()`: the number of active keys. */
    function Size(): (r: nat)
      reads this
      requires Valid()
      ensures r == |Model()|
    {
      ContentsSize(maxKey, indexes, keys);
      |keys|
    }
  }
}
