/**
 * `MinHeap` (src/min_heap.cc): the active entries kept as a binary min-heap
 * in `keys` (parent of position i at (i-1)/2), with `indexes` following
 * every move.
 */
module MinHeaps {
  import opened PriorityQueue

  /** Parent position; for i > 0 the C++ `(i-1)/2` and Dafny's division agree. */
  function Parent(i: int): int
  {
    (i - 1) / 2
  }

  /** The positions whose parent is `idx` are exactly 2*idx+1 and 2*idx+2. */
  lemma Children(idx: int)
    requires 0 <= idx
    ensures Parent(2 * idx + 1) == idx && Parent(2 * idx + 2) == idx
    ensures forall c :: 0 < c && Parent(c) == idx ==> c == 2 * idx + 1 || c == 2 * idx + 2
  {
  }

  /** The heap order property over the whole array. */
  ghost predicate IsHeap(keys: seq<KeyValue>)
  {
    forall i {:trigger Parent(i)} :: 0 < i < |keys| ==> keys[Parent(i)].value <= keys[i].value
  }

  /**
   * Heap order everywhere except between position `idx` and its parent, and
   * idx's parent is no larger than idx's children: the state sift-up works on.
   */
  ghost predicate HeapExceptUp(keys: seq<KeyValue>, idx: int)
  {
    && (forall i {:trigger Parent(i)} :: 0 < i < |keys| && i != idx ==> keys[Parent(i)].value <= keys[i].value)
    && (0 < idx < |keys| ==>
          forall c :: 0 < c < |keys| && Parent(c) == idx ==> keys[Parent(idx)].value <= keys[c].value)
  }

  /**
   * Heap order everywhere except between position `idx` and its children, and
   * idx's parent is no larger than idx's children: the state sift-down works on.
   */
  ghost predicate HeapExceptDown(keys: seq<KeyValue>, idx: int)
  {
    && (forall i {:trigger Parent(i)} :: 0 < i < |keys| && Parent(i) != idx ==> keys[Parent(i)].value <= keys[i].value)
    && (0 < idx < |keys| ==>
          forall c :: 0 < c < |keys| && Parent(c) == idx ==> keys[Parent(idx)].value <= keys[c].value)
  }

  lemma {:induction false} AncestorLe(keys: seq<KeyValue>, i: int)
    requires IsHeap(keys)
    requires 0 <= i < |keys|
    ensures keys[0].value <= keys[i].value
    decreases i
  {
    if i > 0 {
      AncestorLe(keys, Parent(i));
    }
  }

  /** In a heap-ordered array the root holds a smallest value. */
  lemma RootIsMin(keys: seq<KeyValue>)
    requires IsHeap(keys) && |keys| > 0
    ensures forall i :: 0 <= i < |keys| ==> keys[0].value <= keys[i].value
  {
    forall i | 0 <= i < |keys| ensures keys[0].value <= keys[i].value {
      AncestorLe(keys, i);
    }
  }

  /** A new entry appended at the end leaves only its own position to sift up. */
  lemma AppendUp(keys: seq<KeyValue>, e: KeyValue)
    requires IsHeap(keys)
    ensures HeapExceptUp(keys + [e], |keys|)
  {
    var keys' := keys + [e];
    forall i | 0 < i < |keys'| && i != |keys|
      ensures keys'[Parent(i)].value <= keys'[i].value
    {
      assert keys'[Parent(i)] == keys[Parent(i)] && keys'[i] == keys[i];
    }
  }

  /** Lowering the value at position i leaves only position i to sift up. */
  lemma LowerUp(keys: seq<KeyValue>, i: int, e: KeyValue)
    requires IsHeap(keys)
    requires 0 <= i < |keys| && e.value <= keys[i].value
    ensures HeapExceptUp(keys[i := e], i)
  {
  }

  /** One sift-up swap moves the single violation one level up. */
  lemma SiftUpStep(keys: seq<KeyValue>, idx: int)
    requires HeapExceptUp(keys, idx)
    requires 0 < idx < |keys| && keys[idx].value < keys[Parent(idx)].value
    ensures HeapExceptUp(Swap(keys, idx, Parent(idx)), Parent(idx))
  {
    var p := Parent(idx);
    var keys' := Swap(keys, idx, p);
    forall i | 0 < i < |keys'| && i != p
      ensures keys'[Parent(i)].value <= keys'[i].value
    {
      if i == idx {
      } else if Parent(i) == p {
        assert keys'[i] == keys[i];
      } else if Parent(i) == idx {
        assert keys'[i] == keys[i];
      } else {
        assert keys'[i] == keys[i] && keys'[Parent(i)] == keys[Parent(i)];
      }
    }
    if 0 < p {
      forall c | 0 < c < |keys'| && Parent(c) == p
        ensures keys'[Parent(p)].value <= keys'[c].value
      {
        assert keys'[Parent(p)] == keys[Parent(p)];
        assert keys[Parent(p)].value <= keys[p].value;
      }
    }
  }

  /** Sift-up stops at the root or below a parent that is no larger. */
  lemma SiftUpDone(keys: seq<KeyValue>, idx: int)
    requires HeapExceptUp(keys, idx)
    requires 0 <= idx < |keys|
    requires idx == 0 || keys[Parent(idx)].value <= keys[idx].value
    ensures IsHeap(keys)
  {
  }

  /** Moving the last entry into the root leaves only the root to sift down. */
  lemma RemoveRootDown(keys: seq<KeyValue>)
    requires IsHeap(keys) && |keys| > 0
    ensures HeapExceptDown(RemoveAt(keys, 0), 0)
  {
    var keys' := RemoveAt(keys, 0);
    forall i | 0 < i < |keys'| && Parent(i) != 0
      ensures keys'[Parent(i)].value <= keys'[i].value
    {
      assert keys'[Parent(i)] == keys[Parent(i)] && keys'[i] == keys[i];
    }
  }

  /**
   * Taking the root out (last entry into the root, then pop) removes the
   * root's key from the abstract queue; on a heap that key has a minimum value
   * and only the new root is left to sift down.
   */
  lemma RootRemoval(maxKey: int, indexes: seq<int>, keys: seq<KeyValue>)
    requires IndexConsistent(maxKey, indexes, keys) && |keys| > 0
    ensures keys[0].key in Contents(indexes, keys) && Contents(indexes, keys)[keys[0].key] == keys[0].value
    ensures IndexConsistent(maxKey, RemoveIndexes(indexes, keys, 0), RemoveAt(keys, 0))
    ensures Contents(RemoveIndexes(indexes, keys, 0), RemoveAt(keys, 0)) == Contents(indexes, keys) - {keys[0].key}
    ensures IsHeap(keys) ==> HeapExceptDown(RemoveAt(keys, 0), 0)
    ensures IsHeap(keys) ==> forall k :: k in Contents(indexes, keys) ==> keys[0].value <= Contents(indexes, keys)[k]
  {
    EntryInContents(maxKey, indexes, keys, 0);
    RemoveAtConsistent(maxKey, indexes, keys, 0);
    if IsHeap(keys) {
      RootIsMin(keys);
      RemoveRootDown(keys);
      forall k | k in Contents(indexes, keys) ensures keys[0].value <= Contents(indexes, keys)[k] {
        ContentsDomain(maxKey, indexes, keys, k);
      }
    }
  }

  /** One sift-down swap with the smaller child moves the violation down to that child. */
  lemma SiftDownStep(keys: seq<KeyValue>, idx: int, m: int)
    requires HeapExceptDown(keys, idx)
    requires 0 <= idx && 0 < m < |keys| && Parent(m) == idx
    requires keys[m].value < keys[idx].value
    requires forall c :: 0 < c < |keys| && Parent(c) == idx ==> keys[m].value <= keys[c].value
    ensures HeapExceptDown(Swap(keys, idx, m), m)
  {
    var keys' := Swap(keys, idx, m);
    forall i | 0 < i < |keys'| && Parent(i) != m
      ensures keys'[Parent(i)].value <= keys'[i].value
    {
      if i == m {
      } else if Parent(i) == idx {
        assert keys'[i] == keys[i];
      } else if i == idx {
        assert keys'[Parent(i)] == keys[Parent(i)];
      } else {
        assert keys'[i] == keys[i] && keys'[Parent(i)] == keys[Parent(i)];
      }
    }
    forall c | 0 < c < |keys'| && Parent(c) == m
      ensures keys'[Parent(m)].value <= keys'[c].value
    {
      assert keys'[c] == keys[c];
    }
  }

  /**
   * The position sift-down picks among idx and its children: the swap moves
   * the violation to that child, and picking idx itself means the heap is whole.
   */
  lemma SmallestChild(keys: seq<KeyValue>, idx: int, m: int)
    requires 0 <= idx
    requires m == idx || (m == 2 * idx + 1 && m < |keys|) || (m == 2 * idx + 2 && m < |keys|)
    requires 2 * idx + 1 < |keys| ==> keys[m].value <= keys[2 * idx + 1].value
    requires 2 * idx + 2 < |keys| ==> keys[m].value <= keys[2 * idx + 2].value
    requires m != idx ==> idx < |keys| && keys[m].value < keys[idx].value
    ensures m != idx ==> idx < m < |keys|
    ensures HeapExceptDown(keys, idx) && m != idx ==> HeapExceptDown(Swap(keys, idx, m), m)
    ensures HeapExceptDown(keys, idx) && m == idx ==> IsHeap(keys)
  {
    Children(idx);
    if HeapExceptDown(keys, idx) {
      if m != idx {
        SiftDownStep(keys, idx, m);
      } else {
        SiftDownDone(keys, idx);
      }
    }
  }

  /** Sift-down stops when no child is smaller. */
  lemma SiftDownDone(keys: seq<KeyValue>, idx: int)
    requires HeapExceptDown(keys, idx)
    requires 0 <= idx
    requires forall c :: 0 < c < |keys| && Parent(c) == idx ==> keys[idx].value <= keys[c].value
    ensures IsHeap(keys)
  {
  }

  class MinHeap {
    const maxKey: int
    var indexes: seq<int>
    var keys: seq<KeyValue>

    ghost predicate Valid()
      reads this
    {
      IndexConsistent(maxKey, indexes, keys)
    }

    /** The abstract queue: active key to its value. */
    ghost function Model(): map<int, int>
      reads this
    {
      Contents(indexes, keys)
    }

    ghost predicate HeapOrdered()
      reads this
    {
      IsHeap(keys)
    }

    constructor (maxKey: int)
      ensures Valid() && HeapOrdered()
      ensures this.maxKey == maxKey
      ensures indexes == seq(Universe(maxKey), _ => IDX_NULL) && keys == []
      ensures Model() == map[]
    {
      this.maxKey := maxKey;
      var nulls := [];
      var i := 0;
      while i <= maxKey
        invariant 0 <= i <= Universe(maxKey)
        invariant nulls == seq(i, _ => IDX_NULL)
      {
        nulls := nulls + [IDX_NULL];
        i := i + 1;
      }
      indexes := nulls;
      keys := [];
    }

    /** Identical to `DecreaseKey`. */
    method InsertKey(element: KeyValue)
      requires Valid()
      modifies this
      ensures Valid()
      ensures !(0 <= element.key <= maxKey) ==> keys == old(keys) && indexes == old(indexes)
      ensures 0 <= element.key <= maxKey ==> Model() == old(Model())[element.key := element.value]
      ensures 0 <= element.key <= maxKey ==>
                |keys| == old(|keys|) + (if old(indexes)[element.key] == IDX_NULL then 1 else 0)
      ensures old(HeapOrdered()) &&
              (element.key !in old(Model()) || element.value <= old(Model())[element.key]) ==>
                HeapOrdered()
    {
      DecreaseKey(element);
    }

    /**
     * Out-of-universe keys are ignored; otherwise the key's entry is
     * overwritten (or appended) and sifted up while its parent is strictly
     * larger.  Only sift-up is done, so heap order survives when the key was
     * absent or its value did not grow.
     */
    method DecreaseKey(element: KeyValue)
      requires Valid()
      modifies this
      ensures Valid()
      ensures !(0 <= element.key <= maxKey) ==> keys == old(keys) && indexes == old(indexes)
      ensures 0 <= element.key <= maxKey ==> Model() == old(Model())[element.key := element.value]
      ensures 0 <= element.key <= maxKey ==>
                |keys| == old(|keys|) + (if old(indexes)[element.key] == IDX_NULL then 1 else 0)
      ensures old(HeapOrdered()) &&
              (element.key !in old(Model()) || element.value <= old(Model())[element.key]) ==>
                HeapOrdered()
    {
      if element.key < 0 || element.key > maxKey {
        return;
      }
      ContentsDomain(maxKey, indexes, keys, element.key);
      ghost var ordered := IsHeap(keys) &&
        (element.key !in Model() || element.value <= Model()[element.key]);
      var index := indexes[element.key];
      if index == IDX_NULL {
        AppendConsistent(maxKey, indexes, keys, element);
        if ordered { AppendUp(keys, element); }
        index := |keys|;
        keys := keys + [element];
        indexes := indexes[element.key := index];
      } else {
        OverwriteConsistent(maxKey, indexes, keys, element);
        if ordered { LowerUp(keys, index, element); }
        keys := keys[index := element];
      }
      ghost var size := |keys|;

      while index > 0 && keys[index].value < keys[Parent(index)].value
        invariant Valid()
        invariant 0 <= index < |keys| == size
        invariant Model() == old(Model())[element.key := element.value]
        invariant ordered ==> HeapExceptUp(keys, index)
        decreases index
      {
        if ordered { SiftUpStep(keys, index); }
        SwapKeys(index, Parent(index));
        index := Parent(index);
      }
      if ordered { SiftUpDone(keys, index); }
    }

    /**
     * Returns the root; the last entry moves into the root and is sifted
     * down.  On a heap-ordered array the root is an entry of minimum value.
     */
    method ExtractMin() returns (min: KeyValue)
      requires Valid() && |keys| > 0
      modifies this
      ensures Valid()
      ensures min == old(keys[0])
      ensures min.key in old(Model()) && min.value == old(Model())[min.key]
      ensures Model() == old(Model()) - {min.key}
      ensures |keys| == old(|keys|) - 1
      ensures old(HeapOrdered()) ==>
                HeapOrdered() && forall k :: k in old(Model()) ==> min.value <= old(Model())[k]
    {
      RootRemoval(maxKey, indexes, keys);
      ghost var removed := RemoveAt(keys, 0);
      ghost var reindexed := RemoveIndexes(indexes, keys, 0);

      min := keys[0];
      indexes := indexes[min.key := IDX_NULL];
      var last := keys[|keys| - 1];
      keys := keys[..|keys| - 1];
      if |keys| > 0 {
        indexes := indexes[last.key := 0];
        keys := keys[0 := last];
        assert keys == removed && indexes == reindexed;
        MinHeapify(0);
      } else {
        assert keys == removed && indexes == reindexed;
      }
    }

    /** The stored values in array order. */
    method GetHeap() returns (heap: seq<int>)
      requires Valid()
      ensures |heap| == |keys|
      ensures forall i :: 0 <= i < |keys| ==> heap[i] == keys[i].value
      ensures HeapOrdered() ==> forall i :: 0 < i < |heap| ==> heap[Parent(i)] <= heap[i]
    {
      heap := [];
      for i := 0 to |keys|
        invariant |heap| == i
        invariant forall j :: 0 <= j < i ==> heap[j] == keys[j].value
      {
        heap := heap + [keys[i].value];
      }
    }

    /** `size()`: the number of active keys. */
    function Size(): (r: nat)
      reads this
      requires Valid()
      ensures r == |Model()|
    {
      ContentsSize(maxKey, indexes, keys);
      |keys|
    }

    /**
     * Sift-down from `index`: swap with the smaller child (the left one on a
     * tie) while that child is strictly smaller.
     */
    method MinHeapify(index: int)
      requires Valid() && 0 <= index
      modifies this
      ensures Valid()
      ensures Model() == old(Model()) && |keys| == old(|keys|)
      ensures old(HeapExceptDown(keys, index)) ==> HeapOrdered()
      decreases |keys| - index
    {
      var n := |keys|;
      var smallest := index;
      if 2 * index + 1 < n && keys[2 * index + 1].value < keys[smallest].value {
        smallest := 2 * index + 1;
      }
      if 2 * index + 2 < n && keys[2 * index + 2].value < keys[smallest].value {
        smallest := 2 * index + 2;
      }
      ghost var ordered := HeapExceptDown(keys, index);
      SmallestChild(keys, index, smallest);
      if smallest != index {
        ghost var swapped := Swap(keys, index, smallest);
        SwapKeys(index, smallest);
        assert keys == swapped;
        MinHeapify(smallest);
      }
    }

    /** Exchanges two positions and re-registers both keys. */
    method SwapKeys(idx1: int, idx2: int)
      requires Valid()
      requires 0 <= idx1 < |keys| && 0 <= idx2 < |keys|
      modifies this
      ensures Valid()
      ensures keys == Swap(old(keys), idx1, idx2)
      ensures indexes == old(indexes)[old(keys)[idx2].key := idx1][old(keys)[idx1].key := idx2]
      ensures Model() == old(Model())
    {
      SwapConsistent(maxKey, indexes, keys, idx1, idx2);
      var aux := keys[idx1];
      keys := keys[idx1 := keys[idx2]];
      keys := keys[idx2 := aux];
      indexes := indexes[keys[idx1].key := idx1];
      indexes := indexes[keys[idx2].key := idx2];
    }
  }
}
