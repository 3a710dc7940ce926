/**
 * The `MinPriorityQueue<T>*` that `dijkstra` and `prim` allocate as a
 * `MinHeap` or an `UnorderedArray` according to their `heap` flag
 * (src/main.cc:64-67, 106-109).  Virtual dispatch is modelled as a tagged
 * choice: one flag and exactly one of the two implementations.  Both share the
 * abstract specification of include/min_priority_queue.h: a map from active
 * key to value over the universe 0..max_key.
 */
module Queues {
  import opened PriorityQueue
  import opened MinHeaps
  import opened UnorderedArrays

  class Queue {
    const useHeap: bool
    const maxKey: int
    const heap: MinHeap?
    const unordered: UnorderedArray?
    ghost const Repr: set<object>

    ghost predicate Valid()
      reads this, Repr
    {
      && (useHeap ==> heap != null && Repr == {heap} && heap.maxKey == maxKey && heap.Valid())
      && (!useHeap ==> unordered != null && Repr == {unordered} && unordered.maxKey == maxKey && unordered.Valid())
    }

    /** The abstract queue of whichever implementation was chosen. */
    ghost function Model(): map<int, int>
      reads this, Repr
      requires Valid()
    {
      if useHeap then heap.Model() else unordered.Model()
    }

    /** The ordering the chosen implementation relies on to return a minimum. */
    ghost predicate Ordered()
      reads this, Repr
      requires Valid()
    {
      useHeap ==> heap.HeapOrdered()
    }

    constructor (useHeap: bool, maxKey: int)
      ensures Valid() && fresh(Repr) && Ordered()
      ensures this.useHeap == useHeap && this.maxKey == maxKey
      ensures Model() == map[]
    {
      this.useHeap := useHeap;
      this.maxKey := maxKey;
      if useHeap {
        var h := new MinHeap(maxKey);
        heap, unordered := h, null;
        Repr := {h};
      } else {
        var a := new UnorderedArray(maxKey);
        heap, unordered := null, a;
        Repr := {a};
      }
    }

    /** Identical to `DecreaseKey` in both implementations. */
    method InsertKey(element: KeyValue)
      requires Valid()
      modifies Repr
      ensures Valid()
      ensures Model() == if 0 <= element.key <= maxKey then old(Model())[element.key := element.value]
                         else old(Model())
      ensures old(Ordered()) &&
              (element.key !in old(Model()) || element.value <= old(Model())[element.key]) ==>
                Ordered()
    {
      DecreaseKey(element);
    }

    method DecreaseKey(element: KeyValue)
      requires Valid()
      modifies Repr
      ensures Valid()
      ensures Model() == if 0 <= element.key <= maxKey then old(Model())[element.key := element.value]
                         else old(Model())
      ensures old(Ordered()) &&
              (element.key !in old(Model()) || element.value <= old(Model())[element.key]) ==>
                Ordered()
    {
      if useHeap {
        heap.DecreaseKey(element);
      } else {
        unordered.DecreaseKey(element);
      }
    }

    /** Removes an active entry; a minimum one whenever the ordering holds. */
    method ExtractMin() returns (min: KeyValue)
      requires Valid() && |Model()| > 0
      modifies Repr
      ensures Valid()
      ensures min.key in old(Model()) && min.value == old(Model())[min.key]
      ensures Model() == old(Model()) - {min.key}
      ensures old(Ordered()) ==>
                Ordered() && forall k :: k in old(Model()) ==> min.value <= old(Model())[k]
    {
      if useHeap {
        ContentsSize(heap.maxKey, heap.indexes, heap.keys);
        min := heap.ExtractMin();
      } else {
        ContentsSize(unordered.maxKey, unordered.indexes, unordered.keys);
        min := unordered.ExtractMin();
      }
    }

    /** `size()`: the number of active keys. */
    function Size(): (r: nat)
      reads this, Repr
      requires Valid()
      ensures r == |Model()|
    {
      if useHeap then heap.Size() else unordered.Size()
    }
  }
}
