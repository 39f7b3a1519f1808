/** `ServiceRequestMinHeap`: despite its name, a binary heap that keeps the HIGHEST priority at
    the root, stored in a list. */
module RequestHeap {
  import opened Wrappers
  import opened Domain
  import opened HeapOrder

  class ServiceRequestMinHeap {
    var heap: seq<Issue>

    ghost predicate Valid()
      reads this
    {
      IsMaxHeap(heap)
    }

    constructor ()
      ensures Valid() && heap == []
    {
      heap := [];
    }

    /** `Count`. */
    function Count(): (n: nat)
      reads this
      ensures n == |heap|
    {
      |heap|
    }

    /** `GetLeftChildIndex` and `GetRightChildIndex`; `HasLeftChild` and `HasRightChild` are the
        comparisons of these with the heap's length. */
    static function LeftChildIndex(index: int): int { 2 * index + 1 }
    static function RightChildIndex(index: int): int { 2 * index + 2 }

    /** `Swap`. */
    method Swap(i: int, j: int)
      requires 0 <= i < |heap| && 0 <= j < |heap|
      modifies this
      ensures heap == SwapAt(old(heap), i, j)
    {
      var temp := heap[i];
      heap := heap[i := heap[j]];
      heap := heap[j := temp];
    }

    /** `Insert`: appends and sifts up; the heap grows by exactly that one issue. */
    method Insert(issue: Issue)
      requires Valid()
      modifies this
      ensures Valid()
      ensures multiset(heap) == multiset(old(heap)) + multiset{issue}
      ensures |heap| == old(|heap|) + 1
    {
      heap := heap + [issue];
      HeapifyUp(|heap| - 1);
    }

    /** `HeapifyUp`: swaps the entry with its parent while it has strictly higher priority. */
    method HeapifyUp(index0: int)
      requires 0 <= index0 < |heap| && HeapExceptUp(heap, index0)
      modifies this
      ensures Valid()
      ensures multiset(heap) == multiset(old(heap)) && |heap| == old(|heap|)
    {
      var index := index0;
      RootIsOwnParent(index);
      while HasParent(index) && HigherPriority(heap[index], heap[ParentIndex(index)])
        invariant 0 <= index < |heap| && HeapExceptUp(heap, index)
        invariant multiset(heap) == multiset(old(heap)) && |heap| == old(|heap|)
        decreases index
      {
        RootIsOwnParent(index);
        var p := ParentIndex(index);
        SiftUpStep(heap, index);
        Swap(index, p);
        index := p;
        RootIsOwnParent(index);
      }
      RootIsOwnParent(index);
      SiftUpDone(heap, index);
    }

    /** `Peek`: the root, which has a maximal priority; an empty heap throws. */
    function Peek(): (r: Result<Issue, Exception>)
      requires Valid()
      reads this
      ensures r.Failure? <==> |heap| == 0
      ensures r.Failure? ==> r.error == InvalidOperation("Heap is empty")
      ensures r.Success? ==> r.value in heap && forall k :: 0 <= k < |heap| ==> Prio(heap[k]) <= Prio(r.value)
    {
      if |heap| == 0 then Failure(InvalidOperation("Heap is empty"))
      else
        RootIsMax(heap);
        Success(heap[0])
    }

    /** `ExtractMin`: removes and returns an issue of maximal priority; an empty heap throws
        and stays as it is. */
    method ExtractMin() returns (r: Result<Issue, Exception>)
      requires Valid()
      modifies this
      ensures Valid()
      ensures r.Failure? <==> old(|heap|) == 0
      ensures r.Failure? ==> r.error == InvalidOperation("Heap is empty") && heap == old(heap)
      ensures r.Success? ==> && r.value == old(heap[0])
                             && (forall k :: 0 <= k < old(|heap|) ==> Prio(old(heap[k])) <= Prio(r.value))
                             && multiset(heap) == multiset(old(heap)) - multiset{r.value}
                             && |heap| == old(|heap|) - 1
    {
      if |heap| == 0 {
        return Failure(InvalidOperation("Heap is empty"));
      }
      RootIsMax(heap);
      RemoveRoot(heap);
      var item := heap[0];
      heap := heap[0 := heap[|heap| - 1]];
      heap := heap[..|heap| - 1];
      if |heap| > 0 {
        HeapifyDown(0);
      }
      return Success(item);
    }

    /** `HeapifyDown`: swaps the entry with its higher-priority child (the left one unless the
        right is strictly higher) until the entry is strictly higher than that child. */
    method HeapifyDown(index0: int)
      requires 0 <= index0 < |heap| && HeapExceptDown(heap, index0)
      modifies this
      ensures Valid()
      ensures multiset(heap) == multiset(old(heap)) && |heap| == old(|heap|)
    {
      var index := index0;
      while LeftChildIndex(index) < |heap|
        invariant 0 <= index < |heap| && HeapExceptDown(heap, index)
        invariant multiset(heap) == multiset(old(heap)) && |heap| == old(|heap|)
        decreases |heap| - index
      {
        var child := LeftChildIndex(index);
        if RightChildIndex(index) < |heap| && HigherPriority(heap[RightChildIndex(index)], heap[LeftChildIndex(index)]) {
          child := RightChildIndex(index);
        }
        if HigherPriority(heap[index], heap[child]) {
          SiftDownDone(heap, index);
          return;
        }
        SiftDownStep(heap, index, child);
        Swap(index, child);
        index := child;
      }
      SiftDownDone(heap, index);
    }

    /** `GetAllByPriority`: drains the heap into a list and then restores the saved copy, so the
        result is the contents in non-increasing priority and the heap ends as it started. */
    method GetAllByPriority() returns (result: seq<Issue>)
      requires Valid()
      modifies this
      ensures heap == old(heap)
      ensures multiset(result) == multiset(heap)
      ensures NonIncreasing(result)
    {
      result := [];
      var tempHeap := heap;
      while |heap| > 0
        invariant Valid()
        invariant multiset(result) + multiset(heap) == multiset(tempHeap)
        invariant NonIncreasing(result)
        invariant |result| > 0 ==> forall k :: 0 <= k < |heap| ==> Prio(heap[k]) <= Prio(result[|result| - 1])
        decreases |heap|
      {
        result := DrainOne(result);
      }
      heap := tempHeap;
    }

    /** One round of `GetAllByPriority`'s loop: extracts the root and appends it to `acc`. */
    method DrainOne(acc: seq<Issue>) returns (acc': seq<Issue>)
      requires Valid() && |heap| > 0 && NonIncreasing(acc)
      requires |acc| > 0 ==> forall k :: 0 <= k < |heap| ==> Prio(heap[k]) <= Prio(acc[|acc| - 1])
      modifies this
      ensures Valid() && |heap| == old(|heap|) - 1
      ensures multiset(acc') + multiset(heap) == multiset(acc) + multiset(old(heap))
      ensures NonIncreasing(acc') && |acc'| > 0
      ensures forall k :: 0 <= k < |heap| ==> Prio(heap[k]) <= Prio(acc'[|acc'| - 1])
    {
      ghost var before := heap;
      var x := ExtractMin();
      BoundBySubset(heap, before, Prio(x.value));
      NonIncreasingAppend(acc, x.value);
      acc' := acc + [x.value];
      assert multiset(acc') == multiset(acc) + multiset{x.value};
    }
  }
}
