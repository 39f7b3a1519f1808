/** `IssuePriorityQueue`: the issue service's max-heap on priority, stored in a list.

    The queue holds the same issue objects as the issue store, and updates write into those
    objects without re-heapifying, so the heap order is not an invariant of the queue: each
    operation keeps it when it held before, and `Refresh` models the write-through. */
module IssueQueue {
  import opened Wrappers
  import opened Domain
  import opened HeapOrder

  /** The entries of `s` after the issue with identifier `x.id` has been overwritten with `x`:
      every entry holding that issue now shows the new field values. */
  function Refreshed(s: seq<Issue>, x: Issue): (r: seq<Issue>)
    ensures |r| == |s|
    ensures forall i :: 0 <= i < |s| ==> r[i] == if s[i].id == x.id then x else s[i]
  {
    if s == [] then [] else [if s[0].id == x.id then x else s[0]] + Refreshed(s[1..], x)
  }

  /** Overwriting an issue keeps the set of identifiers in the queue. */
  lemma RefreshedIds(s: seq<Issue>, x: Issue)
    ensures IdsOf(Refreshed(s, x)) == IdsOf(s)
  {
    var r := Refreshed(s, x);
    forall k | k in IdsOf(r) ensures k in IdsOf(s) {
      var i :| 0 <= i < |r| && r[i].id == k;
      assert s[i].id == k;
    }
    forall k | k in IdsOf(s) ensures k in IdsOf(r) {
      var i :| 0 <= i < |s| && s[i].id == k;
      assert r[i].id == k;
    }
  }

  /** An overwrite that keeps the issue's priority keeps the heap order. */
  lemma RefreshedKeepsHeap(s: seq<Issue>, x: Issue)
    requires IsMaxHeap(s)
    requires forall i :: 0 <= i < |s| && s[i].id == x.id ==> s[i].priority == x.priority
    ensures IsMaxHeap(Refreshed(s, x))
  {
    var r := Refreshed(s, x);
    forall i, j | 0 <= i < |r| && 0 <= j < |r| && ParentOf(i, j) ensures Prio(r[i]) >= Prio(r[j]) {
      assert Prio(r[i]) == Prio(s[i]) && Prio(r[j]) == Prio(s[j]);
    }
  }

  /** An overwrite that raises a priority can leave the queue out of heap order, because the
      queue is not re-heapified after an update. */
  lemma RefreshedMayBreakHeap(a: Issue, b: Issue)
    requires a.id != b.id && a.priority == High && b.priority == Low
    ensures IsMaxHeap([a, b])
    ensures !IsMaxHeap(Refreshed([a, b], b.(priority := Critical)))
  {
    assert ParentOf(0, 1);
    var r := Refreshed([a, b], b.(priority := Critical));
    assert r[0] == a && r[1] == b.(priority := Critical);
  }

  /** The root of a list in heap order has a maximal priority. */
  lemma RootIsMaxIfHeap(h: seq<Issue>)
    requires |h| > 0
    ensures IsMaxHeap(h) ==> forall k :: 0 <= k < |h| ==> Prio(h[k]) <= Prio(h[0])
  {
    if IsMaxHeap(h) {
      RootIsMax(h);
    }
  }

  class IssuePriorityQueue {
    var heap: seq<Issue>

    constructor ()
      ensures heap == []
    {
      heap := [];
    }

    /** `Count`. */
    function Count(): (n: nat)
      reads this
      ensures n == |heap|
    {
      |heap|
    }

    /** `Enqueue`: appends and sifts up; the queue grows by exactly that issue. */
    method Enqueue(issue: Issue)
      modifies this
      ensures multiset(heap) == multiset(old(heap)) + multiset{issue}
      ensures |heap| == old(|heap|) + 1
      ensures IsMaxHeap(old(heap)) ==> IsMaxHeap(heap)
    {
      heap := heap + [issue];
      HeapifyUp(|heap| - 1);
    }

    /** `Dequeue`: removes and returns the root; an empty queue throws and stays as it is. On a
        queue in heap order the root has a maximal priority and the order is kept. */
    method Dequeue() returns (r: Result<Issue, Exception>)
      modifies this
      ensures r.Failure? <==> old(|heap|) == 0
      ensures r.Failure? ==> r.error == InvalidOperation("Queue is empty") && heap == old(heap)
      ensures r.Success? ==> && r.value == old(heap[0])
                             && multiset(heap) == multiset(old(heap)) - multiset{r.value}
                             && |heap| == old(|heap|) - 1
      ensures r.Success? && IsMaxHeap(old(heap)) ==>
                && IsMaxHeap(heap)
                && forall k :: 0 <= k < old(|heap|) ==> Prio(old(heap[k])) <= Prio(r.value)
    {
      if |heap| == 0 {
        return Failure(InvalidOperation("Queue is empty"));
      }
      DropRoot(heap);
      RootIsMaxIfHeap(heap);
      if IsMaxHeap(heap) {
        RemoveRoot(heap);
      }
      var result := heap[0];
      heap := heap[0 := heap[|heap| - 1]];
      heap := heap[..|heap| - 1];
      if |heap| > 0 {
        HeapifyDown(0);
      }
      return Success(result);
    }

    /** `Peek`: the root without removing it; an empty queue throws. */
    function Peek(): (r: Result<Issue, Exception>)
      reads this
      ensures r.Failure? <==> |heap| == 0
      ensures r.Failure? ==> r.error == InvalidOperation("Queue is empty")
      ensures r.Success? ==> r.value == heap[0]
      ensures r.Success? && IsMaxHeap(heap) ==> forall k :: 0 <= k < |heap| ==> Prio(heap[k]) <= Prio(r.value)
    {
      if |heap| == 0 then Failure(InvalidOperation("Queue is empty"))
      else
        RootIsMaxIfHeap(heap);
        Success(heap[0])
    }

    /** `HeapifyUp`: moves the entry up while it has strictly higher priority than its parent. */
    method HeapifyUp(index0: int)
      requires 0 <= index0 < |heap|
      modifies this
      ensures multiset(heap) == multiset(old(heap)) && |heap| == old(|heap|)
      ensures HeapExceptUp(old(heap), index0) ==> IsMaxHeap(heap)
    {
      var index := index0;
      ghost var good := HeapExceptUp(heap, index);
      while index > 0
        invariant 0 <= index < |heap|
        invariant good ==> HeapExceptUp(heap, index)
        invariant multiset(heap) == multiset(old(heap)) && |heap| == old(|heap|)
        decreases index
      {
        var parentIndex := ParentIndex(index);
        RootIsOwnParent(index);
        if Prio(heap[index]) <= Prio(heap[parentIndex]) {
          break;
        }
        if good {
          SiftUpStep(heap, index);
        }
        Swap(index, parentIndex);
        index := parentIndex;
      }
      RootIsOwnParent(index);
      if good {
        SiftUpDone(heap, index);
      }
    }

    /** `HeapifyDown`: swaps the entry with its largest child (the left one on a tie) until no
        child is strictly higher. */
    method HeapifyDown(index0: int)
      requires 0 <= index0 < |heap|
      modifies this
      ensures multiset(heap) == multiset(old(heap)) && |heap| == old(|heap|)
      ensures HeapExceptDown(old(heap), index0) ==> IsMaxHeap(heap)
    {
      var index := index0;
      ghost var good := HeapExceptDown(heap, index);
      while true
        invariant 0 <= index < |heap|
        invariant good ==> HeapExceptDown(heap, index)
        invariant multiset(heap) == multiset(old(heap)) && |heap| == old(|heap|)
        decreases |heap| - index
      {
        var leftChild := 2 * index + 1;
        var rightChild := 2 * index + 2;
        var largest := index;
        if leftChild < |heap| && Prio(heap[leftChild]) > Prio(heap[largest]) {
          largest := leftChild;
        }
        if rightChild < |heap| && Prio(heap[rightChild]) > Prio(heap[largest]) {
          largest := rightChild;
        }
        if largest == index {
          if good {
            SiftDownDone(heap, index);
          }
          break;
        }
        if good {
          SiftDownStep(heap, index, largest);
        }
        Swap(index, largest);
        index := largest;
      }
    }

    /** `Swap`. */
    method Swap(i: int, j: int)
      requires 0 <= i < |heap| && 0 <= j < |heap|
      modifies this
      ensures heap == SwapAt(old(heap), i, j)
    {
      var temp := heap[i];
      heap := heap[i := heap[j]];
      heap := heap[j := temp];
    }

    /** `GetAll`: every entry, highest priority first, leaving the queue as it is. */
    function GetAll(): (r: seq<Issue>)
      reads this
      ensures multiset(r) == multiset(heap)
      ensures NonIncreasing(r)
    {
      OrderByPriorityDescending(heap)
    }

    /** The write-through of an update to an issue the queue holds. */
    method Refresh(updated: Issue)
      modifies this
      ensures heap == Refreshed(old(heap), updated)
    {
      heap := Refreshed(heap, updated);
    }
  }
}
