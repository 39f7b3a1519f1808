/** Priority order on issues and the array-backed binary max-heap shape shared by
    `ServiceRequestMinHeap` and `IssuePriorityQueue`. */
module HeapOrder {
  import opened Domain
  import Sorting

  /** `InvalidOperationException` with its message. */
  datatype Exception = InvalidOperation(message: string)

  /** The value the source's priority comparisons use. */
  function Prio(i: Issue): int
  {
    Ordinal(i.priority)
  }

  /** The sort key of `OrderByDescending(i => i.Priority)`. */
  function NegPrio(i: Issue): int
  {
    -Prio(i)
  }

  /** `HasHigherPriority`: strictly greater priority. */
  predicate HigherPriority(a: Issue, b: Issue)
  {
    Prio(a) > Prio(b)
  }

  /** C#'s integer division, which truncates toward zero (Dafny's `/` is Euclidean). */
  function CsDiv(a: int, b: int): (q: int)
    requires b > 0
    ensures a >= 0 ==> 0 <= a - q * b < b
    ensures a < 0 ==> -b < a - q * b <= 0
  {
    if a >= 0 then a / b else -((-a) / b)
  }

  /** `GetParentIndex`: `(index - 1) / 2` in C# arithmetic. */
  function ParentIndex(index: int): (p: int)
    ensures index >= 1 ==> index == 2 * p + 1 || index == 2 * p + 2
    ensures index == 0 ==> p == 0
  {
    CsDiv(index - 1, 2)
  }

  /** `HasParent`. */
  predicate HasParent(index: int): (r: bool)
    ensures r <==> index >= 0
  {
    ParentIndex(index) >= 0
  }

  /** Because `(0 - 1) / 2` truncates to 0, `HasParent` holds at the root too: the root is its
      own parent, so the sift-up loop ends there by comparing the root with itself. */
  lemma RootIsOwnParent(index: int)
    requires 0 <= index
    ensures HasParent(index)
    ensures ParentIndex(index) == if index == 0 then 0 else (index - 1) / 2
    ensures index > 0 ==> ParentIndex(index) < index
  {
  }

  /** `i` is the parent slot of `j` in the array layout. */
  predicate ParentOf(i: int, j: int)
  {
    0 < j && i == (j - 1) / 2
  }

  /** The children of slot `k` are the slots `2k + 1` and `2k + 2`. */
  lemma ChildSlots(k: int)
    requires 0 <= k
    ensures forall j :: ParentOf(k, j) <==> j == 2 * k + 1 || j == 2 * k + 2
  {
  }

  /** A slot whose priority is at least that of each child of slot `k` dominates them all. */
  lemma DominatesChildren(h: seq<Issue>, k: int, c: int)
    requires 0 <= k && 0 <= c < |h|
    requires 2 * k + 1 < |h| ==> Prio(h[2 * k + 1]) <= Prio(h[c])
    requires 2 * k + 2 < |h| ==> Prio(h[2 * k + 2]) <= Prio(h[c])
    ensures forall j :: 0 <= j < |h| && ParentOf(k, j) ==> Prio(h[j]) <= Prio(h[c])
  {
    ChildSlots(k);
  }

  /** Every parent's priority is at least its children's. */
  ghost predicate IsMaxHeap(h: seq<Issue>)
  {
    forall i, j :: 0 <= i < |h| && 0 <= j < |h| && ParentOf(i, j) ==> Prio(h[i]) >= Prio(h[j])
  }

  /** The heap shape while an entry at `k` moves up: every link holds except the one above
      `k`, and `k`'s parent already dominates `k`'s children. */
  ghost predicate HeapExceptUp(h: seq<Issue>, k: int)
  {
    && (forall i, j :: 0 <= i < |h| && 0 <= j < |h| && ParentOf(i, j) && j != k ==> Prio(h[i]) >= Prio(h[j]))
    && (0 < k < |h| ==> forall j :: 0 <= j < |h| && ParentOf(k, j) ==> Prio(h[(k - 1) / 2]) >= Prio(h[j]))
  }

  /** The heap shape while an entry at `k` moves down: every link holds except the ones below
      `k`, and `k`'s parent already dominates `k`'s children. */
  ghost predicate HeapExceptDown(h: seq<Issue>, k: int)
  {
    && (forall i, j :: 0 <= i < |h| && 0 <= j < |h| && ParentOf(i, j) && i != k ==> Prio(h[i]) >= Prio(h[j]))
    && (0 < k < |h| ==> forall j :: 0 <= j < |h| && ParentOf(k, j) ==> Prio(h[(k - 1) / 2]) >= Prio(h[j]))
  }

  /** Non-increasing priority. */
  ghost predicate NonIncreasing(s: seq<Issue>)
  {
    forall i, j :: 0 <= i < j < |s| ==> Prio(s[i]) >= Prio(s[j])
  }

  /** Appending an entry no higher than the last keeps a sequence non-increasing. */
  lemma NonIncreasingAppend(s: seq<Issue>, x: Issue)
    requires NonIncreasing(s)
    requires |s| > 0 ==> Prio(x) <= Prio(s[|s| - 1])
    ensures NonIncreasing(s + [x])
  {
    var t := s + [x];
    forall i, j | 0 <= i < j < |t| ensures Prio(t[i]) >= Prio(t[j]) {
      if j == |s| && i < |s| - 1 {
        assert Prio(s[i]) >= Prio(s[|s| - 1]);
      }
    }
  }

  /** Every entry is dominated by its ancestors, so the root holds a maximal priority. */
  lemma {:induction false} AncestorDominates(h: seq<Issue>, k: int)
    requires IsMaxHeap(h) && 0 <= k < |h|
    ensures Prio(h[0]) >= Prio(h[k])
    decreases k
  {
    if k > 0 {
      AncestorDominates(h, (k - 1) / 2);
      assert ParentOf((k - 1) / 2, k);
    }
  }

  lemma RootIsMax(h: seq<Issue>)
    requires IsMaxHeap(h) && |h| > 0
    ensures forall k :: 0 <= k < |h| ==> Prio(h[k]) <= Prio(h[0])
  {
    forall k | 0 <= k < |h| ensures Prio(h[k]) <= Prio(h[0]) {
      AncestorDominates(h, k);
    }
  }

  /** A bound on every entry of `b` holds of every entry of a sub-multiset `a`. */
  lemma BoundBySubset(a: seq<Issue>, b: seq<Issue>, p: int)
    requires multiset(a) <= multiset(b)
    requires forall k :: 0 <= k < |b| ==> Prio(b[k]) <= p
    ensures forall k :: 0 <= k < |a| ==> Prio(a[k]) <= p
  {
    forall k | 0 <= k < |a| ensures Prio(a[k]) <= p {
      assert a[k] in multiset(a);
      assert a[k] in b;
    }
  }

  /** Sorting ascending by negated priority is ordering by descending priority. */
  lemma SortedByNegPrio(s: seq<Issue>)
    requires Sorting.SortedBy(s, NegPrio)
    ensures NonIncreasing(s)
  {
    forall i, j | 0 <= i < j < |s| ensures Prio(s[i]) >= Prio(s[j]) {
      assert NegPrio(s[i]) <= NegPrio(s[j]);
    }
  }

  /** `OrderByDescending(i => i.Priority)`: a stable sort that puts higher priorities first. */
  function OrderByPriorityDescending(s: seq<Issue>): (r: seq<Issue>)
    ensures multiset(r) == multiset(s)
    ensures NonIncreasing(r)
  {
    var r := Sorting.SortBy(s, NegPrio);
    SortedByNegPrio(r);
    r
  }

  /** `h` with the entries at `i` and `j` exchanged. */
  function SwapAt(h: seq<Issue>, i: int, j: int): (r: seq<Issue>)
    requires 0 <= i < |h| && 0 <= j < |h|
    ensures |r| == |h| && multiset(r) == multiset(h)
  {
    h[i := h[j]][j := h[i]]
  }

  /** One sift-up swap moves the hole in the heap shape from `k` to its parent. */
  lemma SiftUpStep(h: seq<Issue>, k: int)
    requires 0 < k < |h| && HeapExceptUp(h, k)
    requires Prio(h[k]) > Prio(h[(k - 1) / 2])
    ensures HeapExceptUp(SwapAt(h, k, (k - 1) / 2), (k - 1) / 2)
  {
    var p := (k - 1) / 2;
    var h' := SwapAt(h, k, p);
    forall i, j | 0 <= i < |h'| && 0 <= j < |h'| && ParentOf(i, j) && j != p
      ensures Prio(h'[i]) >= Prio(h'[j])
    {
      if j == k {
      } else if i == k {
        assert h'[j] == h[j];
      } else if i == p {
        assert h'[j] == h[j] && ParentOf(p, k);
      } else {
        assert h'[j] == h[j] && h'[i] == h[i];
      }
    }
    if 0 < p {
      forall j | 0 <= j < |h'| && ParentOf(p, j) ensures Prio(h'[(p - 1) / 2]) >= Prio(h'[j]) {
        assert ParentOf((p - 1) / 2, p) && ParentOf(p, k);
        if j != k {
          assert h'[j] == h[j];
        }
      }
    }
  }

  /** Sift-up stops where the entry is not strictly higher than its parent: the heap is whole. */
  lemma SiftUpDone(h: seq<Issue>, k: int)
    requires 0 <= k < |h| && HeapExceptUp(h, k)
    requires k == 0 || Prio(h[k]) <= Prio(h[(k - 1) / 2])
    ensures IsMaxHeap(h)
  {
  }

  /** One sift-down swap with the higher-priority child `c` moves the hole from `k` to `c`. */
  lemma SiftDownStep(h: seq<Issue>, k: int, c: int)
    requires 0 <= k && (c == 2 * k + 1 || c == 2 * k + 2) && c < |h| && HeapExceptDown(h, k)
    requires Prio(h[c]) >= Prio(h[k])
    requires Prio(h[2 * k + 1]) <= Prio(h[c])
    requires 2 * k + 2 < |h| ==> Prio(h[2 * k + 2]) <= Prio(h[c])
    ensures HeapExceptDown(SwapAt(h, k, c), c)
  {
    DominatesChildren(h, k, c);
    ChildSlots(k);
    var h' := SwapAt(h, k, c);
    forall i, j | 0 <= i < |h'| && 0 <= j < |h'| && ParentOf(i, j) && i != c
      ensures Prio(h'[i]) >= Prio(h'[j])
    {
      if j == c {
      } else if i == k {
        assert h'[j] == h[j];
      } else if j == k {
        assert h'[i] == h[i];
      } else {
        assert h'[j] == h[j] && h'[i] == h[i];
      }
    }
    forall j | 0 <= j < |h'| && ParentOf(c, j) ensures Prio(h'[(c - 1) / 2]) >= Prio(h'[j]) {
      assert h'[j] == h[j];
    }
  }

  /** Sift-down stops where every child is below the entry: the heap is whole. */
  lemma SiftDownDone(h: seq<Issue>, k: int)
    requires 0 <= k < |h| && HeapExceptDown(h, k)
    requires 2 * k + 1 < |h| ==> Prio(h[2 * k + 1]) <= Prio(h[k])
    requires 2 * k + 2 < |h| ==> Prio(h[2 * k + 2]) <= Prio(h[k])
    ensures IsMaxHeap(h)
  {
    DominatesChildren(h, k, k);
  }

  /** Moving the last entry to the root and dropping the last slot removes exactly the root. */
  lemma DropRoot(h: seq<Issue>)
    requires |h| > 0
    ensures multiset(h[0 := h[|h| - 1]][..|h| - 1]) == multiset(h) - multiset{h[0]}
  {
    if |h| > 1 {
      assert h == [h[0]] + h[1..|h| - 1] + [h[|h| - 1]];
      assert h[0 := h[|h| - 1]][..|h| - 1] == [h[|h| - 1]] + h[1..|h| - 1];
    }
  }

  /** Moving the last entry to the root and dropping the last slot leaves a heap whose only
      hole is at the root, holding every entry but the old root. */
  lemma RemoveRoot(h: seq<Issue>)
    requires IsMaxHeap(h) && |h| > 0
    ensures var h' := h[0 := h[|h| - 1]][..|h| - 1];
            HeapExceptDown(h', 0) && multiset(h') == multiset(h) - multiset{h[0]}
  {
    var h' := h[0 := h[|h| - 1]][..|h| - 1];
    DropRoot(h);
    forall i, j | 0 <= i < |h'| && 0 <= j < |h'| && ParentOf(i, j) && i != 0
      ensures Prio(h'[i]) >= Prio(h'[j])
    {
      assert h'[j] == h[j] && h'[i] == h[i];
    }
  }
}
