/** `IssueLinkedList`: the singly linked list that is the issue store of `IssueService`. */
module IssueList {
  import opened Wrappers
  import opened Domain
  import opened Seqs

  /** `IssueNode`. */
  class IssueNode {
    var data: Issue
    var next: IssueNode?

    constructor (issue: Issue)
      ensures data == issue && next == null
    {
      data := issue;
      next := null;
    }
  }

  class IssueLinkedList {
    var head: IssueNode?
    var count: int
    /** The nodes reached from `head` by following `next`, in link order. */
    ghost var spine: seq<IssueNode>
    /** The issues held, in list order. */
    ghost var Contents: seq<Issue>
    ghost var Repr: set<object>

    ghost predicate Valid()
      reads this, Repr
    {
      && this in Repr
      && |spine| == |Contents| == count
      && (forall i :: 0 <= i < |spine| ==> spine[i] in Repr)
      && head == (if spine == [] then null else spine[0])
      && (forall i {:trigger spine[i].data} :: 0 <= i < |spine| ==> spine[i].data == Contents[i])
      && (forall i {:trigger spine[i].next} :: 0 <= i < |spine| ==>
            spine[i].next == if i + 1 < |spine| then spine[i + 1] else null)
    }

    constructor ()
      ensures Valid() && fresh(Repr) && Contents == []
    {
      head := null;
      count := 0;
      spine := [];
      Contents := [];
      Repr := {this};
    }

    /** A null-terminated chain visits no node twice. */
    lemma {:induction false} NodesDistinct(i: int, j: int)
      requires Valid() && 0 <= i < j < |spine|
      ensures spine[i] != spine[j]
      decreases |spine| - j
    {
      if j + 1 < |spine| {
        NodesDistinct(i + 1, j + 1);
        assert spine[i].next == spine[i + 1] && spine[j].next == spine[j + 1];
      } else {
        assert spine[i].next == spine[i + 1];
      }
    }

    /** Every node other than the one at `k`. */
    lemma OthersDistinct(k: int)
      requires Valid() && 0 <= k < |spine|
      ensures forall i :: 0 <= i < |spine| && i != k ==> spine[i] != spine[k]
    {
      forall i | 0 <= i < |spine| && i != k ensures spine[i] != spine[k] {
        if i < k { NodesDistinct(i, k); } else { NodesDistinct(k, i); }
      }
    }

    /** `Add`: walks to the last node and links a new node after it. */
    method Add(issue: Issue)
      requires Valid()
      modifies Repr
      ensures Valid() && fresh(Repr - old(Repr))
      ensures Contents == old(Contents) + [issue]
      ensures count == old(count) + 1
    {
      var newNode := new IssueNode(issue);
      ghost var sp, c := spine, Contents;
      if head == null {
        head := newNode;
      } else {
        var current := head;
        ghost var k := 0;
        while current.next != null
          invariant 0 <= k < |spine| && current == spine[k]
          modifies {}
          decreases |spine| - k
        {
          current := current.next;
          k := k + 1;
        }
        assert k == |sp| - 1;
        OthersDistinct(k);
        label before:
        current.next := newNode;
        assert forall i :: 0 <= i < k ==> sp[i].next == old@before(sp[i].next);
      }
      count := count + 1;
      spine := sp + [newNode];
      Contents := c + [issue];
      Repr := Repr + {newNode};
    }

    /** `GetById`: the data of the first node with identifier `id`, or none. */
    method GetById(id: int) returns (r: Option<Issue>)
      requires Valid()
      ensures r == FirstWithId(Contents, id)
    {
      var current := head;
      ghost var k := 0;
      while current != null
        invariant 0 <= k <= |spine|
        invariant current == if k < |spine| then spine[k] else null
        invariant forall j :: 0 <= j < k ==> Contents[j].id != id
        decreases |spine| - k
      {
        if current.data.id == id {
          FirstAt(Contents, id, k, current.data);
          return Some(current.data);
        }
        current := current.next;
        k := k + 1;
      }
      return None;
    }

    /** Writing `x` into the data of the node that `GetById(id)` returns; callers of `GetById`
        update the issue they get back in place, and this is that write. */
    method UpdateById(id: int, x: Issue)
      requires Valid()
      modifies Repr
      ensures Valid() && Repr == old(Repr) && count == old(count)
      ensures Contents == ReplaceFirst(old(Contents), id, x)
    {
      var current, k := Locate(id);
      if current != null {
        FirstAt(Contents, id, k, x);
        ghost var c := Contents;
        SetData(current, k, x);
        UpdateSplice(c, k, x);
      } else {
        ReplaceAbsent(Contents, id, x);
      }
    }

    /** The walk of `GetById`: the first node holding `id` and its position, or `null` past the
        end when no node holds it. */
    method Locate(id: int) returns (current: IssueNode?, ghost k: int)
      requires Valid()
      ensures 0 <= k <= |spine| && (forall j :: 0 <= j < k ==> Contents[j].id != id)
      ensures current == null ==> k == |spine|
      ensures current != null ==> k < |spine| && current == spine[k] && Contents[k].id == id
    {
      current := head;
      k := 0;
      while current != null && current.data.id != id
        invariant 0 <= k <= |spine|
        invariant current == if k < |spine| then spine[k] else null
        invariant forall j :: 0 <= j < k ==> Contents[j].id != id
        decreases |spine| - k
      {
        current := current.next;
        k := k + 1;
      }
    }

    /** The write into the data of the node at position `k`. */
    method SetData(current: IssueNode, ghost k: int, x: Issue)
      requires Valid() && 0 <= k < |spine| && current == spine[k]
      modifies current, this
      ensures Valid() && Repr == old(Repr) && count == old(count)
      ensures spine == old(spine) && Contents == old(Contents)[k := x]
    {
      ghost var sp, c := spine, Contents;
      OthersDistinct(k);
      current.data := x;
      Contents := c[k := x];
      assert forall i {:trigger sp[i].data} :: 0 <= i < |sp| ==> sp[i].data == Contents[i];
    }

    /** `GetAll`: the issues in list order; its length is always `Count`. */
    method GetAll() returns (issues: seq<Issue>)
      requires Valid()
      ensures issues == Contents && |issues| == count
    {
      issues := [];
      var current := head;
      ghost var k := 0;
      while current != null
        invariant 0 <= k <= |spine|
        invariant current == if k < |spine| then spine[k] else null
        invariant issues == Contents[..k]
        decreases |spine| - k
      {
        issues := issues + [current.data];
        current := current.next;
        k := k + 1;
      }
    }

    /** Once the node at `k` points past its successor, the chain without that successor is
        linked from end to end. */
    lemma SkipLinks(sp: seq<IssueNode>, k: int)
      requires 0 <= k && k + 1 < |sp|
      requires forall i {:trigger sp[i].next} :: 0 <= i < |sp| && i != k ==>
        sp[i].next == if i + 1 < |sp| then sp[i + 1] else null
      requires sp[k].next == if k + 2 < |sp| then sp[k + 2] else null
      ensures forall i {:trigger RemoveAt(sp, k + 1)[i].next} :: 0 <= i < |sp| - 1 ==>
        RemoveAt(sp, k + 1)[i].next == if i + 1 < |sp| - 1 then RemoveAt(sp, k + 1)[i + 1] else null
    {
      var nsp := RemoveAt(sp, k + 1);
      forall i | 0 <= i < |nsp|
        ensures nsp[i].next == if i + 1 < |nsp| then nsp[i + 1] else null
      {
        if i < k {
          assert nsp[i].next == sp[i].next;
        } else if i > k {
          assert nsp[i].next == sp[i + 1].next;
        }
      }
    }

    /** The unlinking step of `Remove`: the node at position `k` skips its successor. */
    method UnlinkAfter(current: IssueNode, ghost k: int)
      requires Valid() && 0 <= k && k + 1 < |spine| && current == spine[k]
      modifies this, current
      ensures Valid() && Repr == old(Repr)
      ensures spine == RemoveAt(old(spine), k + 1)
      ensures Contents == RemoveAt(old(Contents), k + 1)
      ensures count == old(count) - 1
    {
      ghost var sp, c := spine, Contents;
      ghost var nsp := RemoveAt(sp, k + 1);
      assert forall i :: k < i < |nsp| ==> nsp[i] == sp[i + 1];
      assert forall i :: 0 <= i <= k ==> nsp[i] == sp[i];
      ghost var nc := RemoveAt(c, k + 1);
      forall i | 0 <= i < |nsp| ensures nsp[i].data == nc[i] {
        assert nsp[i].data == if i <= k then c[i] else c[i + 1];
      }
      assert forall i :: 0 <= i < |nsp| ==> nsp[i] in Repr;
      assert head == nsp[0];
      OthersDistinct(k);
      current.next := current.next.next;
      assert forall i {:trigger sp[i].next} :: 0 <= i < |sp| && i != k ==>
        sp[i].next == if i + 1 < |sp| then sp[i + 1] else null;
      SkipLinks(sp, k);
      count := count - 1;
      spine := nsp;
      Contents := nc;
    }

    /** The unlinking step of `Remove` at the head: `head` moves to its successor. */
    method UnlinkHead()
      requires Valid() && head != null
      modifies this
      ensures Valid() && Repr == old(Repr) && count == old(count) - 1
      ensures spine == old(spine[1..]) && Contents == old(Contents[1..])
    {
      ghost var sp, c := spine, Contents;
      head := head.next;
      count := count - 1;
      spine := sp[1..];
      Contents := c[1..];
      assert forall i {:trigger spine[i]} :: 0 <= i < |spine| ==> spine[i] == sp[i + 1];
    }

    /** The walk of `Remove` past the head: the node just before the first node holding `id`,
        or the last node when none does. */
    method LocateBefore(id: int) returns (current: IssueNode, ghost k: int)
      requires Valid() && head != null && head.data.id != id
      ensures 0 <= k < |spine| && current == spine[k]
      ensures forall j :: 0 <= j <= k ==> Contents[j].id != id
      ensures current.next == null ==> k == |spine| - 1
      ensures current.next != null ==> k + 1 < |spine| && current.next == spine[k + 1] && Contents[k + 1].id == id
    {
      current := head;
      k := 0;
      while current.next != null && current.next.data.id != id
        invariant 0 <= k < |spine| && current == spine[k]
        invariant forall j :: 0 <= j <= k ==> Contents[j].id != id
        decreases |spine| - k
      {
        current := current.next;
        k := k + 1;
      }
    }

    /** `Remove`: unlinks the first node with identifier `id` and reports whether there was
        one; when there is none the list is left as it was. */
    method Remove(id: int) returns (removed: bool)
      requires Valid()
      modifies Repr
      ensures Valid() && Repr == old(Repr)
      ensures removed <==> FirstWithId(old(Contents), id).Some?
      ensures Contents == RemoveFirst(old(Contents), id)
      ensures count == if removed then old(count) - 1 else old(count)
    {
      if head == null {
        return false;
      }
      ghost var sp, c := spine, Contents;
      if head.data.id == id {
        FirstAt(c, id, 0, head.data);
        UnlinkHead();
        return true;
      }
      var current, k := LocateBefore(id);
      if current.next != null {
        FirstAt(c, id, k + 1, current.next.data);
        UnlinkAfter(current, k);
        assert Contents == c[..k + 1] + c[k + 2..];
        return true;
      }
      RemoveAbsent(c, id);
      return false;
    }
  }
}
