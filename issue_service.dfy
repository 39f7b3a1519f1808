/** `IssueService`: creates, updates and deletes issues over the linked-list store, the
    priority queue and the activity log, assigning identifiers from a counter. */
module Issues {
  import opened Wrappers
  import opened Domain
  import opened Text
  import Sorting
  import opened HeapOrder
  import opened IssueList
  import opened IssueQueue
  import opened Activity

  /** The activity log's bound: the service builds it with the default size. */
  const LogSize: int := 50

  /** The sort key of `OrderByDescending(i => i.CreatedAt)`. */
  function NegCreated(i: Issue): int
  {
    -i.createdAt
  }

  /** `GetAll().OrderByDescending(i => i.CreatedAt)`: every stored issue, newest first. */
  function NewestFirst(s: seq<Issue>): (r: seq<Issue>)
    ensures multiset(r) == multiset(s)
    ensures forall i, j :: 0 <= i < j < |r| ==> r[i].createdAt >= r[j].createdAt
  {
    var r := Sorting.SortBy(s, NegCreated);
    assert forall i, j :: 0 <= i < j < |r| ==> NegCreated(r[i]) <= NegCreated(r[j]);
    r
  }

  /** The samples with the identifiers `first`, `first + 1`, ... that `nextId++` hands out
      while the sample array is built. */
  function Numbered(samples: seq<Issue>, first: int): (r: seq<Issue>)
    ensures |r| == |samples|
    ensures forall i :: 0 <= i < |r| ==> r[i] == samples[i].(id := first + i)
  {
    if samples == [] then []
    else [samples[0].(id := first)] + Numbered(samples[1..], first + 1)
  }

  /** Consecutive identifiers are distinct. */
  lemma NumberedUnique(samples: seq<Issue>, first: int)
    ensures UniqueIds(Numbered(samples, first))
  {
  }

  /** The stored issue `e` after `UpdateIssueAsync(issue)` at time `now`: six fields come from
      `issue`, the identifier and creation time stay, and the update time is set. */
  function Overwritten(e: Issue, issue: Issue, now: int): (r: Issue)
    ensures r.id == e.id && r.createdAt == e.createdAt && r.updatedAt == Some(now)
    ensures r.title == issue.title && r.description == issue.description
    ensures r.category == issue.category && r.location == issue.location
    ensures r.priority == issue.priority && r.status == issue.status
  {
    e.(title := issue.title, description := issue.description, category := issue.category,
       location := issue.location, priority := issue.priority, status := issue.status,
       updatedAt := Some(now))
  }

  function CreatedMessage(x: Issue): string
  {
    "New issue created: " + x.title + " (ID: " + IntToString(x.id) + ")"
  }

  function UpdatedMessage(issue: Issue): string
  {
    "Issue updated: " + issue.title + " (ID: " + IntToString(issue.id) + ")"
  }

  function DeletedMessage(title: string, id: int): string
  {
    "Issue deleted: " + title + " (ID: " + IntToString(id) + ")"
  }

  function SampleMessage(x: Issue): string
  {
    "Sample issue added: " + x.title + " (ID: " + IntToString(x.id) + ")"
  }

  /** Every identifier of `s` is below `bound`. */
  ghost predicate IdsBelow(s: seq<Issue>, bound: int)
  {
    forall i :: 0 <= i < |s| ==> s[i].id < bound
  }

  /** Every record of `s` is also in `t`. */
  ghost predicate AllIn(s: seq<Issue>, t: seq<Issue>)
  {
    forall i :: 0 <= i < |s| ==> s[i] in t
  }

  /** The service's invariant on the store `c`, the queue `h` and the counter `next`: stored
      identifiers are distinct and, like every queued one, below the counter, and every
      stored issue is queued. */
  ghost predicate Consistent(c: seq<Issue>, h: seq<Issue>, next: int)
  {
    UniqueIds(c) && IdsBelow(c, next) && IdsBelow(h, next) && AllIn(c, h)
  }

  /** Seeding numbers the samples from 1 and queues each of them. */
  lemma SeedConsistent(samples: seq<Issue>, h: seq<Issue>)
    requires multiset(h) == multiset(Numbered(samples, 1))
    ensures Consistent(Numbered(samples, 1), h, 1 + |samples|)
  {
    var c := Numbered(samples, 1);
    forall k | 0 <= k < |h| ensures h[k].id < 1 + |samples| {
      assert h[k] in multiset(c);
    }
    forall k | 0 <= k < |c| ensures c[k] in h {
      assert c[k] in multiset(h);
    }
  }

  /** Creating stores and queues an issue with the counter's identifier, then bumps it. */
  lemma CreateConsistent(c: seq<Issue>, h: seq<Issue>, h': seq<Issue>, x: Issue, next: int)
    requires Consistent(c, h, next) && x.id == next
    requires multiset(h') == multiset(h) + multiset{x}
    ensures Consistent(c + [x], h', next + 1)
  {
    forall k | 0 <= k < |h'| ensures h'[k].id < next + 1 {
      assert h'[k] in multiset(h) + multiset{x};
    }
    forall k | 0 <= k < |c| ensures c[k] in h' {
      assert c[k] in h;
      assert c[k] in multiset(h');
    }
    assert x in multiset(h');
  }

  /** A stored record queued before an overwrite is queued after it: as itself when its
      identifier differs, and as the new value otherwise. */
  lemma RefreshedHolds(h: seq<Issue>, x: Issue, y: Issue)
    requires y in h
    ensures (if y.id == x.id then x else y) in Refreshed(h, x)
  {
    var n :| 0 <= n < |h| && h[n] == y;
    assert Refreshed(h, x)[n] == if y.id == x.id then x else y;
  }

  /** Updating overwrites the stored issue `e` in the store and, through the shared object,
      in the queue, keeping its identifier. */
  lemma UpdateConsistent(c: seq<Issue>, h: seq<Issue>, id: int, e: Issue, x: Issue, next: int)
    requires Consistent(c, h, next) && FirstWithId(c, id) == Some(e) && x.id == id
    ensures Consistent(ReplaceFirst(c, id, x), Refreshed(h, x), next)
  {
    var c', h' := ReplaceFirst(c, id, x), Refreshed(h, x);
    ReplaceFirstUnique(c, id, x);
    ReplaceFirstIds(c, id, x);
    var i :| 0 <= i < |c| && c[i] == e && e.id == id;
    assert x.id < next;
    assert IdsBelow(c', next);
    assert IdsBelow(h', next);
    forall k | 0 <= k < |c'| ensures c'[k] in h' {
      RefreshedHolds(h, x, c[k]);
    }
  }

  /** Deleting drops a stored issue and leaves the queue. */
  lemma DeleteConsistent(c: seq<Issue>, h: seq<Issue>, id: int, next: int)
    requires Consistent(c, h, next)
    ensures Consistent(RemoveFirst(c, id), h, next)
  {
    var c' := RemoveFirst(c, id);
    RemoveFirstUnique(c, id);
    forall k | 0 <= k < |c'| ensures c'[k] in h && c'[k].id < next {
      assert c'[k] in multiset(c);
    }
  }

  class IssueService {
    const storage: IssueLinkedList
    const queue: IssuePriorityQueue
    const log: ActivityStack
    var nextId: int
    ghost var Repr: set<object>

    /** The store, queue and log are separate objects, each valid. */
    ghost predicate Framed()
      reads this, Repr
    {
      && this in Repr && storage in Repr && queue in Repr && log in Repr && storage.Repr <= Repr
      && this !in storage.Repr && queue !in storage.Repr && log !in storage.Repr
      && storage.Valid() && log.Valid() && log.maxSize == LogSize
    }

    ghost predicate Valid()
      reads this, Repr
    {
      Framed() && Consistent(storage.Contents, queue.heap, nextId)
    }

    /** The constructor with its sample data: each sample takes the next identifier, then
        each is stored, queued and logged in turn. */
    constructor (samples: seq<Issue>)
      ensures Valid() && fresh(Repr)
      ensures nextId == 1 + |samples|
      ensures storage.Contents == Numbered(samples, 1)
      ensures multiset(queue.heap) == multiset(Numbered(samples, 1)) && IsMaxHeap(queue.heap)
    {
      var numbered := Numbered(samples, 1);
      NumberedUnique(samples, 1);
      storage := new IssueLinkedList();
      queue := new IssuePriorityQueue();
      log := new ActivityStack(LogSize);
      nextId := 1 + |samples|;
      new;
      Repr := {this, queue, log} + storage.Repr;
      var i := 0;
      while i < |numbered|
        invariant 0 <= i <= |numbered|
        invariant Framed() && fresh(Repr)
        invariant nextId == 1 + |samples|
        invariant storage.Contents == numbered[..i]
        invariant multiset(queue.heap) == multiset(numbered[..i]) && IsMaxHeap(queue.heap)
      {
        var x := numbered[i];
        AddSample(x);
        assert numbered[..i + 1] == numbered[..i] + [x];
        i := i + 1;
      }
      assert i == |numbered|;
      assert numbered[..i] == numbered;
      SeedConsistent(samples, queue.heap);
    }

    /** The body of the seeding loop: stores, queues and logs one sample. */
    method AddSample(x: Issue)
      requires Framed()
      modifies Repr
      ensures Framed() && fresh(Repr - old(Repr)) && nextId == old(nextId)
      ensures storage.Contents == old(storage.Contents) + [x]
      ensures multiset(queue.heap) == multiset(old(queue.heap)) + multiset{x}
      ensures IsMaxHeap(old(queue.heap)) ==> IsMaxHeap(queue.heap)
      ensures log.items == Pushed(old(log.items), LogSize, SampleMessage(x))
    {
      storage.Add(x);
      queue.Enqueue(x);
      LogActivity(SampleMessage(x));
      Repr := Repr + storage.Repr;
    }

    /** `LogActivity`. */
    method LogActivity(activity: string)
      requires log.Valid()
      modifies log
      ensures log.Valid()
      ensures log.items == Pushed(old(log.items), log.maxSize, activity)
    {
      log.Push(activity);
    }

    /** `CreateIssueAsync`: takes the next identifier, stamps the issue as submitted at `now`,
        stores, queues and logs it, and returns its identifier. */
    method CreateIssue(issue: Issue, now: int) returns (id: int)
      requires Valid()
      modifies Repr
      ensures Valid() && fresh(Repr - old(Repr))
      ensures id == old(nextId) && nextId == old(nextId) + 1
      ensures var x := issue.(id := id, createdAt := now, status := Submitted);
              && storage.Contents == old(storage.Contents) + [x]
              && multiset(queue.heap) == multiset(old(queue.heap)) + multiset{x}
              && log.items == Pushed(old(log.items), LogSize, CreatedMessage(x))
      ensures IsMaxHeap(old(queue.heap)) ==> IsMaxHeap(queue.heap)
    {
      var x := issue.(id := nextId, createdAt := now, status := Submitted);
      ghost var c, h := storage.Contents, queue.heap;
      nextId := nextId + 1;
      storage.Add(x);
      queue.Enqueue(x);
      LogActivity(CreatedMessage(x));
      Repr := Repr + storage.Repr;
      CreateConsistent(c, h, queue.heap, x, x.id);
      return x.id;
    }

    /** `GetIssueByIdAsync`. */
    method GetIssueById(id: int) returns (r: Option<Issue>)
      requires Valid()
      ensures r == FirstWithId(storage.Contents, id)
    {
      r := storage.GetById(id);
    }

    /** `GetAllIssuesAsync`: the stored issues, newest first. */
    method GetAllIssues() returns (r: seq<Issue>)
      requires Valid()
      ensures r == NewestFirst(storage.Contents)
    {
      var all := storage.GetAll();
      r := NewestFirst(all);
    }

    /** `GetIssuesByPriorityAsync`. */
    function GetIssuesByPriority(): (r: seq<Issue>)
      reads this, queue
      ensures multiset(r) == multiset(queue.heap) && NonIncreasing(r)
    {
      queue.GetAll()
    }

    /** `GetRecentActivitiesAsync`: the `count` most recent entries, newest first, or all of
        them when fewer are logged, and none for a non-positive `count`. */
    function GetRecentActivities(count: int): (r: seq<string>)
      reads this, log
      ensures |r| == if count <= 0 then 0 else if count < |log.items| then count else |log.items|
      ensures forall k :: 0 <= k < |r| ==> r[k] == log.items[k]
    {
      log.GetRecent(count)
    }

    /** `UpdateIssueAsync`: when the identifier is stored, overwrites six fields of that issue
        and its update time, in the store and (through the shared object) in the queue, and
        logs once; otherwise changes nothing. The queue is not re-heapified. */
    method UpdateIssue(issue: Issue, now: int) returns (updated: bool)
      requires Valid()
      modifies Repr
      ensures Valid() && Repr == old(Repr) && nextId == old(nextId)
      ensures updated <==> FirstWithId(old(storage.Contents), issue.id).Some?
      ensures !updated ==> && storage.Contents == old(storage.Contents)
                           && queue.heap == old(queue.heap) && log.items == old(log.items)
      ensures updated ==>
                var x := Overwritten(FirstWithId(old(storage.Contents), issue.id).value, issue, now);
                && storage.Contents == ReplaceFirst(old(storage.Contents), issue.id, x)
                && queue.heap == Refreshed(old(queue.heap), x)
                && log.items == Pushed(old(log.items), LogSize, UpdatedMessage(issue))
    {
      var existing := storage.GetById(issue.id);
      if existing.None? {
        return false;
      }
      var x := Overwritten(existing.value, issue, now);
      UpdateConsistent(storage.Contents, queue.heap, issue.id, existing.value, x, nextId);
      ApplyUpdate(x, UpdatedMessage(issue));
      return true;
    }

    /** The writes of an update: the store's record and, through the shared object, the
        queue's entry take the new value `x`, and the log records `message`. */
    method ApplyUpdate(x: Issue, message: string)
      requires Framed()
      modifies Repr
      ensures Framed() && Repr == old(Repr) && nextId == old(nextId)
      ensures storage.Contents == ReplaceFirst(old(storage.Contents), x.id, x)
      ensures queue.heap == Refreshed(old(queue.heap), x)
      ensures log.items == Pushed(old(log.items), LogSize, message)
    {
      storage.UpdateById(x.id, x);
      queue.Refresh(x);
      LogActivity(message);
    }

    /** `DeleteIssueAsync`: removes the first issue with the identifier from the store and logs
        it; the queue keeps the issue. An absent identifier changes nothing. */
    method DeleteIssue(id: int) returns (removed: bool)
      requires Valid()
      modifies Repr
      ensures Valid() && Repr == old(Repr) && nextId == old(nextId)
      ensures removed <==> FirstWithId(old(storage.Contents), id).Some?
      ensures storage.Contents == RemoveFirst(old(storage.Contents), id)
      ensures queue.heap == old(queue.heap)
      ensures !removed ==> log.items == old(log.items)
      ensures removed ==>
                log.items == Pushed(old(log.items), LogSize, DeletedMessage(FirstWithId(old(storage.Contents), id).value.title, id))
    {
      var issue := storage.GetById(id);
      ghost var c, h := storage.Contents, queue.heap;
      if issue.None? {
        RemoveAbsent(c, id);
        return false;
      }
      removed := storage.Remove(id);
      LogActivity(DeletedMessage(issue.value.title, id));
      DeleteConsistent(c, h, id, nextId);
    }
  }
}
