/** `IssueSearchTree`: the unbalanced binary search tree keyed by issue identifier. */
module KeyIndex {
  import opened Wrappers
  import opened Domain

  /** `BSTNode`; `Nil` is a null child link. */
  datatype Tree = Nil | Node(left: Tree, data: Issue, right: Tree)

  /** The identifiers stored in `t`. */
  function Ids(t: Tree): set<int>
  {
    match t
    case Nil => {}
    case Node(l, d, r) => Ids(l) + {d.id} + Ids(r)
  }

  /** Binary-search-tree ordering: `left.key < key < right.key` throughout. */
  ghost predicate Ordered(t: Tree)
  {
    match t
    case Nil => true
    case Node(l, d, r) =>
      && Ordered(l) && Ordered(r)
      && (forall k :: k in Ids(l) ==> k < d.id)
      && (forall k :: k in Ids(r) ==> d.id < k)
  }

  /** `InsertRecursive`: descends by identifier and hangs a new leaf at the first empty
      link; an identifier already on the path leaves the tree as it is. */
  function InsertNode(t: Tree, issue: Issue): (r: Tree)
    ensures Ids(r) == Ids(t) + {issue.id}
  {
    match t
    case Nil => Node(Nil, issue, Nil)
    case Node(l, d, rt) =>
      if issue.id < d.id then Node(InsertNode(l, issue), d, rt)
      else if issue.id > d.id then Node(l, d, InsertNode(rt, issue))
      else t
  }

  /** `SearchRecursive`. */
  function SearchNode(t: Tree, id: int): (r: Option<Issue>)
    ensures r.Some? ==> r.value.id == id
  {
    match t
    case Nil => None
    case Node(l, d, r) =>
      if id == d.id then Some(d)
      else if id < d.id then SearchNode(l, id)
      else SearchNode(r, id)
  }

  /** `InOrderTraversal`. */
  function InOrder(t: Tree): seq<Issue>
  {
    match t
    case Nil => []
    case Node(l, d, r) => InOrder(l) + [d] + InOrder(r)
  }

  /** Strictly ascending identifiers. */
  ghost predicate StrictlyAscending(s: seq<Issue>)
  {
    forall i, j :: 0 <= i < j < |s| ==> s[i].id < s[j].id
  }

  /** Insertion keeps the ordering. */
  lemma {:induction false} InsertKeepsOrder(t: Tree, issue: Issue)
    requires Ordered(t)
    ensures Ordered(InsertNode(t, issue))
  {
    match t
    case Nil =>
    case Node(l, d, r) =>
      if issue.id < d.id {
        InsertKeepsOrder(l, issue);
      } else if issue.id > d.id {
        InsertKeepsOrder(r, issue);
      }
  }

  /** A search finds exactly the identifiers stored, and what it finds carries that id. */
  lemma {:induction false} SearchFindsStored(t: Tree, id: int)
    requires Ordered(t)
    ensures SearchNode(t, id).Some? <==> id in Ids(t)
    ensures SearchNode(t, id).Some? ==> SearchNode(t, id).value.id == id
  {
    match t
    case Nil =>
    case Node(l, d, r) =>
      if id < d.id {
        SearchFindsStored(l, id);
      } else if id > d.id {
        SearchFindsStored(r, id);
      }
  }

  /** Insertion followed by search: the tree behaves as a map in which the first record
      inserted for an identifier wins. Insert and search descend along the same path, so
      this holds of every tree, ordered or not. */
  lemma {:induction false} InsertThenSearch(t: Tree, issue: Issue, id: int)
    ensures SearchNode(InsertNode(t, issue), id)
         == if id == issue.id && SearchNode(t, id).None? then Some(issue) else SearchNode(t, id)
  {
    match t
    case Nil =>
    case Node(l, d, r) =>
      if issue.id < d.id {
        InsertThenSearch(l, issue, id);
      } else if issue.id > d.id {
        InsertThenSearch(r, issue, id);
      }
  }

  /** A duplicate identifier leaves an ordered tree structurally unchanged. */
  lemma {:induction false} InsertDuplicate(t: Tree, issue: Issue)
    requires Ordered(t) && issue.id in Ids(t)
    ensures InsertNode(t, issue) == t
  {
    match t
    case Nil =>
    case Node(l, d, r) =>
      if issue.id < d.id {
        InsertDuplicate(l, issue);
      } else if issue.id > d.id {
        InsertDuplicate(r, issue);
      }
  }

  /** Identifiers of a concatenation. */
  lemma IdsOfConcat(a: seq<Issue>, b: seq<Issue>)
    ensures IdsOf(a + b) == IdsOf(a) + IdsOf(b)
  {
    var s := a + b;
    forall k | k in IdsOf(s) ensures k in IdsOf(a) + IdsOf(b) {
      var i :| 0 <= i < |s| && s[i].id == k;
      if i < |a| { assert s[i] == a[i]; } else { assert s[i] == b[i - |a|]; }
    }
    forall k | k in IdsOf(a) + IdsOf(b) ensures k in IdsOf(s) {
      if k in IdsOf(a) {
        var i :| 0 <= i < |a| && a[i].id == k;
        assert s[i] == a[i];
      } else {
        var i :| 0 <= i < |b| && b[i].id == k;
        assert s[|a| + i] == b[i];
      }
    }
  }

  /** In-order traversal lists exactly the stored identifiers. */
  lemma {:induction false} InOrderIds(t: Tree)
    ensures IdsOf(InOrder(t)) == Ids(t)
  {
    match t
    case Nil =>
    case Node(l, d, r) =>
      InOrderIds(l);
      InOrderIds(r);
      IdsOfConcat(InOrder(l) + [d], InOrder(r));
      IdsOfConcat(InOrder(l), [d]);
  }

  /** Joining two ascending runs around a separating middle record stays ascending. */
  lemma AscendingJoin(a: seq<Issue>, d: Issue, b: seq<Issue>)
    requires StrictlyAscending(a) && StrictlyAscending(b)
    requires forall k :: k in IdsOf(a) ==> k < d.id
    requires forall k :: k in IdsOf(b) ==> d.id < k
    ensures StrictlyAscending(a + [d] + b)
  {
    var s := a + [d] + b;
    forall i, j | 0 <= i < j < |s| ensures s[i].id < s[j].id {
      if j < |a| {
        assert s[i] == a[i] && s[j] == a[j];
      } else if i > |a| {
        assert s[i] == b[i - |a| - 1] && s[j] == b[j - |a| - 1];
      } else {
        if i < |a| { assert s[i] == a[i]; assert a[i].id in IdsOf(a); }
        if j > |a| { assert s[j] == b[j - |a| - 1]; assert b[j - |a| - 1].id in IdsOf(b); }
      }
    }
  }

  /** In-order traversal of an ordered tree lists each stored identifier once, ascending. */
  lemma {:induction false} InOrderSorted(t: Tree)
    requires Ordered(t)
    ensures StrictlyAscending(InOrder(t))
    ensures IdsOf(InOrder(t)) == Ids(t)
  {
    InOrderIds(t);
    match t
    case Nil =>
    case Node(l, d, r) =>
      InOrderSorted(l);
      InOrderSorted(r);
      AscendingJoin(InOrder(l), d, InOrder(r));
  }

  /** Every record the traversal lists is the one a search for its identifier finds. */
  lemma {:induction false} InOrderStored(t: Tree)
    requires Ordered(t)
    ensures forall x :: x in InOrder(t) ==> SearchNode(t, x.id) == Some(x)
  {
    match t
    case Nil =>
    case Node(l, d, r) =>
      InOrderStored(l);
      InOrderStored(r);
      forall x | x in InOrder(t) ensures SearchNode(t, x.id) == Some(x) {
        assert InOrder(t) == InOrder(l) + [d] + InOrder(r);
        if x in InOrder(l) {
          SearchFindsStored(l, x.id);
        } else if x in InOrder(r) {
          SearchFindsStored(r, x.id);
        }
      }
  }

  /** The tree built by inserting `s` in order into an empty tree. */
  function Build(s: seq<Issue>): Tree
  {
    if s == [] then Nil else InsertNode(Build(s[..|s| - 1]), s[|s| - 1])
  }

  /** Searching the tree built from a snapshot finds the first record of the snapshot with
      that identifier. */
  lemma {:induction false} BuildSearch(s: seq<Issue>, id: int)
    ensures SearchNode(Build(s), id) == FirstWithId(s, id)
  {
    if s != [] {
      var p, x := s[..|s| - 1], s[|s| - 1];
      assert s == p + [x];
      BuildSearch(p, id);
      InsertThenSearch(Build(p), x, id);
      FirstWithIdAppend(p, x, id);
    }
  }

  /** The tree built from a snapshot is ordered and stores exactly its identifiers. */
  lemma {:induction false} BuildOrdered(s: seq<Issue>)
    ensures Ordered(Build(s))
    ensures Ids(Build(s)) == IdsOf(s)
  {
    if s != [] {
      BuildOrdered(s[..|s| - 1]);
      InsertKeepsOrder(Build(s[..|s| - 1]), s[|s| - 1]);
    }
  }

  /** `IssueSearchTree`. `Count` counts calls to `Insert`, duplicates included. */
  class IssueSearchTree {
    var root: Tree
    var count: int

    ghost predicate Valid()
      reads this
    {
      Ordered(root)
    }

    constructor ()
      ensures Valid() && root == Nil && count == 0
    {
      root := Nil;
      count := 0;
    }

    /** `Insert`: the count grows even when the identifier was already present. */
    method Insert(issue: Issue)
      requires Valid()
      modifies this
      ensures Valid()
      ensures root == InsertNode(old(root), issue) && count == old(count) + 1
      ensures Ids(root) == old(Ids(root)) + {issue.id}
      ensures issue.id in old(Ids(root)) ==> root == old(root)
    {
      InsertKeepsOrder(root, issue);
      if issue.id in Ids(root) {
        InsertDuplicate(root, issue);
      }
      root := InsertNode(root, issue);
      count := count + 1;
    }

    /** `Search`: the record with identifier `id`, or none when no node has it. */
    function Search(id: int): (r: Option<Issue>)
      requires Valid()
      reads this
      ensures r.Some? <==> id in Ids(root)
      ensures r.Some? ==> r.value.id == id
    {
      SearchFindsStored(root, id);
      SearchNode(root, id)
    }

    /** `GetAllSorted`: every stored identifier once, ascending. */
    function GetAllSorted(): (r: seq<Issue>)
      requires Valid()
      reads this
      ensures StrictlyAscending(r)
      ensures IdsOf(r) == Ids(root)
      ensures forall x :: x in r ==> SearchNode(root, x.id) == Some(x)
    {
      InOrderSorted(root);
      InOrderStored(root);
      InOrder(root)
    }
  }
}
