/** `AVLSearchTree`: the height-balanced binary search tree keyed by issue identifier. */
module BalancedKeyIndex {
  import opened Wrappers
  import opened Domain
  import KeyIndex

  /** `AVLNode` with its stored `Height`; `Nil` is a null child link. */
  datatype AvlTree = Nil | Node(left: AvlTree, data: Issue, right: AvlTree, height: int)

  /** `GetHeight`: the stored height, 0 for a null link. */
  function Height(t: AvlTree): int
  {
    if t.Nil? then 0 else t.height
  }

  /** `GetBalance`. */
  function BalanceFactor(t: AvlTree): int
  {
    if t.Nil? then 0 else Height(t.left) - Height(t.right)
  }

  function Max(a: int, b: int): int
  {
    if a < b then b else a
  }

  /** `UpdateHeight`: recomputes the stored height of one node from its children. */
  function UpdateHeight(t: AvlTree): AvlTree
    requires t.Node?
  {
    t.(height := 1 + Max(Height(t.left), Height(t.right)))
  }

  /** Every stored height is `1 + max(child heights)` and every balance factor is -1, 0 or 1. */
  ghost predicate Balanced(t: AvlTree)
  {
    match t
    case Nil => true
    case Node(l, _, r, h) =>
      && Balanced(l) && Balanced(r)
      && h == 1 + Max(Height(l), Height(r))
      && -1 <= Height(l) - Height(r) <= 1
  }

  function Ids(t: AvlTree): set<int>
  {
    match t
    case Nil => {}
    case Node(l, d, r, _) => Ids(l) + {d.id} + Ids(r)
  }

  /** Binary-search-tree ordering: `left.key < key < right.key` throughout. */
  ghost predicate Ordered(t: AvlTree)
  {
    match t
    case Nil => true
    case Node(l, d, r, _) =>
      && Ordered(l) && Ordered(r)
      && (forall k :: k in Ids(l) ==> k < d.id)
      && (forall k :: k in Ids(r) ==> d.id < k)
  }

  /** `InOrderTraversal`. */
  function InOrder(t: AvlTree): seq<Issue>
  {
    match t
    case Nil => []
    case Node(l, d, r, _) => InOrder(l) + [d] + InOrder(r)
  }

  /** `SearchRecursive`. */
  function SearchNode(t: AvlTree, id: int): (r: Option<Issue>)
    ensures r.Some? ==> r.value.id == id
  {
    match t
    case Nil => None
    case Node(l, d, r, _) =>
      if id == d.id then Some(d)
      else if id < d.id then SearchNode(l, id)
      else SearchNode(r, id)
  }

  /** The number of nodes. */
  function Size(t: AvlTree): nat
  {
    match t
    case Nil => 0
    case Node(l, _, r, _) => Size(l) + 1 + Size(r)
  }

  lemma {:induction false} BalancedHeight(t: AvlTree)
    requires Balanced(t)
    ensures 0 <= Height(t)
    ensures t.Node? <==> 1 <= Height(t)
  {
    match t
    case Nil =>
    case Node(l, _, r, _) =>
      BalancedHeight(l);
  }

  /** `RotateRight`: the left child `x` becomes the root, `x`'s right subtree moves under `y`,
      and exactly the two moved nodes get their heights recomputed. */
  function RotateRight(y: AvlTree): (r: AvlTree)
    requires y.Node? && y.left.Node?
    ensures r.Node? && r.right.Node?
    ensures r.left == y.left.left && r.right.left == y.left.right && r.right.right == y.right
    ensures r.data == y.left.data && r.right.data == y.data
    ensures r.height == 1 + Max(Height(r.left), Height(r.right))
    ensures r.right.height == 1 + Max(Height(r.right.left), Height(r.right.right))
    ensures InOrder(r) == InOrder(y) && Ids(r) == Ids(y)
  {
    var x := y.left;
    var y' := UpdateHeight(y.(left := x.right));
    UpdateHeight(x.(right := y'))
  }

  /** `RotateLeft`, the mirror image of `RotateRight`. */
  function RotateLeft(x: AvlTree): (r: AvlTree)
    requires x.Node? && x.right.Node?
    ensures r.Node? && r.left.Node?
    ensures r.right == x.right.right && r.left.right == x.right.left && r.left.left == x.left
    ensures r.data == x.right.data && r.left.data == x.data
    ensures r.height == 1 + Max(Height(r.left), Height(r.right))
    ensures r.left.height == 1 + Max(Height(r.left.left), Height(r.left.right))
    ensures InOrder(r) == InOrder(x) && Ids(r) == Ids(x)
  {
    var y := x.right;
    var x' := UpdateHeight(x.(right := y.left));
    UpdateHeight(y.(left := x'))
  }

  /** The root of `r` leans towards the side on which `key` lies, and `key` is not its own. */
  ghost predicate Tilted(r: AvlTree, key: int)
  {
    r.Node? && key != r.data.id && BalanceFactor(r) == (if key < r.data.id then 1 else -1)
  }

  /** What insertion of `key` guarantees about a non-empty subtree whose height grew:
      the regrown root leans towards the new key. */
  ghost predicate Grown(t: AvlTree, r: AvlTree, key: int)
  {
    t.Node? ==> Tilted(r, key)
  }

  /** The state `InsertRecursive` reaches after recursing and calling `UpdateHeight`: the
      children are balanced, and a balance factor of +-2 comes from a child tilted by `key`. */
  ghost predicate Rebalanceable(node: AvlTree, key: int)
  {
    && node.Node? && Balanced(node.left) && Balanced(node.right)
    && node.height == 1 + Max(Height(node.left), Height(node.right))
    && -2 <= BalanceFactor(node) <= 2
    && (BalanceFactor(node) == 2 ==> Tilted(node.left, key))
    && (BalanceFactor(node) == -2 ==> Tilted(node.right, key))
  }

  /** The four rotation cases of `InsertRecursive`, tried in the source's order. */
  function Rebalance(node: AvlTree, key: int): (r: AvlTree)
    requires Rebalanceable(node, key)
    ensures Balanced(r)
    ensures Ids(r) == Ids(node)
    ensures -1 <= BalanceFactor(node) <= 1 ==> r == node
    ensures !(-1 <= BalanceFactor(node) <= 1) ==> Height(r) == Height(node) - 1
  {
    var balance := BalanceFactor(node);
    if balance > 1 && key < node.left.data.id then
      BalancedHeight(node.right);
      RotateRight(node)
    else if balance < -1 && key > node.right.data.id then
      BalancedHeight(node.left);
      RotateLeft(node)
    else if balance > 1 && key > node.left.data.id then
      BalancedHeight(node.right);
      BalancedHeight(node.left.right);
      BalancedHeight(node.left.left);
      RotateRight(node.(left := RotateLeft(node.left)))
    else if balance < -1 && key < node.right.data.id then
      BalancedHeight(node.left);
      BalancedHeight(node.right.left);
      BalancedHeight(node.right.right);
      RotateLeft(node.(right := RotateRight(node.right)))
    else
      node
  }

  /** `InsertRecursive`: descends by identifier, hangs a new leaf of height 1 at the first empty
      link, and rebalances every node on the way back up. A duplicate identifier returns the
      subtree unchanged. The result stays balanced and at most one level taller. */
  function InsertNode(t: AvlTree, issue: Issue): (r: AvlTree)
    requires Balanced(t)
    ensures Balanced(r)
    ensures Ids(r) == Ids(t) + {issue.id}
    ensures Height(t) <= Height(r) <= Height(t) + 1
    ensures Height(r) == Height(t) + 1 ==> Grown(t, r, issue.id)
  {
    match t
    case Nil => Node(Nil, issue, Nil, 1)
    case Node(l, d, rt, _) =>
      if issue.id < d.id then
        BalancedHeight(l);
        BalancedHeight(rt);
        Rebalance(UpdateHeight(t.(left := InsertNode(l, issue))), issue.id)
      else if issue.id > d.id then
        BalancedHeight(l);
        BalancedHeight(rt);
        Rebalance(UpdateHeight(t.(right := InsertNode(rt, issue))), issue.id)
      else
        t
  }

  /** A rotation keeps an ordered tree ordered and answers every search as before. */
  lemma RotateRightOrdered(y: AvlTree, k: int)
    requires y.Node? && y.left.Node? && Ordered(y)
    ensures Ordered(RotateRight(y))
    ensures SearchNode(RotateRight(y), k) == SearchNode(y, k)
  {
    var x := y.left;
    var a, b, c := x.left, x.right, y.right;
    assert x.data.id in Ids(y.left);
    assert forall j :: j in Ids(b) ==> j in Ids(y.left);
    var y' := RotateRight(y).right;
    assert Ordered(y');
  }

  lemma RotateLeftOrdered(x: AvlTree, k: int)
    requires x.Node? && x.right.Node? && Ordered(x)
    ensures Ordered(RotateLeft(x))
    ensures SearchNode(RotateLeft(x), k) == SearchNode(x, k)
  {
    var y := x.right;
    var a, b, c := x.left, y.left, y.right;
    assert y.data.id in Ids(x.right);
    assert forall j :: j in Ids(b) ==> j in Ids(x.right);
    var x' := RotateLeft(x).left;
    assert Ordered(x');
  }

  /** Rebalancing keeps an ordered tree ordered and answers every search as before. */
  lemma RebalanceOrdered(node: AvlTree, key: int, k: int)
    requires Rebalanceable(node, key) && Ordered(node)
    ensures Ordered(Rebalance(node, key))
    ensures SearchNode(Rebalance(node, key), k) == SearchNode(node, k)
  {
    var balance := BalanceFactor(node);
    if balance > 1 && key < node.left.data.id {
      RotateRightOrdered(node, k);
    } else if balance < -1 && key > node.right.data.id {
      RotateLeftOrdered(node, k);
    } else if balance > 1 && key > node.left.data.id {
      BalancedHeight(node.left.left);
      BalancedHeight(node.left.right);
      RotateLeftOrdered(node.left, k);
      var n := node.(left := RotateLeft(node.left));
      assert Ordered(n);
      forall j ensures SearchNode(n, j) == SearchNode(node, j) {
        RotateLeftOrdered(node.left, j);
      }
      RotateRightOrdered(n, k);
    } else if balance < -1 && key < node.right.data.id {
      BalancedHeight(node.right.left);
      BalancedHeight(node.right.right);
      RotateRightOrdered(node.right, k);
      var n := node.(right := RotateRight(node.right));
      assert Ordered(n);
      forall j ensures SearchNode(n, j) == SearchNode(node, j) {
        RotateRightOrdered(node.right, j);
      }
      RotateLeftOrdered(n, k);
    }
  }

  /** Insertion keeps the ordering, and a search afterwards finds the new record exactly when
      its identifier was not stored before; every other answer is unchanged. */
  lemma {:induction false} InsertOrdered(t: AvlTree, issue: Issue, k: int)
    requires Balanced(t) && Ordered(t)
    ensures Ordered(InsertNode(t, issue))
    ensures SearchNode(InsertNode(t, issue), k)
         == if k == issue.id && SearchNode(t, k).None? then Some(issue) else SearchNode(t, k)
  {
    match t
    case Nil =>
    case Node(l, d, rt, _) =>
      BalancedHeight(l);
      BalancedHeight(rt);
      if issue.id < d.id {
        InsertOrdered(l, issue, k);
        var n := UpdateHeight(t.(left := InsertNode(l, issue)));
        assert Ordered(n);
        RebalanceOrdered(n, issue.id, k);
      } else if issue.id > d.id {
        InsertOrdered(rt, issue, k);
        var n := UpdateHeight(t.(right := InsertNode(rt, issue)));
        assert Ordered(n);
        RebalanceOrdered(n, issue.id, k);
      }
  }

  /** A duplicate identifier leaves a valid tree exactly as it was. */
  lemma {:induction false} InsertDuplicate(t: AvlTree, issue: Issue)
    requires Balanced(t) && Ordered(t) && issue.id in Ids(t)
    ensures InsertNode(t, issue) == t
  {
    match t
    case Nil =>
    case Node(l, d, rt, _) =>
      BalancedHeight(l);
      BalancedHeight(rt);
      if issue.id < d.id {
        InsertDuplicate(l, issue);
      } else if issue.id > d.id {
        InsertDuplicate(rt, issue);
      }
  }

  /** Every record the traversal lists is the one a search for its identifier finds. */
  lemma {:induction false} InOrderStored(t: AvlTree)
    requires Ordered(t)
    ensures forall x :: x in InOrder(t) ==> SearchNode(t, x.id) == Some(x)
  {
    match t
    case Nil =>
    case Node(l, d, r, _) =>
      InOrderStored(l);
      InOrderStored(r);
      forall x | x in InOrder(t) ensures SearchNode(t, x.id) == Some(x) {
        assert InOrder(t) == InOrder(l) + [d] + InOrder(r);
        if x in InOrder(l) {
          SearchFindsStored(l, x.id);
        } else if x in InOrder(r) {
          SearchFindsStored(r, x.id);
        }
      }
  }

  /** In-order traversal of an ordered tree lists each stored identifier once, ascending. */
  lemma {:induction false} InOrderSorted(t: AvlTree)
    requires Ordered(t)
    ensures KeyIndex.StrictlyAscending(InOrder(t))
    ensures IdsOf(InOrder(t)) == Ids(t)
  {
    match t
    case Nil =>
    case Node(l, d, r, _) =>
      InOrderSorted(l);
      InOrderSorted(r);
      KeyIndex.IdsOfConcat(InOrder(l) + [d], InOrder(r));
      KeyIndex.IdsOfConcat(InOrder(l), [d]);
      KeyIndex.AscendingJoin(InOrder(l), d, InOrder(r));
  }

  function Pow2(n: nat): nat
  {
    if n == 0 then 1 else 2 * Pow2(n - 1)
  }

  lemma {:induction false} Pow2Monotone(a: nat, b: nat)
    requires a <= b
    ensures Pow2(a) <= Pow2(b)
  {
    if a < b {
      Pow2Monotone(a, b - 1);
    }
  }

  /** The logarithmic height behind the tree's O(log n) search: a balanced tree of height h
      holds at least 2^(h/2) - 1 nodes. */
  lemma {:induction false} HeightLogarithmic(t: AvlTree)
    requires Balanced(t)
    ensures 0 <= Height(t) && Pow2(Height(t) / 2) <= Size(t) + 1
  {
    BalancedHeight(t);
    match t
    case Nil =>
    case Node(l, _, r, h) =>
      BalancedHeight(l);
      BalancedHeight(r);
      HeightLogarithmic(l);
      HeightLogarithmic(r);
      if h >= 2 {
        var lo := (h - 2) / 2;
        Pow2Monotone(lo, Height(l) / 2);
        Pow2Monotone(lo, Height(r) / 2);
        assert Pow2(h / 2) == 2 * Pow2(lo);
      }
  }

  /** The tree built by inserting `s` in order into an empty tree. */
  function Build(s: seq<Issue>): (r: AvlTree)
    ensures Balanced(r)
  {
    if s == [] then Nil else InsertNode(Build(s[..|s| - 1]), s[|s| - 1])
  }

  /** The tree built from a snapshot is ordered, stores exactly its identifiers, and a search
      finds the first record of the snapshot with the identifier. */
  lemma {:induction false} BuildSearch(s: seq<Issue>, id: int)
    ensures Ordered(Build(s)) && Ids(Build(s)) == IdsOf(s)
    ensures SearchNode(Build(s), id) == FirstWithId(s, id)
  {
    if s != [] {
      var p, x := s[..|s| - 1], s[|s| - 1];
      assert s == p + [x];
      BuildSearch(p, id);
      InsertOrdered(Build(p), x, id);
      FirstWithIdAppend(p, x, id);
    }
  }

  /** `AVLSearchTree`. `Count` counts calls to `Insert`, duplicates included. */
  class AvlSearchTree {
    var root: AvlTree
    var count: int

    ghost predicate Valid()
      reads this
    {
      Balanced(root) && Ordered(root)
    }

    constructor ()
      ensures Valid() && root == Nil && count == 0
    {
      root := Nil;
      count := 0;
    }

    /** `Insert`: the count grows even when the identifier was already present. */
    method Insert(issue: Issue)
      requires Valid()
      modifies this
      ensures Valid()
      ensures root == InsertNode(old(root), issue) && count == old(count) + 1
      ensures Ids(root) == old(Ids(root)) + {issue.id}
      ensures issue.id in old(Ids(root)) ==> root == old(root)
    {
      InsertOrdered(root, issue, issue.id);
      if issue.id in Ids(root) {
        InsertDuplicate(root, issue);
      }
      root := InsertNode(root, issue);
      count := count + 1;
    }

    /** `Search`: the record with identifier `id`, or none when no node has it. */
    function Search(id: int): (r: Option<Issue>)
      requires Valid()
      reads this
      ensures r.Some? <==> id in Ids(root)
      ensures r.Some? ==> r.value.id == id
    {
      SearchFindsStored(root, id);
      SearchNode(root, id)
    }

    /** `GetAllSorted`: every stored identifier once, ascending. */
    function GetAllSorted(): (r: seq<Issue>)
      requires Valid()
      reads this
      ensures KeyIndex.StrictlyAscending(r)
      ensures IdsOf(r) == Ids(root)
      ensures forall x :: x in r ==> SearchNode(root, x.id) == Some(x)
    {
      InOrderSorted(root);
      InOrderStored(root);
      InOrder(root)
    }
  }

  lemma {:induction false} SearchFindsStored(t: AvlTree, id: int)
    requires Ordered(t)
    ensures SearchNode(t, id).Some? <==> id in Ids(t)
    ensures SearchNode(t, id).Some? ==> SearchNode(t, id).value.id == id
  {
    match t
    case Nil =>
    case Node(l, d, r, _) =>
      if id < d.id {
        SearchFindsStored(l, id);
      } else if id > d.id {
        SearchFindsStored(r, id);
      }
  }
}
