/** `ServiceRequestGraph`: service requests as vertices, weighted similarity edges in per-vertex
    adjacency lists, breadth- and depth-first traversals, the related requests of one vertex and
    Kruskal's minimum spanning tree. */
module RelationshipGraph {
  import opened Domain
  import opened Seqs
  import opened Sorting
  import opened UnionFind

  /** `ServiceRequestEdge`. Lower weight means more closely related. */
  datatype Edge = Edge(fromId: int, toId: int, weight: int, relationshipType: string)

  function Weight(e: Edge): int
  {
    e.weight
  }

  /** Every issue of `result` is the one registered under its identifier. */
  ghost predicate Registered(result: seq<Issue>, issues: map<int, Issue>)
  {
    forall i :: 0 <= i < |result| ==> result[i].id in issues && issues[result[i].id] == result[i]
  }

  /** The edge lists of the keys of `order`, one after the other: what enumerating the
      adjacency dictionary's values in key-insertion order yields. */
  function AllEdges(order: seq<int>, adjacency: map<int, seq<Edge>>): (r: seq<Edge>)
    requires forall i :: 0 <= i < |order| ==> order[i] in adjacency
  {
    if order == [] then []
    else AllEdges(order[..|order| - 1], adjacency) + adjacency[order[|order| - 1]]
  }

  /** Every edge of every listed key is collected, and nothing else is. */
  lemma {:induction false} AllEdgesMembers(order: seq<int>, adjacency: map<int, seq<Edge>>)
    requires forall i :: 0 <= i < |order| ==> order[i] in adjacency
    ensures forall i, e :: 0 <= i < |order| && e in adjacency[order[i]] ==> e in AllEdges(order, adjacency)
    ensures forall e :: e in AllEdges(order, adjacency) ==> exists i :: 0 <= i < |order| && e in adjacency[order[i]]
  {
    if order != [] {
      var init := order[..|order| - 1];
      AllEdgesMembers(init, adjacency);
      assert forall i :: 0 <= i < |init| ==> init[i] == order[i];
      assert AllEdges(order, adjacency) == AllEdges(init, adjacency) + adjacency[order[|order| - 1]];
    }
  }

  /** With every edge in its source's list, the collected edges are exactly the listed edges of
      their own sources. */
  lemma AllEdgesSourced(order: seq<int>, adjacency: map<int, seq<Edge>>)
    requires forall i :: 0 <= i < |order| ==> order[i] in adjacency
    requires Sourced(adjacency)
    ensures forall e :: e in AllEdges(order, adjacency) ==> e.fromId in adjacency && e in adjacency[e.fromId]
  {
    AllEdgesMembers(order, adjacency);
    forall e | e in AllEdges(order, adjacency) ensures e.fromId in adjacency && e in adjacency[e.fromId] {
      var i :| 0 <= i < |order| && e in adjacency[order[i]];
      var m :| 0 <= m < |adjacency[order[i]]| && adjacency[order[i]][m] == e;
      assert e.fromId == order[i];
    }
  }

  /** The registered issues that the edges of `edges` point to, in edge order; edges to an
      identifier that is not a vertex are skipped. */
  function Endpoints(edges: seq<Edge>, issues: map<int, Issue>): (r: seq<Issue>)
    ensures |r| <= |edges|
    ensures forall j :: 0 <= j < |edges| && edges[j].toId in issues ==> issues[edges[j].toId] in r
  {
    if edges == [] then []
    else
      var init, last := edges[..|edges| - 1], edges[|edges| - 1];
      assert forall j :: 0 <= j < |init| ==> init[j] == edges[j];
      var front := Endpoints(init, issues);
      var r := front + if last.toId in issues then [issues[last.toId]] else [];
      assert forall j :: 0 <= j < |init| && init[j].toId in issues ==> issues[init[j].toId] in r;
      r
  }

  /** Each endpoint is the registered request that one of the edges points to. */
  lemma {:induction false} EndpointsFrom(edges: seq<Edge>, issues: map<int, Issue>, i: int)
    requires 0 <= i < |Endpoints(edges, issues)|
    ensures exists j :: 0 <= j < |edges| && edges[j].toId in issues && Endpoints(edges, issues)[i] == issues[edges[j].toId]
  {
    var init, last := edges[..|edges| - 1], edges[|edges| - 1];
    var front := Endpoints(init, issues);
    assert Endpoints(edges, issues) == front + if last.toId in issues then [issues[last.toId]] else [];
    if i < |front| {
      EndpointsFrom(init, issues, i);
      var j :| 0 <= j < |init| && init[j].toId in issues && front[i] == issues[init[j].toId];
      assert edges[j] == init[j];
    } else {
      assert edges[|edges| - 1] == last;
    }
  }

  /** The target of one of the `n` lightest edges is the request one of the edges points to. */
  lemma NearestEndpoint(edges: seq<Edge>, issues: map<int, Issue>, n: int, i: int)
    requires 0 <= i < |Endpoints(Take(SortBy(edges, Weight), n), issues)|
    ensures exists e :: e in edges && e.toId in issues && issues[e.toId] == Endpoints(Take(SortBy(edges, Weight), n), issues)[i]
  {
    var sorted := SortBy(edges, Weight);
    var chosen := Take(sorted, n);
    EndpointsFrom(chosen, issues, i);
    var j :| 0 <= j < |chosen| && chosen[j].toId in issues && Endpoints(chosen, issues)[i] == issues[chosen[j].toId];
    assert chosen[j] == sorted[j];
    assert sorted[j] in multiset(sorted);
    assert chosen[j] in multiset(edges);
  }

  /** Removing more of `u` leaves fewer elements; strictly fewer when `x` is newly removed. */
  lemma DiffShrinks<T>(u: set<T>, a: set<T>, b: set<T>, x: T)
    requires a <= b && x in u && x !in a && x in b
    ensures |u - b| < |u - a|
  {
    var big, small := u - a, u - b;
    assert small <= big - {x};
    assert big - {x} == small + ((big - {x}) - small);
    assert small * ((big - {x}) - small) == {};
  }

  /** Every request is stored under its own identifier. */
  ghost predicate Keyed(issues: map<int, Issue>)
  {
    forall k :: k in issues ==> issues[k].id == k
  }

  /** `order` lists the elements of `keys`, each once: a dictionary's key enumeration order. */
  ghost predicate Enumerates(order: seq<int>, keys: set<int>)
  {
    && Distinct(order)
    && (forall i :: 0 <= i < |order| ==> order[i] in keys)
    && (forall k :: k in keys ==> k in order)
  }

  /** Every edge sits in the list of its own source. */
  ghost predicate Sourced(adjacency: map<int, seq<Edge>>)
  {
    forall k, i :: k in adjacency && 0 <= i < |adjacency[k]| ==> adjacency[k][i].fromId == k
  }

  /** Every identifier that some edge points to. */
  ghost function TargetsOf(adjacency: map<int, seq<Edge>>): set<int>
  {
    set k, i | k in adjacency && 0 <= i < |adjacency[k]| :: adjacency[k][i].toId
  }

  lemma TargetsCover(adjacency: map<int, seq<Edge>>, k: int)
    requires k in adjacency
    ensures forall i :: 0 <= i < |adjacency[k]| ==> adjacency[k][i].toId in TargetsOf(adjacency)
  {
    forall i | 0 <= i < |adjacency[k]| ensures adjacency[k][i].toId in TargetsOf(adjacency) {
      var t := adjacency[k][i].toId;
      assert t == adjacency[k][i].toId;
    }
  }

  /** `target` is the head of some edge leaving `source`. */
  ghost predicate Step(adjacency: map<int, seq<Edge>>, source: int, target: int)
  {
    source in adjacency && exists j :: 0 <= j < |adjacency[source]| && adjacency[source][j].toId == target
  }

  /** `path` follows edges of the graph, each identifier to the next. */
  ghost predicate Walk(adjacency: map<int, seq<Edge>>, path: seq<int>)
  {
    forall i :: 0 <= i < |path| - 1 ==> Step(adjacency, path[i], path[i + 1])
  }

  /** Some walk leads from `source` to `target`; every identifier reaches itself. */
  ghost predicate Reaches(adjacency: map<int, seq<Edge>>, source: int, target: int)
  {
    exists path :: Walk(adjacency, path) && |path| > 0 && path[0] == source && path[|path| - 1] == target
  }

  /** The identifiers reachable from `source`: the start and edge targets that a walk leads to. */
  ghost function Reachable(adjacency: map<int, seq<Edge>>, source: int): set<int>
  {
    set k | k in {source} + TargetsOf(adjacency) && Reaches(adjacency, source, k)
  }

  /** The targets of the edges of every identifier of `from` lie in `into`; with `from == into`,
      the set is closed under edges. */
  ghost predicate Expanded(adjacency: map<int, seq<Edge>>, from: set<int>, into: set<int>)
  {
    forall k, j :: k in from && k in adjacency && 0 <= j < |adjacency[k]| ==> adjacency[k][j].toId in into
  }

  lemma ReachesSelf(adjacency: map<int, seq<Edge>>, source: int)
    ensures Reaches(adjacency, source, source)
  {
    assert Walk(adjacency, [source]);
  }

  /** One more edge extends a walk. */
  lemma ReachesStep(adjacency: map<int, seq<Edge>>, source: int, middle: int, target: int)
    requires Reaches(adjacency, source, middle) && Step(adjacency, middle, target)
    ensures Reaches(adjacency, source, target)
  {
    var path :| Walk(adjacency, path) && |path| > 0 && path[0] == source && path[|path| - 1] == middle;
    var longer := path + [target];
    forall i | 0 <= i < |longer| - 1 ensures Step(adjacency, longer[i], longer[i + 1]) {
      if i < |path| - 1 {
        assert longer[i] == path[i] && longer[i + 1] == path[i + 1];
      }
    }
    assert Walk(adjacency, longer) && longer[0] == source && longer[|longer| - 1] == target;
  }

  /** Every identifier on a walk from a reachable identifier is reachable. */
  lemma {:induction false} WalkReaches(adjacency: map<int, seq<Edge>>, source: int, path: seq<int>, n: int)
    requires Walk(adjacency, path) && 0 <= n < |path| && Reaches(adjacency, source, path[0])
    ensures Reaches(adjacency, source, path[n])
    decreases n
  {
    if n > 0 {
      WalkReaches(adjacency, source, path, n - 1);
      ReachesStep(adjacency, source, path[n - 1], path[n]);
    }
  }

  /** Reachability is transitive. */
  lemma ReachesTrans(adjacency: map<int, seq<Edge>>, source: int, middle: int, target: int)
    requires Reaches(adjacency, source, middle) && Reaches(adjacency, middle, target)
    ensures Reaches(adjacency, source, target)
  {
    var path :| Walk(adjacency, path) && |path| > 0 && path[0] == middle && path[|path| - 1] == target;
    WalkReaches(adjacency, source, path, |path| - 1);
  }

  /** A walk that starts inside an edge-closed set stays inside it. */
  lemma {:induction false} WalkInside(adjacency: map<int, seq<Edge>>, closed: set<int>, path: seq<int>, n: int)
    requires Expanded(adjacency, closed, closed) && Walk(adjacency, path) && 0 <= n < |path| && path[0] in closed
    ensures path[n] in closed
    decreases n
  {
    if n > 0 {
      WalkInside(adjacency, closed, path, n - 1);
      assert Step(adjacency, path[n - 1], path[n]);
    }
  }

  /** `Reachable` holds exactly the identifiers a walk from `source` leads to. */
  lemma ReachableExact(adjacency: map<int, seq<Edge>>, source: int, target: int)
    ensures target in Reachable(adjacency, source) <==> Reaches(adjacency, source, target)
  {
    if Reaches(adjacency, source, target) && target != source {
      var path :| Walk(adjacency, path) && |path| > 0 && path[0] == source && path[|path| - 1] == target;
      var n := |path| - 1;
      assert Step(adjacency, path[n - 1], path[n]);
      var j :| 0 <= j < |adjacency[path[n - 1]]| && adjacency[path[n - 1]][j].toId == target;
      assert target in TargetsOf(adjacency);
    }
  }

  /** A set of identifiers reachable from `source` that holds `source` and is closed under edges is
      the whole reachable set. */
  lemma ReachableIs(adjacency: map<int, seq<Edge>>, source: int, ids: set<int>)
    requires source in ids && Expanded(adjacency, ids, ids)
    requires forall k :: k in ids ==> Reaches(adjacency, source, k)
    ensures ids == Reachable(adjacency, source)
  {
    forall k | k in Reachable(adjacency, source) ensures k in ids {
      var path :| Walk(adjacency, path) && |path| > 0 && path[0] == source && path[|path| - 1] == k;
      WalkInside(adjacency, ids, path, |path| - 1);
    }
    forall k | k in ids ensures k in Reachable(adjacency, source) {
      ReachableExact(adjacency, source, k);
    }
  }

  /** `result` holds, each once, exactly the registered requests whose identifiers are in `ids`. */
  ghost predicate Collected(result: seq<Issue>, issues: map<int, Issue>, ids: set<int>)
  {
    && Registered(result, issues) && UniqueIds(result)
    && (forall i :: 0 <= i < |result| ==> result[i].id in ids)
    && (forall k :: k in ids && k in issues ==> issues[k] in result)
  }

  /** The breadth-first queue: distinct, discovered and not yet dequeued identifiers. */
  ghost predicate Frontier(queue: seq<int>, visited: set<int>, done: set<int>)
  {
    Distinct(queue) && forall i :: 0 <= i < |queue| ==> queue[i] in visited && queue[i] !in done
  }

  lemma FrontierPop(queue: seq<int>, visited: set<int>, done: set<int>)
    requires Frontier(queue, visited, done) && |queue| > 0
    ensures Frontier(queue[1..], visited, done + {queue[0]})
  {
  }

  /** Taking the request of a newly dequeued identifier keeps the collection duplicate-free. */
  lemma CollectedAdd(result: seq<Issue>, issues: map<int, Issue>, done: set<int>, c: int)
    requires Keyed(issues) && Collected(result, issues, done) && c !in done
    ensures Collected(result + (if c in issues then [issues[c]] else []), issues, done + {c})
  {
  }

  /** The inner loop of `BFSTraversal`: discovers and enqueues, in list order, the targets of
      `edges` that were not discovered yet. */
  method EnqueueUnvisited(edges: seq<Edge>, visited: set<int>, queue: seq<int>,
                          ghost done: set<int>, ghost universe: set<int>)
    returns (visited': set<int>, queue': seq<int>)
    requires forall j :: 0 <= j < |edges| ==> edges[j].toId in universe
    requires visited <= universe && done <= visited && Frontier(queue, visited, done)
    ensures visited <= visited' <= universe && Frontier(queue', visited', done)
    ensures |queue| <= |queue'| && queue'[..|queue|] == queue
    ensures forall j :: 0 <= j < |edges| ==> edges[j].toId in visited'
    ensures forall k :: k in visited' && k !in visited ==> k in queue' && exists j :: 0 <= j < |edges| && edges[j].toId == k
  {
    visited', queue' := visited, queue;
    var j := 0;
    while j < |edges|
      invariant 0 <= j <= |edges|
      invariant visited <= visited' <= universe && Frontier(queue', visited', done)
      invariant |queue| <= |queue'| && queue'[..|queue|] == queue
      invariant forall m :: 0 <= m < j ==> edges[m].toId in visited'
      invariant forall k :: k in visited' && k !in visited ==> k in queue' && exists m :: 0 <= m < j && edges[m].toId == k
    {
      if edges[j].toId !in visited' {
        visited' := visited' + {edges[j].toId};
        queue' := queue' + [edges[j].toId];
      }
      j := j + 1;
    }
    assert j == |edges|;
  }

  /** One edge of Kruskal's loop: when both ends are in the forest and their classes differ, the
      two classes are merged, so one class fewer remains, and the edge is reported as joining
      the tree. */
  method KruskalStep(uf: DisjointSets, edge: Edge) returns (joined: bool)
    requires uf.Valid()
    modifies uf
    ensures uf.Valid() && uf.parent.Keys == old(uf.parent.Keys)
    ensures |Roots(uf.parent)| == old(|Roots(uf.parent)|) - (if joined then 1 else 0)
    ensures joined ==> edge.fromId in uf.parent && edge.toId in uf.parent && edge.fromId != edge.toId
  {
    joined := false;
    if edge.fromId in uf.parent && edge.toId in uf.parent {
      var rootFrom := uf.Find(edge.fromId);
      var rootTo := uf.Find(edge.toId);
      if rootFrom != rootTo {
        joined := true;
        uf.Union(edge.fromId, edge.toId);
      }
    }
  }

  /** The loop of `GetMinimumSpanningTree` over `sorted`: an edge joins the tree when both ends
      are vertices and lie in different classes, which it then merges. The tree takes its edges
      from `sorted` in order, joins distinct vertices, and has fewer edges than there are
      vertices. */
  method Kruskal(sorted: seq<Edge>, vertices: seq<int>) returns (mst: seq<Edge>)
    requires Distinct(vertices) && SortedBy(sorted, Weight)
    ensures multiset(mst) <= multiset(sorted)
    ensures SortedBy(mst, Weight)
    ensures forall e :: e in mst ==> e.fromId in vertices && e.toId in vertices && e.fromId != e.toId
    ensures |vertices| == 0 ==> mst == []
    ensures |vertices| > 0 ==> |mst| <= |vertices| - 1
  {
    var uf := new DisjointSets(vertices);
    ghost var keys := uf.parent.Keys;
    ghost var picks;
    mst, picks := KruskalLoop(uf, sorted);
    PickedSortedSubset(sorted, picks, Weight);
    if |vertices| > 0 {
      RootsNonEmpty(uf.parent, uf.level, uf.bound, vertices[0]);
    }
    forall e | e in mst
      ensures e.fromId in vertices && e.toId in vertices && e.fromId != e.toId
    {
      assert e.fromId in keys && e.toId in keys;
    }
  }

  method KruskalLoop(uf: DisjointSets, sorted: seq<Edge>) returns (mst: seq<Edge>, ghost picks: seq<bool>)
    requires uf.Valid()
    modifies uf
    ensures uf.Valid() && uf.parent.Keys == old(uf.parent.Keys)
    ensures |mst| + |Roots(uf.parent)| == old(|Roots(uf.parent)|)
    ensures |picks| == |sorted| && mst == Picked(sorted, picks)
    ensures forall e :: e in mst ==> e.fromId in uf.parent && e.toId in uf.parent && e.fromId != e.toId
  {
    mst := [];
    picks := [];
    ghost var keys := uf.parent.Keys;
    ghost var classes := |Roots(uf.parent)|;
    var i := 0;
    while i < |sorted|
      invariant 0 <= i <= |sorted| && |picks| == i
      invariant uf.Valid() && uf.parent.Keys == keys
      invariant |mst| + |Roots(uf.parent)| == classes
      invariant mst == Picked(sorted[..i], picks)
      invariant forall e :: e in mst ==> e.fromId in keys && e.toId in keys && e.fromId != e.toId
    {
      var edge := sorted[i];
      assert sorted[..i + 1][..i] == sorted[..i];
      var joined := KruskalStep(uf, edge);
      if joined {
        mst := mst + [edge];
      }
      picks := picks + [joined];
      i := i + 1;
    }
    assert i == |sorted|;
    assert sorted[..i] == sorted;
  }

  /** The graph invariant over its four fields: both key orders enumerate their maps, every
      vertex has an edge list, and each list holds only edges leaving its key. */
  ghost predicate GraphInvariant(adjacency: map<int, seq<Edge>>, order: seq<int>, issues: map<int, Issue>, vertices: seq<int>)
  {
    && Enumerates(order, adjacency.Keys) && Enumerates(vertices, issues.Keys) && |issues| == |vertices|
    && Keyed(issues) && issues.Keys <= adjacency.Keys && Sourced(adjacency)
  }

  /** Adding a key to a dictionary appends it to the enumeration order when it is new. */
  lemma EnumeratesAdd(order: seq<int>, keys: set<int>, k: int)
    requires Enumerates(order, keys)
    ensures Enumerates(if k in keys then order else order + [k], keys + {k})
  {
  }

  /** Appending an edge leaving `e.fromId` to its list keeps every list sourced. */
  lemma SourcedAdd(adjacency: map<int, seq<Edge>>, e: Edge)
    requires Sourced(adjacency)
    ensures Sourced(adjacency[e.fromId := (if e.fromId in adjacency then adjacency[e.fromId] else []) + [e]])
  {
    var list: seq<Edge> := (if e.fromId in adjacency then adjacency[e.fromId] else []) + [e];
    var adj: map<int, seq<Edge>> := adjacency[e.fromId := list];
    forall k: int, i: int | k in adj && 0 <= i < |adj[k]| ensures adj[k][i].fromId == k {
      if k == e.fromId && i < |list| - 1 {
        assert list[i] == adjacency[k][i];
      }
    }
  }

  /** Appending an edge leaving `e.fromId` to its list (created when missing) keeps the invariant. */
  lemma EdgeAddedInvariant(adjacency: map<int, seq<Edge>>, order: seq<int>, issues: map<int, Issue>,
                           vertices: seq<int>, e: Edge)
    requires GraphInvariant(adjacency, order, issues, vertices)
    ensures GraphInvariant(
              adjacency[e.fromId := (if e.fromId in adjacency then adjacency[e.fromId] else []) + [e]],
              if e.fromId in adjacency then order else order + [e.fromId],
              issues, vertices)
  {
    var adj: map<int, seq<Edge>> := adjacency[e.fromId := (if e.fromId in adjacency then adjacency[e.fromId] else []) + [e]];
    var ord := if e.fromId in adjacency then order else order + [e.fromId];
    assert adj.Keys == adjacency.Keys + {e.fromId};
    EnumeratesAdd(order, adjacency.Keys, e.fromId);
    assert Enumerates(ord, adj.Keys);
    SourcedAdd(adjacency, e);
    assert Sourced(adj);
    assert issues.Keys <= adj.Keys;
  }

  class ServiceRequestGraph {
    /** `adjacencyList`: the outgoing edges of each identifier. */
    var adjacency: map<int, seq<Edge>>
    /** The keys of `adjacency` in insertion order. */
    var order: seq<int>
    /** `issues`: the vertices. */
    var issues: map<int, Issue>
    /** The keys of `issues` in insertion order. */
    var vertices: seq<int>

    ghost predicate Valid()
      reads this
    {
      GraphInvariant(adjacency, order, issues, vertices)
    }

    constructor ()
      ensures Valid() && adjacency == map[] && issues == map[] && order == [] && vertices == []
    {
      adjacency, order, issues, vertices := map[], [], map[], [];
    }

    /** `AddVertex`: registers `issue` with an empty edge list, unless its identifier is a vertex
        already, in which case nothing changes. A list that `AddEdge` created for the identifier
        before it became a vertex is replaced by the empty one. */
    method AddVertex(issue: Issue)
      requires Valid()
      modifies this
      ensures Valid()
      ensures old(issue.id in issues) ==>
                issues == old(issues) && adjacency == old(adjacency) && order == old(order) && vertices == old(vertices)
      ensures old(issue.id !in issues) ==>
                && issues == old(issues)[issue.id := issue] && vertices == old(vertices) + [issue.id]
                && adjacency == old(adjacency)[issue.id := []]
                && order == if old(issue.id in adjacency) then old(order) else old(order) + [issue.id]
    {
      if issue.id !in issues {
        issues := issues[issue.id := issue];
        vertices := vertices + [issue.id];
        if issue.id !in adjacency {
          order := order + [issue.id];
        }
        adjacency := adjacency[issue.id := []];
      }
    }

    /** `GetEdges`: the outgoing edges of `issueId`, none when it has no list. */
    function GetEdges(issueId: int): (r: seq<Edge>)
      requires Sourced(adjacency)
      reads this
      ensures forall e :: e in r ==> e.fromId == issueId
      ensures issueId !in adjacency ==> r == []
    {
      if issueId in adjacency then adjacency[issueId] else []
    }

    /** `AddEdge`: appends one edge to the list of `fromId`, creating the list when missing;
        every other list and the vertices stay as they are. */
    method AddEdge(fromId: int, toId: int, weight: int, relationshipType: string)
      requires Valid()
      modifies this
      ensures Valid() && issues == old(issues) && vertices == old(vertices)
      ensures GetEdges(fromId) == old(GetEdges(fromId)) + [Edge(fromId, toId, weight, relationshipType)]
      ensures adjacency == old(adjacency)[fromId := old(GetEdges(fromId)) + [Edge(fromId, toId, weight, relationshipType)]]
      ensures order == if old(fromId in adjacency) then old(order) else old(order) + [fromId]
    {
      var edge := Edge(fromId, toId, weight, relationshipType);
      EdgeAddedInvariant(adjacency, order, issues, vertices, edge);
      var list := if fromId in adjacency then adjacency[fromId] else [];
      if fromId !in adjacency {
        order := order + [fromId];
      }
      adjacency := adjacency[fromId := list + [edge]];
    }

    /** `GetAllEdges`: every edge of the graph, list by list in key-insertion order. */
    method GetAllEdges() returns (allEdges: seq<Edge>)
      requires Enumerates(order, adjacency.Keys)
      ensures allEdges == AllEdges(order, adjacency)
    {
      allEdges := [];
      var i := 0;
      while i < |order|
        invariant 0 <= i <= |order|
        invariant allEdges == AllEdges(order[..i], adjacency)
      {
        assert order[..i + 1][..i] == order[..i];
        allEdges := allEdges + adjacency[order[i]];
        i := i + 1;
      }
      assert i == |order|;
      assert order[..i] == order;
    }

    /** `BFSTraversal`: the registered requests met by a breadth-first walk from `startId`: exactly
        those reachable from it, each once; the start comes first when it is registered. */
    method BFSTraversal(startId: int) returns (result: seq<Issue>)
      requires Keyed(issues)
      ensures Collected(result, issues, Reachable(adjacency, startId))
      ensures startId in issues ==> |result| > 0 && result[0] == issues[startId]
    {
      ghost var universe := {startId} + TargetsOf(adjacency);
      ghost var done: set<int> := {};
      result := [];
      var visited: set<int> := {startId};
      var queue: seq<int> := [startId];
      ReachesSelf(adjacency, startId);
      while |queue| > 0
        invariant BfsState(result, visited, queue, done, universe, startId)
        decreases |universe - done|
      {
        result, visited, queue, done := BfsVisit(result, visited, queue, done, universe, startId);
      }
      assert visited == done;
      ReachableIs(adjacency, startId, done);
    }

    /** The breadth-first walk from `startId` so far: `done` holds the dequeued identifiers, whose
        registered requests `result` holds, the start first; every discovered identifier is
        reachable and either dequeued or queued, and the targets of dequeued ones are discovered. */
    ghost predicate BfsState(result: seq<Issue>, visited: set<int>, queue: seq<int>, done: set<int>,
                             universe: set<int>, startId: int)
      reads this
    {
      && Keyed(issues) && universe == {startId} + TargetsOf(adjacency)
      && visited <= universe && done <= visited && startId in visited
      && Frontier(queue, visited, done) && Collected(result, issues, done)
      && (forall k :: k in visited ==> k in done || k in queue)
      && (forall k :: k in visited ==> Reaches(adjacency, startId, k))
      && Expanded(adjacency, done, visited)
      && (startId in done || (queue == [startId] && result == []))
      && (startId in issues && startId in done ==> |result| > 0 && result[0] == issues[startId])
    }

    /** One round of the breadth-first loop: dequeue, take the request, enqueue new targets. */
    method BfsVisit(result: seq<Issue>, visited: set<int>, queue: seq<int>, ghost done: set<int>,
                    ghost universe: set<int>, ghost startId: int)
      returns (result': seq<Issue>, visited': set<int>, queue': seq<int>, ghost done': set<int>)
      requires |queue| > 0 && BfsState(result, visited, queue, done, universe, startId)
      ensures BfsState(result', visited', queue', done', universe, startId)
      ensures |universe - done'| < |universe - done|
    {
      var currentId := queue[0];
      FrontierPop(queue, visited, done);
      CollectedAdd(result, issues, done, currentId);
      queue' := queue[1..];
      result' := result;
      if currentId in issues {
        result' := result + [issues[currentId]];
      }
      DiffShrinks(universe, done, done + {currentId}, currentId);
      done' := done + {currentId};
      visited' := visited;
      assert forall k :: k in queue ==> k == currentId || k in queue' by {
        assert queue == [currentId] + queue';
      }
      if currentId in adjacency {
        TargetsCover(adjacency, currentId);
        ghost var rest := queue';
        visited', queue' := EnqueueUnvisited(adjacency[currentId], visited, queue', done', universe);
        forall k | k in visited' && k !in visited ensures Reaches(adjacency, startId, k) {
          ReachesStep(adjacency, startId, currentId, k);
        }
        assert forall k :: k in rest ==> k in queue';
      }
    }

    /** `DFSRecursive`: marks `currentId` visited, takes its request when registered, then walks
        each unvisited target of its edges in list order. The shared `visited` set and `result`
        list come back as the new values: the newly visited identifiers are reachable from
        `currentId`, and the targets of their edges are all visited. */
    method DFSRecursive(currentId: int, visited: set<int>, result: seq<Issue>, ghost universe: set<int>)
      returns (visited': set<int>, result': seq<Issue>)
      requires Keyed(issues)
      requires currentId in universe && visited <= universe && TargetsOf(adjacency) <= universe
      requires currentId !in visited && Collected(result, issues, visited)
      ensures visited + {currentId} <= visited' <= universe && Collected(result', issues, visited')
      ensures |result| <= |result'| && result'[..|result|] == result
      ensures currentId in issues ==> |result| < |result'| && result'[|result|] == issues[currentId]
      ensures forall k :: k in visited' - visited ==> Reaches(adjacency, currentId, k)
      ensures Expanded(adjacency, visited' - visited, visited')
      decreases |universe - visited|
    {
      visited' := visited + {currentId};
      result' := result;
      if currentId in issues {
        result' := result' + [issues[currentId]];
      }
      ReachesSelf(adjacency, currentId);
      if currentId in adjacency {
        var edges := adjacency[currentId];
        TargetsCover(adjacency, currentId);
        var j := 0;
        while j < |edges|
          invariant 0 <= j <= |edges|
          invariant visited + {currentId} <= visited' <= universe && Collected(result', issues, visited')
          invariant |result| <= |result'| && result'[..|result|] == result
          invariant currentId in issues ==> |result| < |result'| && result'[|result|] == issues[currentId]
          invariant forall k :: k in visited' - visited ==> Reaches(adjacency, currentId, k)
          invariant Expanded(adjacency, visited' - visited - {currentId}, visited')
          invariant forall m :: 0 <= m < j ==> edges[m].toId in visited'
        {
          visited', result' := DfsEdge(currentId, j, visited, visited', result, result', universe);
          j := j + 1;
        }
        assert j == |edges|;
      }
    }

    /** One iteration of the loop of `DFSRecursive`: the walk from the `j`-th target of
        `currentId`, when that target is not visited yet. */
    method DfsEdge(currentId: int, j: int, visited: set<int>, visitedNow: set<int>, result: seq<Issue>,
                   resultNow: seq<Issue>, ghost universe: set<int>)
      returns (visited': set<int>, result': seq<Issue>)
      requires Keyed(issues) && currentId in adjacency && 0 <= j < |adjacency[currentId]|
      requires currentId !in visited && visited + {currentId} <= visitedNow <= universe
      requires TargetsOf(adjacency) <= universe
      requires Collected(resultNow, issues, visitedNow)
      requires |result| <= |resultNow| && resultNow[..|result|] == result
      requires currentId in issues ==> |result| < |resultNow| && resultNow[|result|] == issues[currentId]
      requires forall k :: k in visitedNow - visited ==> Reaches(adjacency, currentId, k)
      requires Expanded(adjacency, visitedNow - visited - {currentId}, visitedNow)
      requires forall m :: 0 <= m < j ==> adjacency[currentId][m].toId in visitedNow
      ensures visitedNow <= visited' <= universe && Collected(result', issues, visited')
      ensures |result| <= |result'| && result'[..|result|] == result
      ensures currentId in issues ==> |result| < |result'| && result'[|result|] == issues[currentId]
      ensures forall k :: k in visited' - visited ==> Reaches(adjacency, currentId, k)
      ensures Expanded(adjacency, visited' - visited - {currentId}, visited')
      ensures forall m :: 0 <= m <= j ==> adjacency[currentId][m].toId in visited'
      decreases |universe - visited|, 0
    {
      var target := adjacency[currentId][j].toId;
      visited', result' := visitedNow, resultNow;
      if target !in visitedNow {
        DiffShrinks(universe, visited, visitedNow, currentId);
        assert target in TargetsOf(adjacency);
        visited', result' := DFSRecursive(target, visitedNow, resultNow, universe);
        assert result'[..|result|] == resultNow[..|result|];
        assert Step(adjacency, currentId, target);
        ReachesSelf(adjacency, currentId);
        ReachesStep(adjacency, currentId, currentId, target);
        forall k | k in visited' - visited ensures Reaches(adjacency, currentId, k) {
          if k !in visitedNow {
            ReachesTrans(adjacency, currentId, target, k);
          }
        }
      }
    }

    /** `DFSTraversal`: the registered requests met by a depth-first walk from `startId`: exactly
        those reachable from it, each once; the start comes first when it is registered. */
    method DFSTraversal(startId: int) returns (result: seq<Issue>)
      requires Keyed(issues)
      ensures Collected(result, issues, Reachable(adjacency, startId))
      ensures startId in issues ==> |result| > 0 && result[0] == issues[startId]
    {
      ghost var universe := {startId} + TargetsOf(adjacency);
      var visited;
      visited, result := DFSRecursive(startId, {}, [], universe);
      assert visited - {} == visited;
      ReachableIs(adjacency, startId, visited);
    }

    /** `GetRelatedRequests`: the registered targets of the `maxResults` lightest edges of
        `issueId` (ties kept in list order), each the request some edge of `issueId` points to. */
    method GetRelatedRequests(issueId: int, maxResults: int) returns (related: seq<Issue>)
      requires Sourced(adjacency)
      ensures related == Endpoints(Take(SortBy(GetEdges(issueId), Weight), maxResults), issues)
      ensures |related| <= if maxResults <= 0 then 0 else maxResults
    {
      related := [];
      if issueId in adjacency {
        var edges := Take(SortBy(adjacency[issueId], Weight), maxResults);
        var j := 0;
        while j < |edges|
          invariant 0 <= j <= |edges|
          invariant related == Endpoints(edges[..j], issues)
        {
          assert edges[..j + 1][..j] == edges[..j];
          if edges[j].toId in issues {
            related := related + [issues[edges[j].toId]];
          }
          j := j + 1;
        }
        assert j == |edges|;
        assert edges[..j] == edges;
      }
      var chosen := Take(SortBy(GetEdges(issueId), Weight), maxResults);
      assert |related| <= |chosen|;
    }

    /** `GetMinimumSpanningTree`: Kruskal's algorithm over every edge of the graph sorted by
        weight, with a disjoint-set forest over the vertices. */
    method GetMinimumSpanningTree() returns (mst: seq<Edge>)
      requires Valid()
      ensures multiset(mst) <= multiset(AllEdges(order, adjacency))
      ensures SortedBy(mst, Weight)
      ensures forall i :: 0 <= i < |mst| ==>
                mst[i].fromId in issues && mst[i].toId in issues && mst[i].fromId != mst[i].toId
      ensures |issues| == 0 ==> mst == []
      ensures |issues| > 0 ==> |mst| <= |issues| - 1
    {
      var allEdges := GetAllEdges();
      var sorted := SortBy(allEdges, Weight);
      mst := Kruskal(sorted, vertices);
    }
  }
}
