/** `ServiceRequestService`: rebuilds the four indexes from a snapshot of the issue store,
    relates every pair of requests by a similarity weight and a label, and answers lookups and
    statistics from the indexes. */
module ServiceRequests {
  import opened Wrappers
  import opened Domain
  import opened Text
  import KeyIndex
  import BalancedKeyIndex
  import RequestHeap
  import opened RelationshipGraph

  /** LINQ's `xs.Intersect(ys).Any()`, scanning `xs` in order. */
  function AnyShared(xs: seq<string>, ys: seq<string>): bool
  {
    if xs == [] then false
    else if xs[0] in ys then true
    else AnyShared(xs[1..], ys)
  }

  /** The scan finds a shared token exactly when one exists. */
  lemma {:induction false} AnySharedMeaning(xs: seq<string>, ys: seq<string>)
    ensures AnyShared(xs, ys) <==> exists w :: w in xs && w in ys
  {
    if xs != [] && xs[0] !in ys {
      AnySharedMeaning(xs[1..], ys);
      assert forall w :: w in xs <==> w == xs[0] || w in xs[1..];
    }
  }

  /** `AreSimilarLocations`: the lower-cased locations, split on space, comma and hyphen with
      empty entries dropped, share a word. */
  function AreSimilarLocations(location1: string, location2: string): bool
  {
    AnyShared(Tokens(Lower(location1)), Tokens(Lower(location2)))
  }

  /** Two locations are similar exactly when some word occurs in both. */
  lemma SimilarLocationsShareWord(location1: string, location2: string)
    ensures AreSimilarLocations(location1, location2) <==>
              exists w :: w in Tokens(Lower(location1)) && w in Tokens(Lower(location2))
  {
    var xs, ys := Tokens(Lower(location1)), Tokens(Lower(location2));
    AnySharedMeaning(xs, ys);
    assert AreSimilarLocations(location1, location2) == AnyShared(xs, ys);
  }

  /** Location similarity does not depend on the order of the two locations. */
  lemma SimilarLocationsSymmetric(location1: string, location2: string)
    ensures AreSimilarLocations(location1, location2) == AreSimilarLocations(location2, location1)
  {
    SimilarLocationsShareWord(location1, location2);
    SimilarLocationsShareWord(location2, location1);
  }

  /** The two issues were created less than `days` whole days apart, as `TotalDays` compares. */
  predicate WithinDays(issue1: Issue, issue2: Issue, days: int)
  {
    -days * SecondsPerDay < issue1.createdAt - issue2.createdAt < days * SecondsPerDay
  }

  /** `CalculateRelationshipWeight`: 10, less 3 for the same category, 3 for similar
      locations, 2 for creation less than 7 days apart (else 1 for less than 30), 1 for the same
      priority, and never below 1. Lower means more closely related. */
  function RelationshipWeight(issue1: Issue, issue2: Issue): (w: int)
    ensures 1 <= w <= 10
  {
    var weight := 10
      - (if issue1.category == issue2.category then 3 else 0)
      - (if AreSimilarLocations(issue1.location, issue2.location) then 3 else 0)
      - (if WithinDays(issue1, issue2, 7) then 2 else if WithinDays(issue1, issue2, 30) then 1 else 0)
      - (if issue1.priority == issue2.priority then 1 else 0);
    if weight < 1 then 1 else weight
  }

  /** The weight stays at 10, and the pair is not joined, exactly when no factor applies. */
  lemma WeightUnrelated(issue1: Issue, issue2: Issue)
    ensures RelationshipWeight(issue1, issue2) == 10 <==>
              && issue1.category != issue2.category
              && !AreSimilarLocations(issue1.location, issue2.location)
              && !WithinDays(issue1, issue2, 30)
              && issue1.priority != issue2.priority
  {
  }

  /** The weight of a pair does not depend on which issue comes first. */
  lemma WeightSymmetric(issue1: Issue, issue2: Issue)
    ensures RelationshipWeight(issue1, issue2) == RelationshipWeight(issue2, issue1)
  {
    SimilarLocationsSymmetric(issue1.location, issue2.location);
  }

  /** Every factor at once gives the smallest weight: 10 - 3 - 3 - 2 - 1 = 1. */
  lemma WeightAllFactors(issue1: Issue, issue2: Issue)
    requires issue1.category == issue2.category && issue1.priority == issue2.priority
    requires AreSimilarLocations(issue1.location, issue2.location) && WithinDays(issue1, issue2, 7)
    ensures RelationshipWeight(issue1, issue2) == 1
  {
  }

  /** Reading a run of non-separators extends the current token. */
  lemma {:induction false} SplitFromWord(w: string, word: string, rest: string)
    requires forall i :: 0 <= i < |word| ==> !IsSeparator(word[i])
    requires forall i :: 0 <= i < |w| ==> !IsSeparator(w[i])
    ensures SplitFrom(w + rest, word) == SplitFrom(rest, word + w)
  {
    if w != [] {
      assert (w + rest)[0] == w[0] && (w + rest)[1..] == w[1..] + rest;
      assert SplitFrom(w + rest, word) == SplitFrom(w[1..] + rest, word + [w[0]]);
      assert word + w == (word + [w[0]]) + w[1..];
      SplitFromWord(w[1..], word + [w[0]], rest);
    } else {
      assert w + rest == rest && word + w == word;
    }
  }

  /** A location that starts with the word `w` followed by a space has `w` as its first token. */
  lemma FirstToken(w: string, rest: string)
    requires w != [] && forall i :: 0 <= i < |w| ==> !IsSeparator(w[i])
    ensures w in Tokens(w + " " + rest)
  {
    SplitFromWord(w, [], " " + rest);
    assert w + " " + rest == w + (" " + rest) && [] + w == w;
    assert (" " + rest)[0] == ' ' && (" " + rest)[1..] == rest;
    assert SplitFrom(" " + rest, w) == [w] + SplitFrom(rest, []);
  }

  lemma {:induction false} LowerConcat(a: string, b: string)
    ensures Lower(a + b) == Lower(a) + Lower(b)
  {
    if a != [] {
      assert (a + b)[1..] == a[1..] + b;
      LowerConcat(a[1..], b);
    } else {
      assert a + b == b;
    }
  }

  /** Two locations that start with the same word, followed by a space, are similar. */
  lemma SharedFirstWord(w: string, rest1: string, rest2: string)
    requires w != [] && forall i :: 0 <= i < |w| ==> !IsSeparator(w[i])
    ensures AreSimilarLocations(w + " " + rest1, w + " " + rest2)
  {
    SimilarLocationsShareWord(w + " " + rest1, w + " " + rest2);
    var lw := Lower(w);
    assert Lower(" ") == " ";
    LowerConcat(w, " ");
    LowerConcat(w + " ", rest1);
    LowerConcat(w + " ", rest2);
    FirstToken(lw, Lower(rest1));
    FirstToken(lw, Lower(rest2));
  }

  /** "Main Road" and "Main Road & Oak" share the word "main". */
  lemma SimilarLocationsExample()
    ensures AreSimilarLocations("Main Road", "Main Road & Oak")
  {
    assert "Main Road" == "Main" + " " + "Road" && "Main Road & Oak" == "Main" + " " + "Road & Oak";
    SharedFirstWord("Main", "Road", "Road & Oak");
  }

  const SameAreaAndCategory: string := "Same Area & Category"
  const SameCategory: string := "Same Category"
  const SameArea: string := "Same Area"
  const SimilarTime: string := "Similar Time"
  const Related: string := "Related"

  /** `DetermineRelationshipType`: the first label, in the order above, whose condition holds. */
  function RelationshipType(issue1: Issue, issue2: Issue): (r: string)
    ensures r in {SameAreaAndCategory, SameCategory, SameArea, SimilarTime, Related}
    ensures r == SameAreaAndCategory <==>
              issue1.category == issue2.category && AreSimilarLocations(issue1.location, issue2.location)
    ensures r == Related <==>
              && issue1.category != issue2.category && !AreSimilarLocations(issue1.location, issue2.location)
              && !WithinDays(issue1, issue2, 7)
  {
    var sameCategory := issue1.category == issue2.category;
    var similar := AreSimilarLocations(issue1.location, issue2.location);
    if sameCategory && similar then SameAreaAndCategory
    else if sameCategory then SameCategory
    else if similar then SameArea
    else if WithinDays(issue1, issue2, 7) then SimilarTime
    else Related
  }

  /** The label of a pair does not depend on which issue comes first. */
  lemma TypeSymmetric(issue1: Issue, issue2: Issue)
    ensures RelationshipType(issue1, issue2) == RelationshipType(issue2, issue1)
  {
    SimilarLocationsSymmetric(issue1.location, issue2.location);
  }

  /** A label other than "Related" names a factor that lowers the weight, so such a pair is
      always joined by edges. */
  lemma LabelledPairsAreJoined(issue1: Issue, issue2: Issue)
    requires RelationshipType(issue1, issue2) != Related
    ensures RelationshipWeight(issue1, issue2) < 10
  {
  }

  /** The edges `BuildGraphRelationships` adds for one pair: both directions with the same
      weight and label when the weight is below 10, and none otherwise. */
  function PairEdges(issue1: Issue, issue2: Issue): (r: seq<Edge>)
  {
    var weight := RelationshipWeight(issue1, issue2);
    if weight < 10 then
      var kind := RelationshipType(issue1, issue2);
      [Edge(issue1.id, issue2.id, weight, kind), Edge(issue2.id, issue1.id, weight, kind)]
    else []
  }

  /** An edge added for a pair joins the two issues, one way or the other, with the pair's
      weight, which is below 10, and its label. */
  lemma PairEdgesMember(issue1: Issue, issue2: Issue, e: Edge)
    requires e in PairEdges(issue1, issue2)
    ensures || (e.fromId == issue1.id && e.toId == issue2.id)
            || (e.fromId == issue2.id && e.toId == issue1.id)
    ensures e.weight == RelationshipWeight(issue1, issue2) < 10
    ensures e.relationshipType == RelationshipType(issue1, issue2)
  {
    var pair := PairEdges(issue1, issue2);
    assert |pair| == 2 && (e == pair[0] || e == pair[1]);
  }

  /** The edges added for the pairs `(i, i + 1)` .. `(i, j - 1)`, in that order. */
  function RowEdges(issues: seq<Issue>, i: int, j: int): seq<Edge>
    requires 0 <= i < j <= |issues|
    decreases j
  {
    if j == i + 1 then [] else RowEdges(issues, i, j - 1) + PairEdges(issues[i], issues[j - 1])
  }

  /** The edges added for every pair `i < j` with `i < n`, in the order of the nested loops. */
  function GraphEdges(issues: seq<Issue>, n: int): seq<Edge>
    requires 0 <= n <= |issues|
  {
    if n == 0 then [] else GraphEdges(issues, n - 1) + RowEdges(issues, n - 1, |issues|)
  }

  /** The edges of `edges` that leave `k`, in order: what repeated `AddEdge` calls leave in the
      adjacency list of `k`. */
  function From(edges: seq<Edge>, k: int): seq<Edge>
  {
    if edges == [] then []
    else
      var last := edges[|edges| - 1];
      From(edges[..|edges| - 1], k) + if last.fromId == k then [last] else []
  }

  /** `From` keeps exactly the edges that leave `k`. */
  lemma {:induction false} FromMembers(edges: seq<Edge>, k: int)
    ensures forall e :: e in From(edges, k) <==> e in edges && e.fromId == k
  {
    if edges != [] {
      var init := edges[..|edges| - 1];
      FromMembers(init, k);
      assert edges == init + [edges[|edges| - 1]];
    }
  }

  /** `From` of two edges. */
  lemma FromPair(e1: Edge, e2: Edge, k: int)
    ensures From([e1, e2], k) == (if e1.fromId == k then [e1] else []) + (if e2.fromId == k then [e2] else [])
  {
    assert [e1, e2][..1] == [e1] && [e1][..0] == [];
    assert From([e1], k) == From([], k) + (if e1.fromId == k then [e1] else []);
  }

  lemma {:induction false} FromConcat(a: seq<Edge>, b: seq<Edge>, k: int)
    ensures From(a + b, k) == From(a, k) + From(b, k)
  {
    if b == [] {
      assert a + b == a;
    } else {
      var init := b[..|b| - 1];
      assert (a + b)[..|a + b| - 1] == a + init;
      FromConcat(a, init, k);
    }
  }

  /** A pair whose weight is below 10 is joined in both directions, once the row of its first
      issue has been read up to its second one. */
  lemma {:induction false} RowEdgesHas(issues: seq<Issue>, i: int, j: int, m: int)
    requires 0 <= i < j < m <= |issues|
    ensures forall e :: e in PairEdges(issues[i], issues[j]) ==> e in RowEdges(issues, i, m)
  {
    var prefix, last := RowEdges(issues, i, m - 1), PairEdges(issues[i], issues[m - 1]);
    assert RowEdges(issues, i, m) == prefix + last;
    ConcatHas(prefix, last);
    if m - 1 != j {
      RowEdgesHas(issues, i, j, m - 1);
    }
  }

  /** Both parts of a concatenation of edge lists occur in it. */
  lemma ConcatHas(a: seq<Edge>, b: seq<Edge>)
    ensures forall e :: e in a ==> e in a + b
    ensures forall e :: e in b ==> e in a + b
  {
  }

  lemma {:induction false} GraphEdgesHas(issues: seq<Issue>, i: int, n: int)
    requires 0 <= i < n <= |issues|
    ensures forall e :: e in RowEdges(issues, i, |issues|) ==> e in GraphEdges(issues, n)
  {
    var prefix, last := GraphEdges(issues, n - 1), RowEdges(issues, n - 1, |issues|);
    assert GraphEdges(issues, n) == prefix + last;
    if n - 1 != i {
      GraphEdgesHas(issues, i, n - 1);
      WithinPrefix(RowEdges(issues, i, |issues|), prefix, last);
    } else {
      ConcatHas(prefix, last);
    }
  }

  /** Edges that occur in `prefix` occur in `prefix + last`. */
  lemma WithinPrefix(row: seq<Edge>, prefix: seq<Edge>, last: seq<Edge>)
    requires forall e :: e in row ==> e in prefix
    ensures forall e :: e in row ==> e in prefix + last
  {
  }

  /** Every pair `i < j` whose weight is below 10 is joined both ways by its weight and label. */
  lemma GraphEdgesComplete(issues: seq<Issue>, i: int, j: int)
    requires 0 <= i < j < |issues| && RelationshipWeight(issues[i], issues[j]) < 10
    ensures var weight, kind := RelationshipWeight(issues[i], issues[j]), RelationshipType(issues[i], issues[j]);
            && Edge(issues[i].id, issues[j].id, weight, kind) in GraphEdges(issues, |issues|)
            && Edge(issues[j].id, issues[i].id, weight, kind) in GraphEdges(issues, |issues|)
  {
    var pair := PairEdges(issues[i], issues[j]);
    RowEdgesHas(issues, i, j, |issues|);
    GraphEdgesHas(issues, i, |issues|);
    assert pair[0] in pair && pair[1] in pair;
  }

  lemma {:induction false} RowEdgesFrom(issues: seq<Issue>, i: int, m: int, e: Edge)
    requires 0 <= i < m <= |issues| && e in RowEdges(issues, i, m)
    ensures exists j :: i < j < m && e in PairEdges(issues[i], issues[j])
  {
    if m != i + 1 {
      if e in RowEdges(issues, i, m - 1) {
        RowEdgesFrom(issues, i, m - 1, e);
        var j :| i < j < m - 1 && e in PairEdges(issues[i], issues[j]);
      } else {
        assert e in PairEdges(issues[i], issues[m - 1]);
      }
    }
  }

  lemma {:induction false} GraphEdgesFrom(issues: seq<Issue>, n: int, e: Edge)
    requires 0 <= n <= |issues| && e in GraphEdges(issues, n)
    ensures exists i, j :: 0 <= i < n && i < j < |issues| && e in PairEdges(issues[i], issues[j])
  {
    if e in GraphEdges(issues, n - 1) {
      GraphEdgesFrom(issues, n - 1, e);
      var i, j :| 0 <= i < n - 1 && i < j < |issues| && e in PairEdges(issues[i], issues[j]);
    } else {
      RowEdgesFrom(issues, n - 1, |issues|, e);
      var j :| n - 1 < j < |issues| && e in PairEdges(issues[n - 1], issues[j]);
    }
  }

  /** Every edge of the graph joins a pair `i < j` whose weight is below 10, one way or the
      other, and carries that weight and the pair's label. */
  lemma GraphEdgesSound(issues: seq<Issue>, e: Edge)
    requires e in GraphEdges(issues, |issues|)
    ensures exists i, j :: && 0 <= i < j < |issues|
                           && (|| (e.fromId == issues[i].id && e.toId == issues[j].id)
                               || (e.fromId == issues[j].id && e.toId == issues[i].id))
                           && e.weight == RelationshipWeight(issues[i], issues[j]) < 10
                           && e.relationshipType == RelationshipType(issues[i], issues[j])
  {
    GraphEdgesFrom(issues, |issues|, e);
    var i, j :| 0 <= i < |issues| && i < j < |issues| && e in PairEdges(issues[i], issues[j]);
    PairEdgesMember(issues[i], issues[j], e);
    assert e.weight == RelationshipWeight(issues[i], issues[j]);
  }

  /** The graph's edges come in opposite pairs with equal weight and label. */
  lemma GraphEdgesSymmetric(issues: seq<Issue>, e: Edge)
    requires e in GraphEdges(issues, |issues|)
    ensures Edge(e.toId, e.fromId, e.weight, e.relationshipType) in GraphEdges(issues, |issues|)
  {
    GraphEdgesFrom(issues, |issues|, e);
    var i, j :| 0 <= i < |issues| && i < j < |issues| && e in PairEdges(issues[i], issues[j]);
    PairEdgesMember(issues[i], issues[j], e);
    GraphEdgesComplete(issues, i, j);
  }

  /** The edge list of `k`, empty when `k` has none. */
  function ListOf(adjacency: map<int, seq<Edge>>, k: int): seq<Edge>
  {
    if k in adjacency then adjacency[k] else []
  }

  /** The adjacency lists after `AddEdge` of each edge of `edges`, in order. */
  function Extend(adjacency: map<int, seq<Edge>>, edges: seq<Edge>): map<int, seq<Edge>>
  {
    if edges == [] then adjacency
    else
      var before, e := Extend(adjacency, edges[..|edges| - 1]), edges[|edges| - 1];
      before[e.fromId := ListOf(before, e.fromId) + [e]]
  }

  lemma {:induction false} ExtendConcat(adjacency: map<int, seq<Edge>>, x: seq<Edge>, y: seq<Edge>)
    ensures Extend(adjacency, x + y) == Extend(Extend(adjacency, x), y)
  {
    if y == [] {
      assert x + y == x;
    } else {
      assert (x + y)[..|x + y| - 1] == x + y[..|y| - 1];
      ExtendConcat(adjacency, x, y[..|y| - 1]);
    }
  }

  /** Adding the edges of `edges` one by one appends to each list the edges that leave its
      identifier, in order, and touches no other list. */
  lemma {:induction false} ExtendFrom(adjacency: map<int, seq<Edge>>, edges: seq<Edge>, k: int)
    ensures ListOf(Extend(adjacency, edges), k) == ListOf(adjacency, k) + From(edges, k)
    ensures k in Extend(adjacency, edges) <==> k in adjacency || From(edges, k) != []
  {
    if edges != [] {
      ExtendFrom(adjacency, edges[..|edges| - 1], k);
    }
  }

  /** The two `AddEdge` calls of one pair in `BuildGraphRelationships`, made only when the
      pair's weight is below 10. */
  method AddPair(graph: ServiceRequestGraph, issue1: Issue, issue2: Issue)
    requires graph.Valid()
    modifies graph
    ensures graph.Valid() && graph.issues == old(graph.issues) && graph.vertices == old(graph.vertices)
    ensures graph.adjacency == Extend(old(graph.adjacency), PairEdges(issue1, issue2))
  {
    var weight := RelationshipWeight(issue1, issue2);
    if weight < 10 {
      var relationshipType := RelationshipType(issue1, issue2);
      ghost var forward := Edge(issue1.id, issue2.id, weight, relationshipType);
      ghost var backward := Edge(issue2.id, issue1.id, weight, relationshipType);
      assert PairEdges(issue1, issue2) == [forward, backward];
      ghost var a0 := graph.adjacency;
      assert [forward][..0] == [];
      assert Extend(a0, [forward]) == a0[issue1.id := ListOf(a0, issue1.id) + [forward]];
      graph.AddEdge(issue1.id, issue2.id, weight, relationshipType);
      ghost var a1 := graph.adjacency;
      assert a1 == Extend(a0, [forward]);
      assert [forward, backward][..1] == [forward];
      assert Extend(a0, [forward, backward]) == a1[issue2.id := ListOf(a1, issue2.id) + [backward]];
      graph.AddEdge(issue2.id, issue1.id, weight, relationshipType);
    }
  }

  /** One pass of the inner loop of `BuildGraphRelationships`: the pair `(i, j)`. */
  method AddPairOf(graph: ServiceRequestGraph, issues: seq<Issue>, i: int, j: int, ghost base: map<int, seq<Edge>>)
    requires 0 <= i < j < |issues| && graph.Valid()
    requires graph.adjacency == Extend(base, RowEdges(issues, i, j))
    modifies graph
    ensures graph.Valid() && graph.issues == old(graph.issues) && graph.vertices == old(graph.vertices)
    ensures graph.adjacency == Extend(base, RowEdges(issues, i, j + 1))
  {
    ExtendPair(base, issues, i, j);
    AddPair(graph, issues[i], issues[j]);
  }

  /** The inner loop of `BuildGraphRelationships`: the pairs `(i, j)` for every `j > i`. */
  method AddRow(graph: ServiceRequestGraph, issues: seq<Issue>, i: int)
    requires 0 <= i < |issues| && graph.Valid()
    modifies graph
    ensures graph.Valid() && graph.issues == old(graph.issues) && graph.vertices == old(graph.vertices)
    ensures graph.adjacency == Extend(old(graph.adjacency), RowEdges(issues, i, |issues|))
  {
    ghost var base := graph.adjacency;
    var j := i + 1;
    RowStart(base, issues, i);
    while j < |issues|
      invariant i + 1 <= j <= |issues|
      invariant graph.Valid() && graph.issues == old(graph.issues) && graph.vertices == old(graph.vertices)
      invariant graph.adjacency == Extend(base, RowEdges(issues, i, j))
    {
      AddPairOf(graph, issues, i, j, base);
      j := j + 1;
    }
    assert j == |issues|;
  }

  /** The row of request `i` starts empty, leaving the adjacency lists as they were. */
  lemma RowStart(base: map<int, seq<Edge>>, issues: seq<Issue>, i: int)
    requires 0 <= i < |issues|
    ensures Extend(base, RowEdges(issues, i, i + 1)) == base
  {
  }

  /** Extending by the row up to `j + 1` is extending by the row up to `j`, then by the pair `(i, j)`. */
  lemma ExtendPair(base: map<int, seq<Edge>>, issues: seq<Issue>, i: int, j: int)
    requires 0 <= i < j < |issues|
    ensures Extend(base, RowEdges(issues, i, j + 1))
         == Extend(Extend(base, RowEdges(issues, i, j)), PairEdges(issues[i], issues[j]))
  {
    ExtendConcat(base, RowEdges(issues, i, j), PairEdges(issues[i], issues[j]));
  }

  /** Extending by the edges of the first `i + 1` rows is extending by the first `i` rows, then by row `i`. */
  lemma ExtendRow(base: map<int, seq<Edge>>, issues: seq<Issue>, i: int)
    requires 0 <= i < |issues|
    ensures Extend(base, GraphEdges(issues, i + 1))
         == Extend(Extend(base, GraphEdges(issues, i)), RowEdges(issues, i, |issues|))
  {
    ExtendConcat(base, GraphEdges(issues, i), RowEdges(issues, i, |issues|));
  }

  /** One pass of the outer loop of `BuildGraphRelationships`: the row of request `i`. */
  method AddRowOf(graph: ServiceRequestGraph, issues: seq<Issue>, i: int, ghost base: map<int, seq<Edge>>)
    requires 0 <= i < |issues| && graph.Valid()
    requires graph.adjacency == Extend(base, GraphEdges(issues, i))
    modifies graph
    ensures graph.Valid() && graph.issues == old(graph.issues) && graph.vertices == old(graph.vertices)
    ensures graph.adjacency == Extend(base, GraphEdges(issues, i + 1))
  {
    ExtendRow(base, issues, i);
    AddRow(graph, issues, i);
  }

  /** `BuildGraphRelationships`: for every pair `i < j` of the snapshot, in order, both
      directed edges of the pair when its weight is below 10. */
  method BuildGraphRelationships(graph: ServiceRequestGraph, issues: seq<Issue>)
    requires graph.Valid()
    modifies graph
    ensures graph.Valid() && graph.issues == old(graph.issues) && graph.vertices == old(graph.vertices)
    ensures graph.adjacency == Extend(old(graph.adjacency), GraphEdges(issues, |issues|))
  {
    ghost var base := graph.adjacency;
    var i := 0;
    while i < |issues|
      invariant 0 <= i <= |issues|
      invariant graph.Valid() && graph.issues == old(graph.issues) && graph.vertices == old(graph.vertices)
      invariant graph.adjacency == Extend(base, GraphEdges(issues, i))
    {
      AddRowOf(graph, issues, i, base);
      i := i + 1;
    }
    assert i == |issues|;
  }

  /** The vertex registered under `id`, if any. */
  function VertexOf(issues: map<int, Issue>, id: int): Option<Issue>
  {
    if id in issues then Some(issues[id]) else None
  }

  /** Identifiers that are all distinct are as many as the records. */
  lemma {:induction false} UniqueIdsCount(s: seq<Issue>)
    requires UniqueIds(s)
    ensures |IdsOf(s)| == |s|
  {
    if s != [] {
      var init := s[..|s| - 1];
      UniqueIdsCount(init);
      assert s[|s| - 1].id !in IdsOf(init);
    }
  }

  lemma DistinctSnapshotCount(s: seq<Issue>)
    ensures UniqueIds(s) ==> |IdsOf(s)| == |s|
  {
    if UniqueIds(s) {
      UniqueIdsCount(s);
    }
  }

  /** The number of records of `s` with status `status`. */
  function CountStatus(s: seq<Issue>, status: IssueStatus): nat
  {
    if s == [] then 0
    else CountStatus(s[..|s| - 1], status) + if s[|s| - 1].status == status then 1 else 0
  }

  /** The number of records of `s` with priority `priority`. */
  function CountPriority(s: seq<Issue>, priority: IssuePriority): nat
  {
    if s == [] then 0
    else CountPriority(s[..|s| - 1], priority) + if s[|s| - 1].priority == priority then 1 else 0
  }

  /** The canonical records of a snapshot: for each identifier, the first record with it, which
      is what a lookup by identifier returns. */
  ghost function Canonical(s: seq<Issue>): set<Issue>
  {
    set x | x in s && FirstWithId(s, x.id) == Some(x)
  }

  /** The number of canonical records with status `status`. */
  ghost function StatusTally(s: seq<Issue>, status: IssueStatus): nat
  {
    |set x | x in Canonical(s) && x.status == status|
  }

  /** The number of canonical records with priority `priority`. */
  ghost function PriorityTally(s: seq<Issue>, priority: IssuePriority): nat
  {
    |set x | x in Canonical(s) && x.priority == priority|
  }

  /** The records of a non-empty sequence are those before its last one, and the last one. */
  lemma MembersSnoc(s: seq<Issue>)
    requires s != []
    ensures forall x :: x in s <==> x in s[..|s| - 1] || x == s[|s| - 1]
  {
    assert s == s[..|s| - 1] + [s[|s| - 1]];
  }

  /** Appending a record not yet present adds one to the number of records that `keep`
      selects when it selects the new one, and nothing otherwise. */
  lemma SnocCount(s: seq<Issue>, keep: Issue -> bool)
    requires s != [] && s[|s| - 1] !in s[..|s| - 1]
    ensures |set x | x in s && keep(x)| ==
            |set x | x in s[..|s| - 1] && keep(x)| + (if keep(s[|s| - 1]) then 1 else 0)
  {
    var last := s[|s| - 1];
    MembersSnoc(s);
    var before := set x | x in s[..|s| - 1] && keep(x);
    var after := set x | x in s && keep(x);
    if keep(last) {
      assert last !in before;
      assert after == before + {last};
    } else {
      assert after == before;
    }
  }

  /** `SnocCount` selecting by status. */
  lemma StatusSnoc(s: seq<Issue>, status: IssueStatus)
    requires s != [] && s[|s| - 1] !in s[..|s| - 1]
    ensures |set x | x in s && x.status == status| ==
            |set x | x in s[..|s| - 1] && x.status == status| + (if s[|s| - 1].status == status then 1 else 0)
  {
    var keep := (x: Issue) => x.status == status;
    SnocCount(s, keep);
    assert (set x | x in s && keep(x)) == (set x | x in s && x.status == status);
    assert (set x | x in s[..|s| - 1] && keep(x)) == (set x | x in s[..|s| - 1] && x.status == status);
  }

  /** `SnocCount` selecting by priority. */
  lemma PrioritySnoc(s: seq<Issue>, priority: IssuePriority)
    requires s != [] && s[|s| - 1] !in s[..|s| - 1]
    ensures |set x | x in s && x.priority == priority| ==
            |set x | x in s[..|s| - 1] && x.priority == priority| + (if s[|s| - 1].priority == priority then 1 else 0)
  {
    var keep := (x: Issue) => x.priority == priority;
    SnocCount(s, keep);
    assert (set x | x in s && keep(x)) == (set x | x in s && x.priority == priority);
    assert (set x | x in s[..|s| - 1] && keep(x)) == (set x | x in s[..|s| - 1] && x.priority == priority);
  }

  /** The last record of a sequence with distinct identifiers does not occur before it. */
  lemma LastIsNew(s: seq<Issue>)
    requires UniqueIds(s) && s != []
    ensures s[|s| - 1] !in s[..|s| - 1] && UniqueIds(s[..|s| - 1])
  {
    var n := |s| - 1;
    forall i | 0 <= i < n ensures s[..n][i] != s[n] {
      assert s[i].id != s[n].id;
    }
  }

  /** With distinct identifiers, counting by status counts the distinct records with it. */
  lemma {:induction false} CountStatusSet(s: seq<Issue>, status: IssueStatus)
    requires UniqueIds(s)
    ensures CountStatus(s, status) == |set x | x in s && x.status == status|
  {
    if s != [] {
      var n := |s| - 1;
      var init := s[..n];
      LastIsNew(s);
      CountStatusSet(init, status);
      StatusSnoc(s, status);
    }
  }

  /** With distinct identifiers, counting by priority counts the distinct records with it. */
  lemma {:induction false} CountPrioritySet(s: seq<Issue>, priority: IssuePriority)
    requires UniqueIds(s)
    ensures CountPriority(s, priority) == |set x | x in s && x.priority == priority|
  {
    if s != [] {
      var n := |s| - 1;
      var init := s[..n];
      LastIsNew(s);
      CountPrioritySet(init, priority);
      PrioritySnoc(s, priority);
    }
  }

  /** A listing with distinct identifiers, exactly those of the snapshot, each record the first
      of the snapshot with its identifier, holds exactly the canonical records. */
  lemma CanonicalMembers(s: seq<Issue>, all: seq<Issue>)
    requires IdsOf(all) == IdsOf(s)
    requires forall x :: x in all ==> FirstWithId(s, x.id) == Some(x)
    ensures forall x :: x in all <==> x in Canonical(s)
  {
    forall x | x in Canonical(s) ensures x in all {
      var k :| 0 <= k < |s| && s[k] == x;
      assert x.id in IdsOf(s);
      var i :| 0 <= i < |all| && all[i].id == x.id;
      assert FirstWithId(s, all[i].id) == Some(all[i]);
    }
  }

  /** A listing with distinct identifiers holding exactly the canonical records counts, by
      status, the canonical records with that status. */
  lemma StatusTallyOf(s: seq<Issue>, all: seq<Issue>, status: IssueStatus)
    requires UniqueIds(all) && forall x :: x in all <==> x in Canonical(s)
    ensures CountStatus(all, status) == StatusTally(s, status)
  {
    CountStatusSet(all, status);
    var a := set x | x in all && x.status == status;
    var b := set x | x in Canonical(s) && x.status == status;
    assert a == b by {
      forall x ensures x in a <==> x in b {
        assert x in all <==> x in Canonical(s);
      }
    }
  }

  /** The same by priority. */
  lemma PriorityTallyOf(s: seq<Issue>, all: seq<Issue>, priority: IssuePriority)
    requires UniqueIds(all) && forall x :: x in all <==> x in Canonical(s)
    ensures CountPriority(all, priority) == PriorityTally(s, priority)
  {
    CountPrioritySet(all, priority);
    var a := set x | x in all && x.priority == priority;
    var b := set x | x in Canonical(s) && x.priority == priority;
    assert a == b by {
      forall x ensures x in a <==> x in b {
        assert x in all <==> x in Canonical(s);
      }
    }
  }

  /** So such a listing's counts by status and priority are the tallies of the canonical records. */
  lemma CanonicalListing(s: seq<Issue>, all: seq<Issue>)
    requires UniqueIds(all) && IdsOf(all) == IdsOf(s)
    requires forall x :: x in all ==> FirstWithId(s, x.id) == Some(x)
    ensures forall status :: CountStatus(all, status) == StatusTally(s, status)
    ensures forall priority :: CountPriority(all, priority) == PriorityTally(s, priority)
  {
    CanonicalMembers(s, all);
    forall status ensures CountStatus(all, status) == StatusTally(s, status) {
      StatusTallyOf(s, all, status);
    }
    forall priority ensures CountPriority(all, priority) == PriorityTally(s, priority) {
      PriorityTallyOf(s, all, priority);
    }
  }

  /** Every record has exactly one of the five statuses. */
  lemma {:induction false} StatusCountsSum(s: seq<Issue>)
    ensures CountStatus(s, Submitted) + CountStatus(s, InReview) + CountStatus(s, InProgress)
          + CountStatus(s, Resolved) + CountStatus(s, Closed) == |s|
  {
    if s != [] {
      StatusCountsSum(s[..|s| - 1]);
    }
  }

  /** `GetRequestStatisticsAsync`'s dictionary, one field per key. */
  datatype RequestStatistics = RequestStatistics(
    total: int, submitted: int, inReview: int, inProgress: int, resolved: int, closed: int,
    critical: int, high: int, bstNodes: int, avlNodes: int, heapSize: int)

  /** The three search indexes hold exactly the records of `s`, inserted in order. */
  ghost predicate Indexes(bst: KeyIndex.IssueSearchTree, avl: BalancedKeyIndex.AvlSearchTree,
                          heap: RequestHeap.ServiceRequestMinHeap, s: seq<Issue>)
    reads bst, avl, heap
  {
    && bst.Valid() && avl.Valid() && heap.Valid()
    && bst.root == KeyIndex.Build(s) && bst.count == |s|
    && avl.root == BalancedKeyIndex.Build(s) && avl.count == |s|
    && multiset(heap.heap) == multiset(s)
  }

  /** The graph has one vertex per identifier of `s`, the first record with it, and no edges. */
  ghost predicate Vertices(graph: ServiceRequestGraph, s: seq<Issue>)
    reads graph
  {
    && graph.Valid()
    && (forall id :: VertexOf(graph.issues, id) == FirstWithId(s, id))
    && (forall k :: k in graph.adjacency ==> graph.adjacency[k] == [])
  }

  /** `issues[i]` goes into the two search trees and the heap. */
  method IndexSearch(bst: KeyIndex.IssueSearchTree, avl: BalancedKeyIndex.AvlSearchTree,
                     heap: RequestHeap.ServiceRequestMinHeap, issues: seq<Issue>, i: nat)
    requires i < |issues| && Indexes(bst, avl, heap, issues[..i])
    modifies bst, avl, heap
    ensures Indexes(bst, avl, heap, issues[..i + 1])
  {
    assert issues[..i + 1][..i] == issues[..i];
    assert issues[..i + 1] == issues[..i] + [issues[i]];
    bst.Insert(issues[i]);
    avl.Insert(issues[i]);
    heap.Insert(issues[i]);
  }

  /** `issues[i]` becomes a vertex unless its identifier already is one. */
  method IndexVertex(graph: ServiceRequestGraph, issues: seq<Issue>, i: nat)
    requires i < |issues| && Vertices(graph, issues[..i])
    modifies graph
    ensures Vertices(graph, issues[..i + 1])
  {
    assert issues[..i + 1] == issues[..i] + [issues[i]];
    graph.AddVertex(issues[i]);
    forall id ensures VertexOf(graph.issues, id) == FirstWithId(issues[..i + 1], id) {
      FirstWithIdAppend(issues[..i], issues[i], id);
    }
  }

  /** The rebuild loop over the snapshot. */
  method IndexAll(bst: KeyIndex.IssueSearchTree, avl: BalancedKeyIndex.AvlSearchTree,
                  heap: RequestHeap.ServiceRequestMinHeap, graph: ServiceRequestGraph, issues: seq<Issue>)
    requires Indexes(bst, avl, heap, []) && Vertices(graph, [])
    modifies bst, avl, heap, graph
    ensures Indexes(bst, avl, heap, issues) && Vertices(graph, issues)
  {
    var i := 0;
    assert issues[..0] == [];
    while i < |issues|
      invariant 0 <= i <= |issues|
      invariant Indexes(bst, avl, heap, issues[..i]) && Vertices(graph, issues[..i])
    {
      IndexSearch(bst, avl, heap, issues, i);
      IndexVertex(graph, issues, i);
      i := i + 1;
    }
    assert i == |issues|;
    assert issues[..i] == issues;
  }

  /** `BuildGraphRelationships` on a graph that holds the vertices and no edges yet: afterwards
      the edge list of every vertex is the part of `GraphEdges` that leaves it. */
  method ConnectAll(graph: ServiceRequestGraph, issues: seq<Issue>)
    requires Vertices(graph, issues)
    modifies graph
    ensures graph.Valid() && forall id :: VertexOf(graph.issues, id) == FirstWithId(issues, id)
    ensures forall k :: graph.GetEdges(k) == From(GraphEdges(issues, |issues|), k)
  {
    ghost var vertexLists := graph.adjacency;
    BuildGraphRelationships(graph, issues);
    forall k ensures graph.GetEdges(k) == From(GraphEdges(issues, |issues|), k) {
      ExtendFrom(vertexLists, GraphEdges(issues, |issues|), k);
    }
  }

  /** `ServiceRequestService`: the four indexes, all built from the same snapshot of the issue
      store. */
  class ServiceRequestService {
    var bst: KeyIndex.IssueSearchTree
    var avlTree: BalancedKeyIndex.AvlSearchTree
    var priorityHeap: RequestHeap.ServiceRequestMinHeap
    var relationshipGraph: ServiceRequestGraph
    /** The snapshot the indexes were last rebuilt from. */
    ghost var snapshot: seq<Issue>

    ghost predicate Valid()
      reads this, bst, avlTree, priorityHeap, relationshipGraph
    {
      Indexes(bst, avlTree, priorityHeap, snapshot) && relationshipGraph.Valid()
    }

    /** Starts with four empty indexes. */
    constructor ()
      ensures Valid() && snapshot == []
    {
      bst := new KeyIndex.IssueSearchTree();
      avlTree := new BalancedKeyIndex.AvlSearchTree();
      priorityHeap := new RequestHeap.ServiceRequestMinHeap();
      relationshipGraph := new ServiceRequestGraph();
      snapshot := [];
    }

    /** `RebuildDataStructuresAsync`, given the snapshot `allIssues` of the issue store: four new
        indexes, each issue inserted into all four in snapshot order, then the similarity edges.
        The graph keeps the first issue of each identifier and holds exactly the edges of
        `GraphEdges`. */
    method Rebuild(allIssues: seq<Issue>)
      modifies this
      ensures Valid() && snapshot == allIssues
      ensures fresh(bst) && fresh(avlTree) && fresh(priorityHeap) && fresh(relationshipGraph)
      ensures forall id :: VertexOf(relationshipGraph.issues, id) == FirstWithId(allIssues, id)
      ensures forall k :: relationshipGraph.GetEdges(k) == From(GraphEdges(allIssues, |allIssues|), k)
    {
      bst := new KeyIndex.IssueSearchTree();
      avlTree := new BalancedKeyIndex.AvlSearchTree();
      priorityHeap := new RequestHeap.ServiceRequestMinHeap();
      relationshipGraph := new ServiceRequestGraph();
      snapshot := allIssues;
      IndexAll(bst, avlTree, priorityHeap, relationshipGraph, allIssues);
      ConnectAll(relationshipGraph, allIssues);
    }

    /** `GetRequestByIdAsync`: the binary search tree, then the AVL tree when the first finds
        nothing. Both are built from the snapshot, so the answer is the snapshot's first issue
        with the identifier and the fallback never finds what the first search missed. */
    function GetRequestById(id: int): (r: Option<Issue>)
      requires Valid()
      reads this, bst, avlTree, priorityHeap, relationshipGraph
      ensures r == FirstWithId(snapshot, id)
      ensures bst.Search(id).None? ==> avlTree.Search(id).None?
    {
      KeyIndex.BuildSearch(snapshot, id);
      BalancedKeyIndex.BuildSearch(snapshot, id);
      var result := bst.Search(id);
      if result.None? then avlTree.Search(id) else result
    }

    /** `GetAllRequestsAsync`: the binary search tree in order, one issue per identifier of the
        snapshot, ascending. */
    function GetAllRequests(): (r: seq<Issue>)
      requires Valid()
      reads this, bst, avlTree, priorityHeap, relationshipGraph
      ensures KeyIndex.StrictlyAscending(r) && IdsOf(r) == IdsOf(snapshot)
      ensures forall x :: x in r ==> FirstWithId(snapshot, x.id) == Some(x)
    {
      KeyIndex.BuildOrdered(snapshot);
      forall id ensures KeyIndex.SearchNode(bst.root, id) == FirstWithId(snapshot, id) {
        KeyIndex.BuildSearch(snapshot, id);
      }
      bst.GetAllSorted()
    }

    /** `GetRequestStatisticsAsync`. Each status and priority count is the number of canonical
        records with it, and the status counts split the total; the node counts count
        every snapshot record, duplicates included, so they equal the total exactly when the
        snapshot's identifiers are distinct. */
    function Statistics(): (stats: RequestStatistics)
      requires Valid()
      reads this, bst, avlTree, priorityHeap, relationshipGraph
      ensures stats.total == |IdsOf(snapshot)|
      ensures stats.submitted + stats.inReview + stats.inProgress + stats.resolved + stats.closed == stats.total
      ensures stats.submitted == StatusTally(snapshot, Submitted) && stats.inReview == StatusTally(snapshot, InReview)
      ensures stats.inProgress == StatusTally(snapshot, InProgress) && stats.resolved == StatusTally(snapshot, Resolved)
      ensures stats.closed == StatusTally(snapshot, Closed)
      ensures stats.critical == PriorityTally(snapshot, Critical) && stats.high == PriorityTally(snapshot, High)
      ensures stats.bstNodes == stats.avlNodes == stats.heapSize == |snapshot|
      ensures UniqueIds(snapshot) ==> stats.total == |snapshot|
    {
      var all := GetAllRequests();
      assert UniqueIds(all);
      CanonicalListing(snapshot, all);
      UniqueIdsCount(all);
      StatusCountsSum(all);
      DistinctSnapshotCount(snapshot);
      assert |multiset(priorityHeap.heap)| == |priorityHeap.heap|;
      RequestStatistics(
        |all|,
        CountStatus(all, Submitted), CountStatus(all, InReview), CountStatus(all, InProgress),
        CountStatus(all, Resolved), CountStatus(all, Closed),
        CountPriority(all, Critical), CountPriority(all, High),
        bst.count, avlTree.count, priorityHeap.Count())
    }
  }
}
