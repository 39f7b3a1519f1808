/** The disjoint-set forest that `GetMinimumSpanningTree` keeps in its `parent` dictionary, with
    its local `Find` (with path compression) and `Union` (the first root linked under the
    second). */
module UnionFind {
  import opened Seqs

  function Max(a: int, b: int): int
  {
    if a < b then b else a
  }

  /** `p` is a forest: every parent is an entry, and every chain climbs strictly in `lv` until
      it reaches a root (an entry that is its own parent). `bound` caps the levels, which
      measures how far a chain can still climb. */
  ghost predicate Forest(p: map<int, int>, lv: map<int, nat>, bound: nat)
  {
    && p.Values <= p.Keys
    && forall x {:trigger p[x]} :: x in p ==>
      && x in lv && lv[x] <= bound
      && (p[x] != x ==> p[x] in lv && lv[x] < lv[p[x]])
  }

  /** The root that the chain from `x` ends at: the representative of `x`'s class. */
  ghost function Root(p: map<int, int>, lv: map<int, nat>, bound: nat, x: int): (r: int)
    requires Forest(p, lv, bound) && x in p
    ensures r in p && p[r] == r && lv[x] <= lv[r]
    ensures p[x] != x ==> lv[x] < lv[r]
    decreases bound - lv[x]
  {
    if p[x] == x then x else Root(p, lv, bound, p[x])
  }

  /** The roots: one per class. */
  ghost function Roots(p: map<int, int>): set<int>
  {
    set x | x in p && p[x] == x
  }

  /** Re-pointing a non-root at another entry keeps the roots. */
  lemma RedirectKeepsRoots(p: map<int, int>, x: int, v: int)
    requires x in p && p[x] != x && v != x
    ensures Roots(p[x := v]) == Roots(p)
  {
    var q := p[x := v];
    forall z | z in Roots(q) ensures z in Roots(p) {
      assert z != x;
    }
    forall z | z in Roots(p) ensures z in Roots(q) {
      assert z != x;
    }
  }

  /** Linking root `rx` under another entry removes exactly `rx` from the roots. */
  lemma LinkRemovesRoot(p: map<int, int>, rx: int, ry: int)
    requires rx in p && p[rx] == rx && rx != ry
    ensures Roots(p[rx := ry]) == Roots(p) - {rx}
  {
    var q := p[rx := ry];
    forall z | z in Roots(q) ensures z in Roots(p) - {rx} {
      assert z != rx;
    }
    forall z | z in Roots(p) - {rx} ensures z in Roots(q) {
      assert z != rx;
    }
  }

  /** A non-empty forest has a root. */
  lemma RootsNonEmpty(p: map<int, int>, lv: map<int, nat>, bound: nat, x: int)
    requires Forest(p, lv, bound) && x in p
    ensures |Roots(p)| >= 1
  {
    var r := Root(p, lv, bound, x);
    assert r in Roots(p);
  }

  /** Pointing a non-root `x` straight at its root keeps the forest and every entry's root. */
  lemma Compress(p: map<int, int>, lv: map<int, nat>, bound: nat, x: int)
    requires Forest(p, lv, bound) && x in p && p[x] != x
    ensures Forest(p[x := Root(p, lv, bound, x)], lv, bound)
    ensures Roots(p[x := Root(p, lv, bound, x)]) == Roots(p)
    ensures forall y {:trigger Root(p, lv, bound, y)} :: y in p ==>
              Root(p[x := Root(p, lv, bound, x)], lv, bound, y) == Root(p, lv, bound, y)
  {
    var q := p[x := Root(p, lv, bound, x)];
    assert Forest(q, lv, bound);
    RedirectKeepsRoots(p, x, Root(p, lv, bound, x));
    forall y | y in p ensures Root(q, lv, bound, y) == Root(p, lv, bound, y) {
      CompressAt(p, lv, bound, x, y);
    }
  }

  lemma {:induction false} CompressAt(p: map<int, int>, lv: map<int, nat>, bound: nat, x: int, y: int)
    requires Forest(p, lv, bound) && x in p && p[x] != x && y in p
    requires Forest(p[x := Root(p, lv, bound, x)], lv, bound)
    ensures Root(p[x := Root(p, lv, bound, x)], lv, bound, y) == Root(p, lv, bound, y)
    decreases bound - lv[y]
  {
    if y != x && p[y] != y {
      CompressAt(p, lv, bound, x, p[y]);
    }
  }

  /** `q` has the entries of `p` and puts each of them in the class with the same root. */
  ghost predicate SameClasses(p: map<int, int>, q: map<int, int>, lv: map<int, nat>, bound: nat)
    requires Forest(p, lv, bound) && Forest(q, lv, bound)
  {
    && q.Keys == p.Keys
    && forall y {:trigger Root(p, lv, bound, y)} :: y in p ==> Root(q, lv, bound, y) == Root(p, lv, bound, y)
  }

  /** Re-pointing an entry keeps the set of entries. */
  lemma UpdateKeys(m: map<int, int>, x: int, v: int)
    requires x in m
    ensures m[x := v].Keys == m.Keys
  {
  }

  /** One step of `Find` on a non-root `x`: once the entries above `x` have been re-pointed
      (`q`) without moving any class, pointing `x` at its root still keeps the classes and the
      roots. */
  lemma CompressStep(p: map<int, int>, q: map<int, int>, lv: map<int, nat>, bound: nat, x: int, root: int)
    requires Forest(p, lv, bound) && x in p && p[x] != x && root == Root(p, lv, bound, p[x])
    requires Forest(q, lv, bound) && SameClasses(p, q, lv, bound) && Roots(q) == Roots(p)
    ensures root == Root(p, lv, bound, x)
    ensures Forest(q[x := root], lv, bound) && SameClasses(p, q[x := root], lv, bound)
    ensures Roots(q[x := root]) == Roots(p)
  {
    NonRootIn(p, q, lv, bound, x);
    CompressSame(q, lv, bound, x);
    SameClassesTrans(p, q, q[x := root], lv, bound);
  }

  /** A non-root entry of `p` is a non-root entry of `q` with the same root, when `q` keeps the
      classes and the roots of `p`. */
  lemma NonRootIn(p: map<int, int>, q: map<int, int>, lv: map<int, nat>, bound: nat, x: int)
    requires Forest(p, lv, bound) && x in p && p[x] != x
    requires Forest(q, lv, bound) && SameClasses(p, q, lv, bound) && Roots(q) == Roots(p)
    ensures x in q && q[x] != x && Root(q, lv, bound, x) == Root(p, lv, bound, x)
  {
    StillNonRoot(p, q, x);
  }

  /** A root of `p` is a root of `q` when the two have the same roots. */
  lemma StillRoot(p: map<int, int>, q: map<int, int>, r: int)
    requires r in Roots(p) && Roots(q) == Roots(p)
    ensures r in q && q[r] == r
  {
    assert r in Roots(q);
  }

  /** Whether an entry is a root depends only on the set of roots. */
  lemma StillNonRoot(p: map<int, int>, q: map<int, int>, x: int)
    requires x in p && p[x] != x && q.Keys == p.Keys && Roots(q) == Roots(p)
    ensures x in q && q[x] != x
  {
    assert x !in Roots(p);
  }

  /** Compressing one entry keeps the classes, in the form `Find` carries along. */
  lemma CompressSame(q: map<int, int>, lv: map<int, nat>, bound: nat, x: int)
    requires Forest(q, lv, bound) && x in q && q[x] != x
    ensures Forest(q[x := Root(q, lv, bound, x)], lv, bound)
    ensures SameClasses(q, q[x := Root(q, lv, bound, x)], lv, bound)
    ensures Roots(q[x := Root(q, lv, bound, x)]) == Roots(q)
  {
    Compress(q, lv, bound, x);
    UpdateKeys(q, x, Root(q, lv, bound, x));
  }

  /** Linking root `rx` under root `ry` merges their two classes and nothing else. */
  lemma Link(p: map<int, int>, lv: map<int, nat>, bound: nat, rx: int, ry: int)
    requires Forest(p, lv, bound) && rx in p && ry in p && p[rx] == rx && p[ry] == ry && rx != ry
    ensures var lv' := lv[ry := Max(lv[ry], lv[rx] + 1)];
            var bound' := Max(bound, lv'[ry]);
            && Forest(p[rx := ry], lv', bound')
            && Roots(p[rx := ry]) == Roots(p) - {rx}
            && forall y {:trigger Root(p, lv, bound, y)} :: y in p ==>
                 Root(p[rx := ry], lv', bound', y) == if Root(p, lv, bound, y) == rx then ry else Root(p, lv, bound, y)
  {
    var lv' := lv[ry := Max(lv[ry], lv[rx] + 1)];
    var bound' := Max(bound, lv'[ry]);
    var q := p[rx := ry];
    assert Forest(q, lv', bound');
    LinkRemovesRoot(p, rx, ry);
    forall y | y in p
      ensures Root(q, lv', bound', y) == if Root(p, lv, bound, y) == rx then ry else Root(p, lv, bound, y)
    {
      LinkAt(p, lv, bound, rx, ry, y);
    }
  }

  lemma {:induction false} LinkAt(p: map<int, int>, lv: map<int, nat>, bound: nat, rx: int, ry: int, y: int)
    requires Forest(p, lv, bound) && rx in p && ry in p && p[rx] == rx && p[ry] == ry && rx != ry
    requires Forest(p[rx := ry], lv[ry := Max(lv[ry], lv[rx] + 1)], Max(bound, Max(lv[ry], lv[rx] + 1)))
    requires y in p
    ensures var lv', bound' := lv[ry := Max(lv[ry], lv[rx] + 1)], Max(bound, Max(lv[ry], lv[rx] + 1));
            Root(p[rx := ry], lv', bound', y) == if Root(p, lv, bound, y) == rx then ry else Root(p, lv, bound, y)
    decreases bound - lv[y]
  {
    if p[y] != y {
      LinkAt(p, lv, bound, rx, ry, p[y]);
    }
  }

  /** `q` (with levels `lv'` under `bound'`) has the entries of `p`, and moves the class rooted at
      `rx` under `ry` while every other entry keeps its root. With `rx == ry` nothing moves. */
  ghost predicate Merged(p: map<int, int>, lv: map<int, nat>, bound: nat,
                         q: map<int, int>, lv': map<int, nat>, bound': nat, rx: int, ry: int)
    requires Forest(p, lv, bound) && Forest(q, lv', bound')
  {
    && q.Keys == p.Keys
    && forall y {:trigger Root(p, lv, bound, y)} :: y in p ==>
         Root(q, lv', bound', y) == if Root(p, lv, bound, y) == rx then ry else Root(p, lv, bound, y)
  }

  lemma SameClassesTrans(p: map<int, int>, q: map<int, int>, t: map<int, int>, lv: map<int, nat>, bound: nat)
    requires Forest(p, lv, bound) && Forest(q, lv, bound) && Forest(t, lv, bound)
    requires SameClasses(p, q, lv, bound) && SameClasses(q, t, lv, bound)
    ensures SameClasses(p, t, lv, bound)
  {
    forall y | y in p ensures Root(t, lv, bound, y) == Root(p, lv, bound, y) {
      SameRootTrans(p, q, t, lv, bound, y);
    }
  }

  /** The step of `SameClassesTrans` for one entry. */
  lemma SameRootTrans(p: map<int, int>, q: map<int, int>, t: map<int, int>, lv: map<int, nat>, bound: nat, y: int)
    requires Forest(p, lv, bound) && Forest(q, lv, bound) && Forest(t, lv, bound)
    requires SameClasses(p, q, lv, bound) && SameClasses(q, t, lv, bound) && y in p
    ensures y in t && Root(t, lv, bound, y) == Root(p, lv, bound, y)
  {
    assert y in q && y in t;
    var a := Root(p, lv, bound, y);
    var b := Root(q, lv, bound, y);
    var c := Root(t, lv, bound, y);
    assert b == a;
    assert c == b;
  }

  /** The link in `Union`, after its two `Find`s have compressed `p` into `q`. */
  lemma LinkStep(p: map<int, int>, q: map<int, int>, lv: map<int, nat>, bound: nat, rx: int, ry: int,
                 lv': map<int, nat>, bound': nat)
    requires Forest(p, lv, bound) && Forest(q, lv, bound)
    requires SameClasses(p, q, lv, bound) && Roots(q) == Roots(p)
    requires rx in Roots(p) && ry in Roots(p) && rx != ry
    requires lv' == lv[ry := Max(lv[ry], lv[rx] + 1)] && bound' == Max(bound, lv'[ry])
    ensures Forest(q[rx := ry], lv', bound')
    ensures Merged(p, lv, bound, q[rx := ry], lv', bound', rx, ry)
    ensures Roots(q[rx := ry]) == Roots(p) - {rx}
  {
    StillRoot(p, q, rx);
    StillRoot(p, q, ry);
    Link(q, lv, bound, rx, ry);
    forall y | y in p
      ensures Root(q[rx := ry], lv', bound', y) == if Root(p, lv, bound, y) == rx then ry else Root(p, lv, bound, y)
    {
      assert Root(q, lv, bound, y) == Root(p, lv, bound, y);
    }
  }

  /** Classes that stay the same are merged with nothing. */
  lemma SameMerged(p: map<int, int>, q: map<int, int>, lv: map<int, nat>, bound: nat, r: int)
    requires Forest(p, lv, bound) && Forest(q, lv, bound) && SameClasses(p, q, lv, bound)
    ensures Merged(p, lv, bound, q, lv, bound, r, r)
  {
  }

  /** Entries that are all their own parents form a forest of singleton classes. */
  lemma Singletons(p: map<int, int>)
    requires forall x :: x in p ==> p[x] == x
    ensures Forest(p, map x | x in p :: 0, 0) && Roots(p) == p.Keys
  {
    forall z | z in p ensures z in Roots(p) {
      assert p[z] == z;
    }
  }

  class DisjointSets {
    /** The `parent` dictionary. */
    var parent: map<int, int>
    ghost var level: map<int, nat>
    ghost var bound: nat

    ghost predicate Valid()
      reads this
    {
      Forest(parent, level, bound)
    }

    /** The `MakeSet` loop of the constructor: every identifier its own parent. */
    static method MakeSets(ids: seq<int>) returns (p: map<int, int>)
      requires Distinct(ids)
      ensures forall x :: x in p <==> x in ids
      ensures forall x :: x in p ==> p[x] == x
      ensures |p.Keys| == |ids|
    {
      p := map[];
      var i := 0;
      while i < |ids|
        invariant 0 <= i <= |ids|
        invariant forall x :: x in p <==> x in ids[..i]
        invariant forall x :: x in p ==> p[x] == x
        invariant |p.Keys| == i
      {
        assert ids[i] !in ids[..i];
        assert ids[..i + 1] == ids[..i] + [ids[i]];
        assert (p[ids[i] := ids[i]]).Keys == p.Keys + {ids[i]};
        p := p[ids[i] := ids[i]];
        i := i + 1;
      }
      assert i == |ids|;
      assert ids[..i] == ids;
    }

    /** Every identifier of `ids` starts as its own parent, alone in its class. */
    constructor (ids: seq<int>)
      requires Distinct(ids)
      ensures Valid() && (forall x :: x in parent <==> x in ids)
      ensures Roots(parent) == parent.Keys && |Roots(parent)| == |ids|
    {
      var p := MakeSets(ids);
      Singletons(p);
      parent := p;
      level := map x | x in p :: 0;
      bound := 0;
    }

    /** `Find`: the root of `x`'s class; every entry on the way is re-pointed at that root. The
        classes and their roots stay as they are, and entries below `x` are untouched. */
    method Find(x: int) returns (r: int)
      requires Valid() && x in parent
      modifies this
      ensures Valid() && level == old(level) && bound == old(bound)
      ensures r == old(Root(parent, level, bound, x))
      ensures SameClasses(old(parent), parent, level, bound) && Roots(parent) == old(Roots(parent))
      decreases bound - level[x]
    {
      if parent[x] != x {
        var root := Find(parent[x]);
        CompressStep(old(parent), parent, level, bound, x, root);
        parent := parent[x := root];
      }
      r := parent[x];
    }

    /** Installs a forest computed from the current one. */
    method SetForest(p: map<int, int>, ghost lv: map<int, nat>, ghost b: nat)
      requires Forest(p, lv, b)
      modifies this
      ensures Valid() && parent == p && level == lv && bound == b
    {
      parent, level, bound := p, lv, b;
    }

    /** `Union`: links the root of `x`'s class under the root of `y`'s when they differ, merging
        the two classes; that removes exactly one root. */
    method Union(x: int, y: int)
      requires Valid() && x in parent && y in parent
      modifies this
      ensures Valid()
      ensures var rx, ry := old(Root(parent, level, bound, x)), old(Root(parent, level, bound, y));
              && Merged(old(parent), old(level), old(bound), parent, level, bound, rx, ry)
              && Roots(parent) == old(Roots(parent)) - (if rx != ry then {rx} else {})
    {
      ghost var p0 := parent;
      var rootX := Find(x);
      ghost var p1 := parent;
      var rootY := Find(y);
      SameClassesTrans(p0, p1, parent, level, bound);
      if rootX != rootY {
        ghost var lv' := level[rootY := Max(level[rootY], level[rootX] + 1)];
        ghost var bound' := Max(bound, lv'[rootY]);
        LinkStep(p0, parent, level, bound, rootX, rootY, lv', bound');
        SetForest(parent[rootX := rootY], lv', bound');
      } else {
        SameMerged(p0, parent, level, bound, rootX);
      }
    }
  }
}
