/** `ActivityStack`: a bounded stack of activity entries, newest on top. */
module Activity {
  import opened Wrappers
  import opened Seqs

  /** The most entries a stack with bound `maxSize` can hold: a push always succeeds, so a
      bound below one still leaves room for the entry just pushed. */
  function Capacity(maxSize: int): (c: int)
    ensures c >= 1 && c >= maxSize
    ensures maxSize >= 1 ==> c == maxSize
  {
    if maxSize >= 1 then maxSize else 1
  }

  /** The entries, top first, after pushing `a` onto `s`. When the stack is full, the oldest
      entry (the bottom one) is dropped and the survivors are pushed back newest first, which
      leaves them in reverse order beneath `a`. */
  function Pushed(s: seq<string>, maxSize: int, a: string): (r: seq<string>)
    ensures |r| > 0 && r[0] == a
    ensures |s| <= Capacity(maxSize) ==> |r| <= Capacity(maxSize)
    ensures |s| < maxSize ==> r[1..] == s
  {
    [a] + (if |s| >= maxSize then Skip(Reverse(s), 1) else s)
  }

  /** Reversing a prefix one element further puts that element in front. */
  lemma ReversePrefixStep(s: seq<string>, i: int)
    requires 0 <= i < |s|
    ensures Reverse(s[..i + 1]) == [s[i]] + Reverse(s[..i])
  {
    var l, r := Reverse(s[..i + 1]), [s[i]] + Reverse(s[..i]);
    assert |l| == |r|;
    forall k | 0 <= k < |l| ensures l[k] == r[k] {
      if k > 0 {
        assert l[k] == s[..i + 1][i - k];
        assert r[k] == Reverse(s[..i])[k - 1] == s[..i][i - k];
      }
    }
  }

  /** At the bound the oldest entry is dropped and the others are kept, in reverse order. */
  lemma PushedAtBound(s: seq<string>, maxSize: int, a: string)
    requires 0 < |s| && |s| >= maxSize
    ensures Pushed(s, maxSize, a) == [a] + Reverse(s[..|s| - 1])
    ensures multiset(Pushed(s, maxSize, a)) == multiset(s) - multiset{s[|s| - 1]} + multiset{a}
  {
    var t := Skip(Reverse(s), 1);
    var u := Reverse(s[..|s| - 1]);
    assert |t| == |u|;
    forall k | 0 <= k < |t| ensures t[k] == u[k] {
      assert t[k] == Reverse(s)[k + 1] == s[|s| - 2 - k];
    }
    assert s == s[..|s| - 1] + [s[|s| - 1]];
    ReverseMultiset(s[..|s| - 1]);
  }

  /** Reversal keeps the entries. */
  lemma {:induction false} ReverseMultiset(s: seq<string>)
    ensures multiset(Reverse(s)) == multiset(s)
  {
    if s != [] {
      ReverseMultiset(s[1..]);
      assert s == [s[0]] + s[1..];
    }
  }

  /** Four pushes onto a stack bounded by three: the third push fills it, and the fourth drops
      "a" and re-pushes "b" and "c" newest first, leaving "b" above "c". */
  lemma PushedExample()
    ensures Pushed(Pushed(Pushed(Pushed([], 3, "a"), 3, "b"), 3, "c"), 3, "d") == ["d", "b", "c"]
  {
    var s := Pushed(Pushed(Pushed([], 3, "a"), 3, "b"), 3, "c");
    assert s == ["c", "b", "a"];
    assert Reverse(s) == ["a", "b", "c"];
    assert Skip(Reverse(s), 1) == ["b", "c"];
  }

  class ActivityStack {
    /** The entries, top first. */
    var items: seq<string>
    const maxSize: int

    ghost predicate Valid()
      reads this
    {
      |items| <= Capacity(maxSize)
    }

    /** The source's default bound is 50. */
    constructor (maxSize: int)
      ensures Valid() && items == [] && this.maxSize == maxSize
    {
      this.maxSize := maxSize;
      items := [];
    }

    /** `Count`. */
    function Count(): (n: nat)
      reads this
      ensures n == |items|
    {
      |items|
    }

    /** `Push`: when full, clears the stack and pushes back every entry but the oldest, taken
        newest first; then pushes the new entry. */
    method Push(activity: string)
      requires Valid()
      modifies this
      ensures Valid()
      ensures items == Pushed(old(items), maxSize, activity)
    {
      ghost var before := items;
      if |items| >= maxSize {
        var survivors := Reverse(Skip(Reverse(items), 1));
        items := [];
        var i := 0;
        while i < |survivors|
          invariant 0 <= i <= |survivors|
          invariant items == Reverse(survivors[..i])
        {
          ReversePrefixStep(survivors, i);
          items := [survivors[i]] + items;
          i := i + 1;
        }
        assert i == |survivors|;
        assert survivors[..i] == survivors;
        ReverseReverse(Skip(Reverse(before), 1));
      }
      items := [activity] + items;
    }

    /** `Pop`: removes and returns the top entry; none on an empty stack. */
    method Pop() returns (r: Option<string>)
      requires Valid()
      modifies this
      ensures Valid()
      ensures r.None? <==> old(items) == []
      ensures r.None? ==> items == old(items)
      ensures r.Some? ==> r.value == old(items[0]) && items == old(items[1..])
    {
      if |items| > 0 {
        r := Some(items[0]);
        items := items[1..];
      } else {
        r := None;
      }
    }

    /** `Peek`: the top entry; none on an empty stack. */
    function Peek(): (r: Option<string>)
      reads this
      ensures r.None? <==> items == []
      ensures r.Some? ==> r.value == items[0]
    {
      if |items| > 0 then Some(items[0]) else None
    }

    /** `GetRecent`: the `count` most recent entries, newest first. */
    function GetRecent(count: int): (r: seq<string>)
      reads this
      ensures |r| == if count <= 0 then 0 else if count < |items| then count else |items|
      ensures forall k :: 0 <= k < |r| ==> r[k] == items[k]
    {
      Take(items, count)
    }
  }
}
