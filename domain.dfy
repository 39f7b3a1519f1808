/** The service-request record and its enumerations, with the lookups by identifier that the
    indexes and the issue store are specified against. */
module Domain {
  import opened Wrappers

  datatype IssueCategory =
    | WaterAndSanitation | RoadsAndTransport | ElectricityAndPower | WasteManagement
    | PublicSafety | ParksAndRecreation | Housing | BusinessLicensing | Other

  /** Declared with the explicit values Low = 1 .. Critical = 4. */
  datatype IssuePriority = Low | Medium | High | Critical

  datatype IssueStatus = Submitted | InReview | InProgress | Resolved | Closed

  /** The integer value of a priority, which is what the source's `>` compares. */
  function Ordinal(p: IssuePriority): (n: int)
    ensures 1 <= n <= 4
  {
    match p
    case Low => 1
    case Medium => 2
    case High => 3
    case Critical => 4
  }

  /** Timestamps are whole seconds; `SecondsPerDay` converts `TotalDays` comparisons. */
  const SecondsPerDay: int := 86400

  /** `DateTime.Date`: the day a timestamp falls on. */
  function Day(t: int): int
  {
    t / SecondsPerDay
  }

  /** A service request. `Id` is the only key; the remaining fields are payload. */
  datatype Issue = Issue(
    id: int,
    title: string,
    description: string,
    category: IssueCategory,
    location: string,
    priority: IssuePriority,
    status: IssueStatus,
    createdAt: int,
    updatedAt: Option<int>)

  /** The identifiers occurring in `s`. */
  function IdsOf(s: seq<Issue>): (r: set<int>)
    ensures forall i :: 0 <= i < |s| ==> s[i].id in r
    ensures forall k :: k in r ==> exists i :: 0 <= i < |s| && s[i].id == k
  {
    if s == [] then {} else IdsOf(s[..|s| - 1]) + {s[|s| - 1].id}
  }

  /** No identifier occurs twice in `s`. */
  ghost predicate UniqueIds(s: seq<Issue>)
  {
    forall i, j :: 0 <= i < j < |s| ==> s[i].id != s[j].id
  }

  /** The first record of `s` with identifier `id`, if any: the reference meaning of a lookup
      by identifier when later duplicates are ignored. */
  function FirstWithId(s: seq<Issue>, id: int): (r: Option<Issue>)
    ensures r.None? <==> forall i :: 0 <= i < |s| ==> s[i].id != id
    ensures r.Some? ==> exists i :: 0 <= i < |s| && s[i] == r.value && r.value.id == id
                                    && forall j :: 0 <= j < i ==> s[j].id != id
  {
    if s == [] then None
    else if s[0].id == id then Some(s[0])
    else
      var r := FirstWithId(s[1..], id);
      assert forall i :: 1 <= i < |s| ==> s[i] == s[1..][i - 1];
      r
  }

  /** A lookup in `s + [x]` finds the first match of `s`, or else `x` when it has the id. */
  lemma {:induction false} FirstWithIdAppend(s: seq<Issue>, x: Issue, id: int)
    ensures FirstWithId(s + [x], id)
         == if FirstWithId(s, id).Some? then FirstWithId(s, id)
            else if x.id == id then Some(x) else None
  {
    if s != [] {
      assert (s + [x])[1..] == s[1..] + [x];
      FirstWithIdAppend(s[1..], x, id);
    }
  }

  /** `s` with its first record of identifier `id` removed. */
  function RemoveFirst(s: seq<Issue>, id: int): (r: seq<Issue>)
    ensures multiset(r) <= multiset(s)
  {
    if s == [] then []
    else
      assert s == [s[0]] + s[1..];
      if s[0].id == id then s[1..]
      else [s[0]] + RemoveFirst(s[1..], id)
  }

  /** `s` with its first record of identifier `id` replaced by `x`. */
  function ReplaceFirst(s: seq<Issue>, id: int, x: Issue): (r: seq<Issue>)
    ensures |r| == |s|
    ensures forall j :: 0 <= j < |s| ==> r[j] == s[j] || (s[j].id == id && r[j] == x)
  {
    if s == [] then []
    else if s[0].id == id then [x] + s[1..]
    else [s[0]] + ReplaceFirst(s[1..], id, x)
  }

  /** Removing at the first index `k` holding `id` takes out index `k` alone. */
  lemma {:induction false} RemoveFirstAt(s: seq<Issue>, id: int, k: int)
    requires 0 <= k < |s| && s[k].id == id
    requires forall j :: 0 <= j < k ==> s[j].id != id
    ensures RemoveFirst(s, id) == s[..k] + s[k + 1..]
  {
    if k > 0 {
      var t := s[1..];
      RemoveFirstAt(t, id, k - 1);
      assert RemoveFirst(s, id) == [s[0]] + RemoveFirst(t, id);
      assert s[..k] + s[k + 1..] == [s[0]] + (t[..k - 1] + t[k..]);
    } else {
      assert s[..k] + s[k + 1..] == s[1..];
    }
  }

  /** Replacing at the first index `k` holding `id` rewrites index `k` alone. */
  lemma {:induction false} ReplaceFirstAt(s: seq<Issue>, id: int, k: int, x: Issue)
    requires 0 <= k < |s| && s[k].id == id
    requires forall j :: 0 <= j < k ==> s[j].id != id
    ensures ReplaceFirst(s, id, x) == s[..k] + [x] + s[k + 1..]
  {
    if k > 0 {
      var t := s[1..];
      ReplaceFirstAt(t, id, k - 1, x);
      assert ReplaceFirst(s, id, x) == [s[0]] + ReplaceFirst(t, id, x);
      assert s[..k] + [x] + s[k + 1..] == [s[0]] + (t[..k - 1] + [x] + t[k..]);
    } else {
      assert s[..k] + [x] + s[k + 1..] == [x] + s[1..];
    }
  }

  /** Removing or replacing at the first index `k` holding `id` touches only index `k`. */
  lemma FirstAt(s: seq<Issue>, id: int, k: int, x: Issue)
    requires 0 <= k < |s| && s[k].id == id
    requires forall j :: 0 <= j < k ==> s[j].id != id
    ensures RemoveFirst(s, id) == s[..k] + s[k + 1..]
    ensures ReplaceFirst(s, id, x) == s[..k] + [x] + s[k + 1..]
    ensures FirstWithId(s, id) == Some(s[k])
  {
    RemoveFirstAt(s, id, k);
    ReplaceFirstAt(s, id, k, x);
  }

  /** Removing a record keeps the identifiers distinct. */
  lemma {:induction false} RemoveFirstUnique(s: seq<Issue>, id: int)
    requires UniqueIds(s)
    ensures UniqueIds(RemoveFirst(s, id))
  {
    if s != [] && s[0].id != id {
      RemoveFirstUnique(s[1..], id);
      var rest := RemoveFirst(s[1..], id);
      forall j | 0 <= j < |rest| ensures rest[j].id != s[0].id {
        assert rest[j] in multiset(s[1..]);
      }
    }
  }

  /** Replacing a record by one with the same identifier keeps the identifiers. */
  lemma ReplaceFirstIds(s: seq<Issue>, id: int, x: Issue)
    requires x.id == id
    ensures forall j :: 0 <= j < |s| ==> ReplaceFirst(s, id, x)[j].id == s[j].id
    ensures UniqueIds(s) ==> UniqueIds(ReplaceFirst(s, id, x))
  {
  }

  /** With distinct identifiers, replacing rewrites exactly the record holding `id`. */
  lemma {:induction false} ReplaceFirstUnique(s: seq<Issue>, id: int, x: Issue)
    requires UniqueIds(s)
    ensures forall k :: 0 <= k < |s| ==> ReplaceFirst(s, id, x)[k] == if s[k].id == id then x else s[k]
  {
    if s != [] && s[0].id != id {
      ReplaceFirstUnique(s[1..], id, x);
      assert ReplaceFirst(s, id, x) == [s[0]] + ReplaceFirst(s[1..], id, x);
    }
  }

  /** Removing an identifier that does not occur changes nothing. */
  lemma {:induction false} RemoveAbsent(s: seq<Issue>, id: int)
    requires forall j :: 0 <= j < |s| ==> s[j].id != id
    ensures RemoveFirst(s, id) == s
  {
    if s != [] {
      RemoveAbsent(s[1..], id);
    }
  }

  /** Replacing an identifier that does not occur changes nothing. */
  lemma {:induction false} ReplaceAbsent(s: seq<Issue>, id: int, x: Issue)
    requires forall j :: 0 <= j < |s| ==> s[j].id != id
    ensures ReplaceFirst(s, id, x) == s
  {
    if s != [] {
      ReplaceAbsent(s[1..], id, x);
    }
  }
}
