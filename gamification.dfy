/** `GamificationService`: engagement points, levels and badges per user, and the activity log
    that records what they earned. */
module Gamification {
  import opened Text
  import Activity

  datatype BadgeType =
    FirstReport | CommunityHelper | ProblemSolver | CivicChampion | PowerUser | SafetyAdvocate
    | EnvironmentalGuardian

  /** A badge; `earnedAt` is a time in seconds. */
  datatype Badge = Badge(
    id: int,
    name: string,
    description: string,
    iconClass: string,
    badgeType: BadgeType,
    pointsRequired: int,
    earnedAt: int,
    isUnlocked: bool)

  /** A user's engagement record; `lastActivity` is a time in seconds. */
  datatype UserEngagement = UserEngagement(
    id: int,
    userId: string,
    points: int,
    level: int,
    badges: seq<Badge>,
    lastActivity: int,
    issuesReported: int,
    issuesResolved: int,
    isActive: bool)

  /** The bound of the service's activity log. */
  const LogSize: int := 100

  // ----- Levels -----

  /** The point totals at which a user moves up a level. */
  const Thresholds: seq<int> := [50, 150, 300, 500, 750, 1000]

  /** `CalculateLevel`: level 1 below 50 points, one more for every threshold reached, up to 7. */
  function CalculateLevel(points: int): (level: int)
    ensures 1 <= level <= 7
    ensures level == 1 <==> points < 50
    ensures level == 7 <==> points >= 1000
  {
    if points < 50 then 1
    else if points < 150 then 2
    else if points < 300 then 3
    else if points < 500 then 4
    else if points < 750 then 5
    else if points < 1000 then 6
    else 7
  }

  /** The level passes `k + 1` exactly when the `k`-th threshold is reached. */
  lemma LevelThresholds(points: int, k: int)
    requires 0 <= k < |Thresholds|
    ensures CalculateLevel(points) >= k + 2 <==> points >= Thresholds[k]
  {
  }

  /** More points never mean a lower level. */
  lemma LevelMonotone(p: int, q: int)
    requires p <= q
    ensures CalculateLevel(p) <= CalculateLevel(q)
  {
  }

  // ----- Badges -----

  /** The badge types present in `badges`. */
  function TypesOf(badges: seq<Badge>): (types: set<BadgeType>)
    ensures forall i :: 0 <= i < |badges| ==> badges[i].badgeType in types
  {
    if badges == [] then {}
    else TypesOf(badges[..|badges| - 1]) + {badges[|badges| - 1].badgeType}
  }

  /** Every type present is the type of some badge. */
  lemma {:induction false} TypesOfWitness(badges: seq<Badge>, t: BadgeType)
    requires t in TypesOf(badges)
    ensures exists i :: 0 <= i < |badges| && badges[i].badgeType == t
  {
    var n := |badges| - 1;
    if t != badges[n].badgeType {
      TypesOfWitness(badges[..n], t);
      var i :| 0 <= i < n && badges[..n][i].badgeType == t;
      assert badges[i] == badges[..n][i];
    }
  }

  /** Appending a badge adds its type. */
  lemma TypesOfAppend(badges: seq<Badge>, b: Badge)
    ensures TypesOf(badges + [b]) == TypesOf(badges) + {b.badgeType}
  {
    assert (badges + [b])[..|badges|] == badges;
  }

  /** No badge type appears twice. */
  ghost predicate DistinctTypes(badges: seq<Badge>)
  {
    forall i, j :: 0 <= i < j < |badges| ==> badges[i].badgeType != badges[j].badgeType
  }

  /** The value of each badge type in the source's enumeration. */
  function TypeOrdinal(t: BadgeType): (n: int)
    ensures 0 <= n < 7
  {
    match t
    case FirstReport => 0
    case CommunityHelper => 1
    case ProblemSolver => 2
    case CivicChampion => 3
    case PowerUser => 4
    case SafetyAdvocate => 5
    case EnvironmentalGuardian => 6
  }

  /** The badge catalogue, as `InitializeBadges` builds it. */
  function InitializeBadges(): (badges: seq<Badge>)
    ensures |badges| == 7
    ensures forall i :: 0 <= i < |badges| ==>
              badges[i].id == i + 1 && TypeOrdinal(badges[i].badgeType) == i && !badges[i].isUnlocked
  {
    [
      Badge(1, "First Reporter", "Submitted your first issue report", "fas fa-star",
            FirstReport, 0, 0, false),
      Badge(2, "Community Helper", "Reported 5 community issues", "fas fa-hands-helping",
            CommunityHelper, 100, 0, false),
      Badge(3, "Problem Solver", "Reported 10 issues to help improve the community", "fas fa-lightbulb",
            ProblemSolver, 200, 0, false),
      Badge(4, "Civic Champion", "Reported 25 issues - you're a true civic champion!", "fas fa-trophy",
            CivicChampion, 500, 0, false),
      Badge(5, "Power User", "Earned 500+ engagement points", "fas fa-bolt",
            PowerUser, 500, 0, false),
      Badge(6, "Safety Advocate", "Dedicated to improving community safety", "fas fa-shield-alt",
            SafetyAdvocate, 300, 0, false),
      Badge(7, "Environmental Guardian", "Protecting our environment through active reporting", "fas fa-leaf",
            EnvironmentalGuardian, 400, 0, false)
    ]
  }

  /** The catalogue holds each badge type exactly once. */
  lemma CatalogueTypes()
    ensures DistinctTypes(InitializeBadges())
    ensures forall t: BadgeType :: InitializeBadges()[TypeOrdinal(t)].badgeType == t
  {
  }

  /** The rule of `CheckForNewBadgesAsync` for badge type `t`. */
  predicate ShouldEarn(t: BadgeType, e: UserEngagement)
  {
    match t
    case FirstReport => e.issuesReported >= 1
    case CommunityHelper => e.issuesReported >= 5
    case ProblemSolver => e.issuesReported >= 10
    case CivicChampion => e.issuesReported >= 25
    case PowerUser => e.points >= 500
    case SafetyAdvocate => e.issuesReported >= 15 && e.points >= 300
    case EnvironmentalGuardian => e.issuesReported >= 20 && e.points >= 400
  }

  /** A user who has reported at least as much and holds at least as many points earns every
      badge the other earns. */
  lemma ShouldEarnMonotone(t: BadgeType, e1: UserEngagement, e2: UserEngagement)
    requires e1.issuesReported <= e2.issuesReported && e1.points <= e2.points
    ensures ShouldEarn(t, e1) ==> ShouldEarn(t, e2)
  {
  }

  /** The copy of a catalogue badge handed to a user at time `now`. */
  function Unlock(b: Badge, now: int): (u: Badge)
    ensures u.badgeType == b.badgeType && u.id == b.id && u.name == b.name
    ensures u.isUnlocked && u.earnedAt == now
  {
    b.(earnedAt := now, isUnlocked := true)
  }

  /** What `CheckForNewBadgesAsync` returns: in catalogue order, an unlocked copy of every
      badge whose type `e` does not hold yet and whose rule `e` meets. */
  function NewBadges(available: seq<Badge>, e: UserEngagement, now: int): (r: seq<Badge>)
    ensures |r| <= |available|
    ensures forall i :: 0 <= i < |r| ==>
              r[i].badgeType !in TypesOf(e.badges) && ShouldEarn(r[i].badgeType, e)
              && r[i].isUnlocked && r[i].earnedAt == now
  {
    if available == [] then []
    else
      var rest := NewBadges(available[..|available| - 1], e, now);
      var b := available[|available| - 1];
      if b.badgeType !in TypesOf(e.badges) && ShouldEarn(b.badgeType, e) then rest + [Unlock(b, now)]
      else rest
  }

  /** Every badge handed out is a copy of a catalogue badge. */
  lemma {:induction false} NewBadgesFromCatalogue(available: seq<Badge>, e: UserEngagement, now: int, i: int)
    requires 0 <= i < |NewBadges(available, e, now)|
    ensures exists j :: 0 <= j < |available| && NewBadges(available, e, now)[i] == Unlock(available[j], now)
  {
    var n := |available| - 1;
    var rest := NewBadges(available[..n], e, now);
    if i < |rest| {
      NewBadgesFromCatalogue(available[..n], e, now, i);
      var j :| 0 <= j < n && rest[i] == Unlock(available[..n][j], now);
      assert available[..n][j] == available[j];
    } else {
      assert NewBadges(available, e, now)[i] == Unlock(available[n], now);
    }
  }

  /** Every catalogue badge whose type is missing and whose rule holds is handed out. */
  lemma {:induction false} NewBadgesComplete(available: seq<Badge>, e: UserEngagement, now: int, j: int)
    requires 0 <= j < |available|
    requires available[j].badgeType !in TypesOf(e.badges) && ShouldEarn(available[j].badgeType, e)
    ensures Unlock(available[j], now) in NewBadges(available, e, now)
  {
    var n := |available| - 1;
    if j < n {
      assert available[..n][j] == available[j];
      NewBadgesComplete(available[..n], e, now, j);
    }
  }

  /** A catalogue without repeated types hands out no repeated types. */
  lemma {:induction false} NewBadgesDistinct(available: seq<Badge>, e: UserEngagement, now: int)
    requires DistinctTypes(available)
    ensures DistinctTypes(NewBadges(available, e, now))
  {
    if available != [] {
      var n := |available| - 1;
      var rest := NewBadges(available[..n], e, now);
      NewBadgesDistinct(available[..n], e, now);
      forall i | 0 <= i < |rest| ensures rest[i].badgeType != available[n].badgeType {
        NewBadgesFromCatalogue(available[..n], e, now, i);
      }
    }
  }

  /** The badges and the log after the award loop of `UpdateUserEngagementAsync` has gone over
      `newBadges`: each badge whose type is not held yet is added, unlocked at `now`, and a
      "Badge earned" entry is pushed. */
  function Award(owned: seq<Badge>, log: seq<string>, newBadges: seq<Badge>, now: int)
    : (r: (seq<Badge>, seq<string>))
    decreases |newBadges|
  {
    if newBadges == [] then (owned, log)
    else
      var before := Award(owned, log, newBadges[..|newBadges| - 1], now);
      var b := newBadges[|newBadges| - 1];
      if b.badgeType in TypesOf(before.0) then before
      else (before.0 + [Unlock(b, now)], Activity.Pushed(before.1, LogSize, "Badge earned: " + b.name))
  }

  /** The last badge of `newBadges` is awarded after the others, unless its type is held by then. */
  lemma AwardStep(owned: seq<Badge>, log: seq<string>, newBadges: seq<Badge>, now: int)
    requires newBadges != []
    ensures var before := Award(owned, log, newBadges[..|newBadges| - 1], now);
            var b := newBadges[|newBadges| - 1];
            Award(owned, log, newBadges, now)
              == if b.badgeType in TypesOf(before.0) then before
                 else (before.0 + [Unlock(b, now)], Activity.Pushed(before.1, LogSize, "Badge earned: " + b.name))
  {
  }

  /** The award loop keeps the badges already held, in front, and keeps types distinct. */
  lemma {:induction false} AwardDistinct(owned: seq<Badge>, log: seq<string>, newBadges: seq<Badge>, now: int)
    requires DistinctTypes(owned)
    ensures DistinctTypes(Award(owned, log, newBadges, now).0)
    ensures |owned| <= |Award(owned, log, newBadges, now).0|
    ensures Award(owned, log, newBadges, now).0[..|owned|] == owned
    decreases |newBadges|
  {
    if newBadges != [] {
      var before := Award(owned, log, newBadges[..|newBadges| - 1], now).0;
      AwardDistinct(owned, log, newBadges[..|newBadges| - 1], now);
      var b := newBadges[|newBadges| - 1];
      if b.badgeType !in TypesOf(before) {
        assert (before + [Unlock(b, now)])[..|owned|] == before[..|owned|];
      }
    }
  }

  /** After the award loop the user holds exactly the types held before plus those handed out. */
  lemma {:induction false} AwardTypes(owned: seq<Badge>, log: seq<string>, newBadges: seq<Badge>, now: int)
    ensures TypesOf(Award(owned, log, newBadges, now).0) == TypesOf(owned) + TypesOf(newBadges)
    decreases |newBadges|
  {
    if newBadges != [] {
      var init := newBadges[..|newBadges| - 1];
      var b := newBadges[|newBadges| - 1];
      AwardTypes(owned, log, init, now);
      assert newBadges == init + [b];
      TypesOfAppend(init, b);
      TypesOfAppend(Award(owned, log, init, now).0, Unlock(b, now));
    }
  }

  /** Everything about an update but the badges: points added, the level recomputed, and at
      most one activity counter moved, chosen by the activity text. */
  function Progressed(e: UserEngagement, pointsEarned: int, activity: string, now: int): (r: UserEngagement)
    ensures r.id == e.id && r.userId == e.userId && r.badges == e.badges && r.isActive == e.isActive
    ensures r.points == e.points + pointsEarned && r.level == CalculateLevel(r.points)
    ensures r.lastActivity == now
    ensures r.issuesReported == e.issuesReported + 1 <==> Contains(activity, "issue reported")
    ensures r.issuesResolved == e.issuesResolved + 1 <==>
              !Contains(activity, "issue reported") && Contains(activity, "issue resolved")
    ensures r.issuesReported == e.issuesReported || r.issuesResolved == e.issuesResolved
    ensures e.issuesReported <= r.issuesReported && e.issuesResolved <= r.issuesResolved
  {
    var points := e.points + pointsEarned;
    var counted :=
      if Contains(activity, "issue reported") then e.(issuesReported := e.issuesReported + 1)
      else if Contains(activity, "issue resolved") then e.(issuesResolved := e.issuesResolved + 1)
      else e;
    counted.(points := points, lastActivity := now, level := CalculateLevel(points))
  }

  /** The log entry `UpdateUserEngagementAsync` pushes last: the user and the activity, each at a
      fixed place, then the points earned. */
  function ActivityEntry(userId: string, activity: string, pointsEarned: int): (s: string)
    ensures |s| > |userId| + |activity| + 16
    ensures s[..5] == "User " && s[5..5 + |userId|] == userId && s[5 + |userId|..7 + |userId|] == ": "
    ensures s[7 + |userId|..7 + |userId| + |activity|] == activity
    ensures s[7 + |userId| + |activity|..10 + |userId| + |activity|] == " (+"
    ensures s[|s| - 8..] == " points)"
  {
    var head := "User " + userId + ": " + activity + " (+";
    var tail := IntToString(pointsEarned) + " points)";
    SplitAt(head, tail);
    SplitAt("User " + userId + ": " + activity, " (+");
    SplitAt("User " + userId + ": ", activity);
    SplitAt("User " + userId, ": ");
    SplitAt("User ", userId);
    SplitAt(IntToString(pointsEarned), " points)");
    head + tail
  }

  /** A concatenation splits back into its two parts. */
  lemma SplitAt(x: string, y: string)
    ensures (x + y)[..|x|] == x && (x + y)[|x|..] == y
  {
  }

  // ----- The engagement registry -----

  /** The record `GetUserEngagementAsync` creates for an unknown user. */
  function NewEngagement(id: int, userId: string, now: int): (e: UserEngagement)
    ensures e.id == id && e.userId == userId && e.points == 0 && e.level == 1 && e.badges == []
    ensures e.issuesReported == 0 && e.issuesResolved == 0 && e.isActive
  {
    UserEngagement(id, userId, 0, 1, [], now, 0, 0, true)
  }

  /** The registry after looking up `userId`: unchanged when the user is known, otherwise with a
      new record numbered one past the current count. */
  function Registered(m: map<string, UserEngagement>, userId: string, now: int)
    : (r: map<string, UserEngagement>)
    ensures userId in r && r.Keys == m.Keys + {userId}
    ensures forall u :: u in m ==> r[u] == m[u]
    ensures userId !in m ==> r[userId] == NewEngagement(|m| + 1, userId, now)
  {
    if userId in m then m else m[userId := NewEngagement(|m| + 1, userId, now)]
  }

  /** A second lookup changes nothing, whatever the time. */
  lemma RegisteredIdempotent(m: map<string, UserEngagement>, userId: string, now: int, later: int)
    ensures Registered(Registered(m, userId, now), userId, later) == Registered(m, userId, now)
  {
  }

  /** The registry invariant: each record is filed under its own user, the record numbers are
      distinct and run from 1 to the number of users, no record holds a badge type twice, and
      each level matches its points. */
  ghost predicate Registry(m: map<string, UserEngagement>)
  {
    && (forall u :: u in m ==> m[u].userId == u && 1 <= m[u].id <= |m|)
    && (forall u, v :: u in m && v in m && m[u].id == m[v].id ==> u == v)
    && (forall u :: u in m ==> DistinctTypes(m[u].badges) && m[u].level == CalculateLevel(m[u].points))
  }

  /** Looking a user up keeps the registry invariant. */
  lemma RegisteredRegistry(m: map<string, UserEngagement>, userId: string, now: int)
    requires Registry(m)
    ensures Registry(Registered(m, userId, now))
  {
    if userId !in m {
      assert |Registered(m, userId, now)| == |m| + 1;
    }
  }

  /** Replacing a record by one with the same number and owner, distinct badge types and a
      matching level keeps the registry invariant. */
  lemma ReplacedRegistry(m: map<string, UserEngagement>, userId: string, e: UserEngagement)
    requires Registry(m) && userId in m
    requires e.id == m[userId].id && e.userId == userId
    requires DistinctTypes(e.badges) && e.level == CalculateLevel(e.points)
    ensures Registry(m[userId := e])
  {
    assert |m[userId := e]| == |m|;
  }

  class GamificationService {
    var userEngagements: map<string, UserEngagement>
    const availableBadges: seq<Badge>
    const userActivityLog: Activity.ActivityStack

    ghost predicate Valid()
      reads this, userActivityLog
    {
      && Registry(userEngagements)
      && availableBadges == InitializeBadges()
      && userActivityLog.Valid() && userActivityLog.maxSize == LogSize
    }

    /** No users yet, the catalogue, and an empty log bounded at 100 entries. */
    constructor ()
      ensures Valid() && userEngagements == map[] && userActivityLog.items == []
      ensures fresh(userActivityLog)
    {
      userEngagements := map[];
      userActivityLog := new Activity.ActivityStack(LogSize);
      availableBadges := InitializeBadges();
    }

    /** `GetUserEngagementAsync` at time `now`. */
    method GetUserEngagement(userId: string, now: int) returns (engagement: UserEngagement)
      requires Valid()
      modifies this
      ensures Valid()
      ensures userEngagements == Registered(old(userEngagements), userId, now)
      ensures engagement == userEngagements[userId]
    {
      RegisteredRegistry(userEngagements, userId, now);
      if userId !in userEngagements {
        userEngagements := userEngagements[userId := NewEngagement(|userEngagements| + 1, userId, now)];
      }
      engagement := userEngagements[userId];
    }

    /** `CheckForNewBadgesAsync` at time `now`: the catalogue in order, keeping an unlocked copy
        of each badge `e` lacks and has earned. */
    method CheckForNewBadges(e: UserEngagement, now: int) returns (newBadges: seq<Badge>)
      ensures newBadges == NewBadges(availableBadges, e, now)
    {
      newBadges := [];
      var i := 0;
      while i < |availableBadges|
        invariant 0 <= i <= |availableBadges|
        invariant newBadges == NewBadges(availableBadges[..i], e, now)
      {
        var badge := availableBadges[i];
        assert availableBadges[..i + 1][..i] == availableBadges[..i];
        if badge.badgeType !in TypesOf(e.badges) && ShouldEarn(badge.badgeType, e) {
          newBadges := newBadges + [Unlock(badge, now)];
        }
        i := i + 1;
      }
      assert i == |availableBadges|;
      assert availableBadges[..i] == availableBadges;
    }

    /** The award loop of `UpdateUserEngagementAsync`. */
    method AwardBadges(owned: seq<Badge>, newBadges: seq<Badge>, now: int) returns (badges: seq<Badge>)
      requires userActivityLog.Valid() && userActivityLog.maxSize == LogSize
      modifies userActivityLog
      ensures userActivityLog.Valid() && userActivityLog.maxSize == LogSize
      ensures (badges, userActivityLog.items) == Award(owned, old(userActivityLog.items), newBadges, now)
    {
      ghost var log0 := userActivityLog.items;
      badges := owned;
      var i := 0;
      while i < |newBadges|
        invariant 0 <= i <= |newBadges|
        invariant userActivityLog.Valid() && userActivityLog.maxSize == LogSize
        invariant (badges, userActivityLog.items) == Award(owned, log0, newBadges[..i], now)
      {
        var badge := newBadges[i];
        assert newBadges[..i + 1][..i] == newBadges[..i];
        AwardStep(owned, log0, newBadges[..i + 1], now);
        if badge.badgeType !in TypesOf(badges) {
          badges := badges + [Unlock(badge, now)];
          userActivityLog.Push("Badge earned: " + badge.name);
        }
        i := i + 1;
      }
      assert i == |newBadges|;
      assert newBadges[..i] == newBadges;
    }

    /** `UpdateUserEngagementAsync` at time `now`: looks the user up (creating the record if
        needed), applies `Progressed`, awards the badges `CheckForNewBadgesAsync` finds for the
        progressed record, logs the activity and files the record. */
    method UpdateUserEngagement(userId: string, pointsEarned: int, activity: string, now: int)
      returns (engagement: UserEngagement)
      requires Valid()
      modifies this, userActivityLog
      ensures Valid()
      ensures
        var before := Registered(old(userEngagements), userId, now);
        var progressed := Progressed(before[userId], pointsEarned, activity, now);
        var awarded := Award(progressed.badges, old(userActivityLog.items),
                             NewBadges(InitializeBadges(), progressed, now), now);
        && engagement == progressed.(badges := awarded.0)
        && userEngagements == before[userId := engagement]
        && userActivityLog.items == Activity.Pushed(awarded.1, LogSize, ActivityEntry(userId, activity, pointsEarned))
    {
      var current := GetUserEngagement(userId, now);
      var progressed := Progressed(current, pointsEarned, activity, now);
      var newBadges := CheckForNewBadges(progressed, now);
      var badges := AwardBadges(progressed.badges, newBadges, now);
      AwardDistinct(progressed.badges, old(userActivityLog.items), newBadges, now);
      engagement := progressed.(badges := badges);
      userActivityLog.Push(ActivityEntry(userId, activity, pointsEarned));
      ReplacedRegistry(userEngagements, userId, engagement);
      userEngagements := userEngagements[userId := engagement];
    }
  }

  /** After an update the user holds every catalogue badge whose rule the progressed record
      meets, and the badges held before, in front. */
  lemma UpdateEarnsEligible(e: UserEngagement, log: seq<string>, pointsEarned: int, activity: string, now: int)
    requires DistinctTypes(e.badges)
    ensures
      var progressed := Progressed(e, pointsEarned, activity, now);
      var badges := Award(progressed.badges, log, NewBadges(InitializeBadges(), progressed, now), now).0;
      && DistinctTypes(badges)
      && |e.badges| <= |badges| && badges[..|e.badges|] == e.badges
      && forall t :: ShouldEarn(t, progressed) ==> t in TypesOf(badges)
  {
    var progressed := Progressed(e, pointsEarned, activity, now);
    var catalogue := InitializeBadges();
    var handed := NewBadges(catalogue, progressed, now);
    AwardDistinct(progressed.badges, log, handed, now);
    AwardTypes(progressed.badges, log, handed, now);
    CatalogueTypes();
    forall t | ShouldEarn(t, progressed) && t !in TypesOf(progressed.badges)
      ensures t in TypesOf(handed)
    {
      var j := TypeOrdinal(t);
      NewBadgesComplete(catalogue, progressed, now, j);
    }
  }
}
