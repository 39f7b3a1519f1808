/** The engagement points a citizen earns for reporting an issue (`CalculatePointsForIssue` of the
    home controller). */
module Points {
  import opened Domain
  import opened Text
  import Gamification

  /** The bonus for the issue's category: most for public safety, then water and electricity. */
  function CategoryBonus(c: IssueCategory): (bonus: int)
    ensures bonus == 15 <==> c == PublicSafety
    ensures bonus == 10 <==> c == WaterAndSanitation || c == ElectricityAndPower
    ensures bonus == 5 <==> c != PublicSafety && c != WaterAndSanitation && c != ElectricityAndPower
  {
    match c
    case PublicSafety => 15
    case WaterAndSanitation => 10
    case ElectricityAndPower => 10
    case _ => 5
  }

  /** `CalculatePointsForIssue`: 20 base points, five per step of the priority's value, and the
      category bonus. */
  function CalculatePointsForIssue(issue: Issue): (points: int)
    ensures 30 <= points <= 55
    ensures points % 5 == 0
  {
    20 + Ordinal(issue.priority) * 5 + CategoryBonus(issue.category)
  }

  /** For one category, a more urgent issue earns strictly more points. */
  lemma PointsIncreaseWithPriority(a: Issue, b: Issue)
    requires a.category == b.category && Ordinal(a.priority) < Ordinal(b.priority)
    ensures CalculatePointsForIssue(a) < CalculatePointsForIssue(b)
  {
  }

  /** The points and the category together give back the priority. */
  lemma PointsDeterminePriority(a: Issue, b: Issue)
    requires a.category == b.category && CalculatePointsForIssue(a) == CalculatePointsForIssue(b)
    ensures a.priority == b.priority
  {
  }

  /** The extremes: a low-priority issue outside the bonus categories earns 30, a critical
      public-safety issue 55. */
  lemma PointsExtremes(a: Issue, b: Issue)
    requires a.priority == Low && a.category == Other
    requires b.priority == Critical && b.category == PublicSafety
    ensures CalculatePointsForIssue(a) == 30 && CalculatePointsForIssue(b) == 55
  {
  }

  /** Any text contains itself. */
  lemma ContainsItself(s: string)
    ensures Contains(s, s)
  {
    assert OccursAt(s, s, 0);
  }

  /** Reporting an issue, as the controller does it, credits the issue's points and counts one
      more reported issue (and no resolved one). */
  lemma ReportIssueProgress(e: Gamification.UserEngagement, issue: Issue, now: int)
    ensures
      var after := Gamification.Progressed(e, CalculatePointsForIssue(issue), "issue reported", now);
      && after.points == e.points + CalculatePointsForIssue(issue)
      && after.issuesReported == e.issuesReported + 1
      && after.issuesResolved == e.issuesResolved
  {
    ContainsItself("issue reported");
  }
}
