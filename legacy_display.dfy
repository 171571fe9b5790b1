/** The older top-level display class (`src/graded_commit_display.ts`). Its
    constructor only stores the commit and the verdict: nothing is
    reconciled. Its card shows `5 - |violations|` with no floor, and it reads
    the verdict's hash from a property the older graded-commit record does
    not have. */
module LegacyDisplay {
  import opened Wrappers
  import opened Text
  import opened Models
  import opened RuleCatalog
  import opened HtmlEscape
  import opened Display

  /** The older commit record: its url may be undefined. */
  datatype LegacyCommit = LegacyCommit(commit: string, header: string, body: string, url: Option<string>)

  /** The older graded-commit record: the graded hash is stored under
      `commit`, not `commitHash`. */
  datatype LegacyGraded = LegacyGraded(
    commit: string,
    violations: seq<Violation>,
    suggestion: Option<string>,
    bodySuggestion: Option<string>)

  /** The display object. Its constructor stores both arguments as given. */
  datatype LegacyGradedCommitDisplay = LegacyGradedCommitDisplay(commit: LegacyCommit, gradedCommit: LegacyGraded)

  /** The grade the card shows: `5 - violations.length`, not floored. */
  function DisplayedGrade(violations: seq<Violation>): int {
    5 - |violations|
  }

  /** The shown grade agrees with the floored grade up to five violations;
      from six on it is negative and coloured grey. */
  lemma DisplayedGradeVsGrade(violations: seq<Violation>)
    ensures |violations| <= 5 ==> DisplayedGrade(violations) == GradeOf(violations)
    ensures |violations| > 5 ==> DisplayedGrade(violations) < 0 && GradeOf(violations) == 0
    ensures GradeColor(DisplayedGrade(violations)) == "gray" <==> |violations| > 5
  {
  }

  /** A string-valued property read on the older graded-commit record:
      properties it does not declare read as `undefined`. */
  function Property(g: LegacyGraded, name: string): (v: Option<string>)
    ensures name == "commit" ==> v == Some(g.commit)
    ensures name == "suggestion" ==> v == g.suggestion
    ensures name == "bodySuggestion" ==> v == g.bodySuggestion
    ensures name !in {"commit", "suggestion", "bodySuggestion"} ==> v == None
  {
    if name == "commit" then Some(g.commit)
    else if name == "suggestion" then g.suggestion
    else if name == "bodySuggestion" then g.bodySuggestion
    else None
  }

  /** What `escapeHTML` does with its argument: a string is escaped, while
      `input.replace` on `undefined` throws a `TypeError`. */
  function EscapeArgument(v: Option<string>): (r: Result<Fragment, string>)
    ensures r.Success? <==> v.Some?
    ensures v.Some? ==> Unescape(Render(r.value), Padded) == v.value
  {
    if v.None? then Failure("TypeError")
    else
      UnescapeEscape(v.value, Padded);
      Success(Escaped(v.value))
  }

  /** `getHTML` as written: the hash is read from `commitHash`. */
  function GetHtmlAsWritten(d: LegacyGradedCommitDisplay): Result<Card, string> {
    match EscapeArgument(Property(d.gradedCommit, "commitHash"))
    case Failure(e) => Failure(e)
    case Success(hash) => Success(GetHtml(d).(hash := hash))
  }

  /** As written, `getHTML` throws for every display. */
  lemma GetHtmlAsWrittenThrows(d: LegacyGradedCommitDisplay)
    ensures GetHtmlAsWritten(d) == Failure("TypeError")
  {
  }

  /** The card of a display whose violations are named from `catalog`, with
      the hash read from `commit`, the property the record has. */
  function CardOf(d: LegacyGradedCommitDisplay, catalog: map<int, Rule>): Card {
    var g := d.gradedCommit;
    MakeCard(d.commit.url, d.commit.header, d.commit.body, g.commit, DisplayedGrade(g.violations),
             g.violations, g.suggestion, g.bodySuggestion, catalog)
  }

  /** `getHTML` with the hash read from `commit`. */
  function GetHtml(d: LegacyGradedCommitDisplay): Card {
    CardOf(d, LegacyRules)
  }

  /** The corrected card shows the graded hash, escaped, and it decodes
      back to that hash. */
  lemma CardOfHash(d: LegacyGradedCommitDisplay, catalog: map<int, Rule>)
    ensures CardOf(d, catalog).hash == Escaped(d.gradedCommit.commit)
    ensures Unescape(Render(CardOf(d, catalog).hash), Padded) == d.gradedCommit.commit
  {
    UnescapeEscape(d.gradedCommit.commit, Padded);
  }

  /** The card shows the unfloored grade; its colour is grey exactly when
      there are more than five violations. */
  lemma CardOfGrade(d: LegacyGradedCommitDisplay, catalog: map<int, Rule>)
    ensures CardOf(d, catalog).grade == DisplayedGrade(d.gradedCommit.violations)
    ensures CardOf(d, catalog).gradeColor == "gray" <==> |d.gradedCommit.violations| > 5
  {
    DisplayedGradeVsGrade(d.gradedCommit.violations);
  }

  /** The card is wrapped in a link exactly when the commit's url is
      defined; an empty url links to "#". */
  lemma CardOfLink(d: LegacyGradedCommitDisplay, catalog: map<int, Rule>)
    ensures CardOf(d, catalog).linkHref.Some? <==> d.commit.url.Some?
    ensures d.commit.url == Some("") ==> CardOf(d, catalog).linkHref == Some("#")
  {
  }

  /** Nothing is reconciled: a commit whose header is over 72 characters
      and for which no violation was reported is shown with grade 5 and an
      empty violation list, where the newer display would add rule 1. */
  lemma LegacyShowsUnreconciled(c: LegacyCommit, g: LegacyGraded)
    requires |c.header| > 72 && g.violations == []
    ensures var card := CardOf(LegacyGradedCommitDisplay(c, g), LegacyRules);
      card.grade == 5 && card.lines == [] && card.gradeColor == "purple"
  {
  }
}
