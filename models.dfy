/** The records the analysis passes around: a fetched commit, one rule
    violation, and the AI's graded verdict on one commit with its derived
    0-5 grade. */
module Models {
  import opened Wrappers

  /** One reported breach of a numbered rule (`{ rule: number }`). */
  datatype Violation = Violation(rule: int)

  /** A commit as fetched from the hosting service, or as rebuilt from JSON
      by a tree provider, where a missing `url` arrives as `undefined`. Its
      fields are never changed by reconciliation; the prompt builder rewrites
      `header`. */
  datatype Commit = Commit(
    commitHash: string,
    header: string,
    body: string,
    url: Option<string>,
    authorName: string,
    branch: string,
    repoHasOpenTasks: bool,
    referencedTasks: seq<string>)

  /** The value held by a graded commit: the hash it grades, the violations
      in their stored order (duplicates allowed), and the optional header and
      body suggestions. */
  datatype Graded = Graded(
    commitHash: string,
    violations: seq<Violation>,
    suggestion: Option<string>,
    bodySuggestion: Option<string>)

  function Max(x: int, y: int): int {
    if x < y then y else x
  }

  /** The `grade` getter: `Math.max(0, 5 - violations.length)`. Every entry
      counts, duplicates included. */
  function GradeOf(violations: seq<Violation>): (g: int)
    ensures 0 <= g <= 5
    ensures |violations| <= 5 ==> g == 5 - |violations|
    ensures |violations| >= 5 ==> g == 0
    ensures g == 5 <==> violations == []
  {
    Max(0, 5 - |violations|)
  }

  /** Reporting one more violation never raises the grade, and lowers it by
      exactly one while the grade is still positive. */
  lemma GradeAntitone(violations: seq<Violation>, v: Violation)
    ensures GradeOf(violations + [v]) <= GradeOf(violations)
    ensures GradeOf(violations) > 0 ==> GradeOf(violations + [v]) == GradeOf(violations) - 1
  {
  }

  /** A graded commit object. Its fields are public and mutable: the display
      constructor rewrites them in place. */
  class GradedCommit {
    var commitHash: string
    var violations: seq<Violation>
    var suggestion: Option<string>
    var bodySuggestion: Option<string>

    /** Stores the four fields unchanged. */
    constructor (commitHash: string, violations: seq<Violation>,
                 suggestion: Option<string>, bodySuggestion: Option<string>)
      ensures Value() == Graded(commitHash, violations, suggestion, bodySuggestion)
    {
      this.commitHash := commitHash;
      this.violations := violations;
      this.suggestion := suggestion;
      this.bodySuggestion := bodySuggestion;
    }

    /** The current field values. */
    function Value(): Graded
      reads this
    {
      Graded(commitHash, violations, suggestion, bodySuggestion)
    }

    /** The `grade` getter, recomputed from the current violations. */
    function Grade(): (g: int)
      reads this
      ensures 0 <= g <= 5
    {
      GradeOf(violations)
    }
  }
}
