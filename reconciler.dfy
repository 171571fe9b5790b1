/** The post-processing of one AI verdict against the commit it grades
    (`GradedCommitDisplay` in the backend's presentation layer). The
    constructor corrects the verdict in place, step by step:
    1. a header suggestion similar to the header is dropped together with
       every rule-2 (imperative tone) violation;
    2. a body suggestion similar to the body is dropped;
    3. a header over 72 characters always carries a rule-1 violation;
    4. a surviving body suggestion shorter than 60% of the body always
       carries a rule-3 violation;
    5. the violations are sorted by rule number.
    `Reconcile` states the result as a function of the inputs; the lemmas
    below state what it guarantees. */
module Reconciler {
  import opened Wrappers
  import opened Text
  import opened Models
  import opened Similarity
  import opened Violations
  import opened RuleCatalog
  import opened Display

  /** Longest header that does not break rule 1. */
  const MaxHeaderLength := 72

  /** The header suggestion is present and similar to the header. */
  predicate HeaderSuggestionSimilar(c: Commit, g: Graded) {
    Truthy(g.suggestion) && Similar(Some(c.header), g.suggestion)
  }

  /** The body suggestion is present and similar to the body. */
  predicate BodySuggestionSimilar(c: Commit, g: Graded) {
    Truthy(g.bodySuggestion) && Similar(Some(c.body), g.bodySuggestion)
  }

  /** `bs.length < body.length * 0.6`, exactly, for integer lengths. */
  predicate DrasticallyShorter(bs: string, body: string) {
    5 * |bs| < 3 * |body|
  }

  /** Step 1. */
  function DropSimilarHeaderSuggestion(c: Commit, g: Graded): Graded {
    if HeaderSuggestionSimilar(c, g)
    then g.(violations := WithoutRule(g.violations, 2), suggestion := None)
    else g
  }

  /** Step 2. */
  function DropSimilarBodySuggestion(c: Commit, g: Graded): Graded {
    if BodySuggestionSimilar(c, g) then g.(bodySuggestion := None) else g
  }

  /** Step 3. */
  function EnforceHeaderLength(c: Commit, g: Graded): Graded {
    if |c.header| > MaxHeaderLength then g.(violations := EnsureRule(g.violations, 1)) else g
  }

  /** Step 4. */
  function EnforceBodyConciseness(c: Commit, g: Graded): Graded {
    if Truthy(g.bodySuggestion) && DrasticallyShorter(g.bodySuggestion.value, c.body)
    then g.(violations := EnsureRule(g.violations, 3))
    else g
  }

  /** Step 5. */
  function SortViolations(g: Graded): Graded {
    g.(violations := SortByRule(g.violations))
  }

  /** The steps of the constructor, in the order it runs them. */
  datatype Step = DropHeader | DropBody | HeaderLength | BodyConciseness | SortByRuleNumber

  const Steps: seq<Step> := [DropHeader, DropBody, HeaderLength, BodyConciseness, SortByRuleNumber]

  function Apply(step: Step, c: Commit, g: Graded): Graded {
    match step
    case DropHeader => DropSimilarHeaderSuggestion(c, g)
    case DropBody => DropSimilarBodySuggestion(c, g)
    case HeaderLength => EnforceHeaderLength(c, g)
    case BodyConciseness => EnforceBodyConciseness(c, g)
    case SortByRuleNumber => SortViolations(g)
  }

  /** The verdict after running `steps` in order. */
  function Run(steps: seq<Step>, c: Commit, g: Graded): Graded
    decreases |steps|
  {
    if steps == [] then g else Run(steps[1..], c, Apply(steps[0], c, g))
  }

  /** The verdict after all five steps. */
  function Reconcile(c: Commit, g: Graded): Graded {
    Run(Steps, c, g)
  }

  /** `Reconcile` written out as the composition of the five steps. */
  lemma {:induction false} ReconcileUnfold(c: Commit, g: Graded)
    ensures Reconcile(c, g) ==
      SortViolations(EnforceBodyConciseness(c, EnforceHeaderLength(c, DropSimilarBodySuggestion(c, DropSimilarHeaderSuggestion(c, g)))))
  {
    var g1 := DropSimilarHeaderSuggestion(c, g);
    var g2 := DropSimilarBodySuggestion(c, g1);
    var g3 := EnforceHeaderLength(c, g2);
    var g4 := EnforceBodyConciseness(c, g3);
    assert Steps[1..] == [DropBody, HeaderLength, BodyConciseness, SortByRuleNumber];
    assert Steps[1..][1..] == [HeaderLength, BodyConciseness, SortByRuleNumber];
    assert Steps[1..][1..][1..] == [BodyConciseness, SortByRuleNumber];
    assert Steps[1..][1..][1..][1..] == [SortByRuleNumber];
    calc {
      Reconcile(c, g);
      Run(Steps[1..], c, g1);
      Run(Steps[1..][1..], c, g2);
      Run(Steps[1..][1..][1..], c, g3);
      Run(Steps[1..][1..][1..][1..], c, g4);
      Run([], c, SortViolations(g4));
    }
  }

  /** The suggestions after reconciliation: a similar one is cleared, any
      other is kept as reported; the hash is never touched. */
  lemma ReconcileSuggestions(c: Commit, g: Graded)
    ensures Reconcile(c, g).commitHash == g.commitHash
    ensures Reconcile(c, g).suggestion == if HeaderSuggestionSimilar(c, g) then None else g.suggestion
    ensures Reconcile(c, g).bodySuggestion == if BodySuggestionSimilar(c, g) then None else g.bodySuggestion
  {
    ReconcileUnfold(c, g);
  }

  /** The violations after reconciliation, counted rule by rule: rules other
      than 1, 2 and 3 keep their counts, duplicates included; rule 2 is gone
      when the header suggestion was similar; rules 1 and 3 gain one entry
      exactly when they are enforced and were absent. */
  lemma ReconcileCounts(c: Commit, g: Graded)
    ensures forall v: Violation :: v.rule != 1 && v.rule != 2 && v.rule != 3 ==>
      multiset(Reconcile(c, g).violations)[v] == multiset(g.violations)[v]
    ensures Count(Reconcile(c, g).violations, 2) ==
      if HeaderSuggestionSimilar(c, g) then 0 else Count(g.violations, 2)
    ensures Count(Reconcile(c, g).violations, 1) ==
      if |c.header| > MaxHeaderLength && Count(g.violations, 1) == 0 then 1 else Count(g.violations, 1)
    ensures var bs := Reconcile(c, g).bodySuggestion;
      Count(Reconcile(c, g).violations, 3) ==
      if Truthy(bs) && DrasticallyShorter(bs.value, c.body) && Count(g.violations, 3) == 0 then 1 else Count(g.violations, 3)
    ensures |Reconcile(c, g).violations| <= |g.violations| + 2
  {
    var g1 := DropSimilarHeaderSuggestion(c, g);
    var g2 := DropSimilarBodySuggestion(c, g1);
    var g3 := EnforceHeaderLength(c, g2);
    var g4 := EnforceBodyConciseness(c, g3);
    ReconcileUnfold(c, g);
    assert Reconcile(c, g).bodySuggestion == g4.bodySuggestion == g2.bodySuggestion;
    assert multiset(Reconcile(c, g).violations) == multiset(g4.violations);
  }

  /** What the reconciled verdict always satisfies, whatever the AI
      reported: a long header has a rule-1 violation, a drastically shorter
      body suggestion has a rule-3 violation, a dropped header suggestion
      leaves no rule-2 violation, and the list is sorted. */
  lemma ReconcileGuarantees(c: Commit, g: Graded)
    ensures |c.header| > MaxHeaderLength ==> HasRule(Reconcile(c, g).violations, 1)
    ensures var r := Reconcile(c, g);
      Truthy(r.bodySuggestion) && DrasticallyShorter(r.bodySuggestion.value, c.body) ==> HasRule(r.violations, 3)
    ensures HeaderSuggestionSimilar(c, g) ==> forall v :: v in Reconcile(c, g).violations ==> v.rule != 2
    ensures SortedByRule(Reconcile(c, g).violations)
  {
    ReconcileCounts(c, g);
    var r := Reconcile(c, g);
    if HeaderSuggestionSimilar(c, g) {
      forall v | v in r.violations
        ensures v.rule != 2
      {
        assert multiset(r.violations)[v] > 0;
        assert v == Violation(v.rule);
      }
    }
  }

  /** Reconciliation never introduces a repeated rule: if the AI listed each
      rule at most once, so does the result. Repeats it did report are kept. */
  lemma ReconcileKeepsRulesDistinct(c: Commit, g: Graded)
    requires NoDuplicateRules(g.violations)
    ensures NoDuplicateRules(Reconcile(c, g).violations)
  {
    ReconcileCounts(c, g);
    var r := Reconcile(c, g);
    forall v
      ensures multiset(r.violations)[v] <= 1
    {
      assert v == Violation(v.rule);
      assert multiset(g.violations)[v] <= 1;
      if v.rule == 1 || v.rule == 2 || v.rule == 3 {
        assert multiset(r.violations)[v] == Count(r.violations, v.rule);
        assert multiset(g.violations)[v] == Count(g.violations, v.rule);
      }
    }
  }

  /** Reconciling an already reconciled verdict against the same commit
      changes nothing (the frontend rebuilds every display from the backend's
      reconciled output, so this runs twice). */
  lemma {:induction false} ReconcileIdempotent(c: Commit, g: Graded)
    ensures Reconcile(c, Reconcile(c, g)) == Reconcile(c, g)
  {
    var r := Reconcile(c, g);
    ReconcileGuarantees(c, g);
    ReconcileSuggestions(c, g);
    var r1 := DropSimilarHeaderSuggestion(c, r);
    assert r1 == r by {
      if HeaderSuggestionSimilar(c, r) {
        assert false;
      }
    }
    var r2 := DropSimilarBodySuggestion(c, r1);
    assert r2 == r by {
      if BodySuggestionSimilar(c, r) {
        assert false;
      }
    }
    assert EnforceHeaderLength(c, r2) == r;
    assert EnforceBodyConciseness(c, r) == r;
    SortSorted(r.violations);
  }

  /** The display object: the commit it shows and the graded commit it
      reconciles and shows. */
  class GradedCommitDisplay {
    const commit: Commit
    const gradedCommit: GradedCommit

    /** Runs the five steps on `gradedCommit` in place. */
    constructor (commit: Commit, gradedCommit: GradedCommit)
      modifies gradedCommit
      ensures this.commit == commit && this.gradedCommit == gradedCommit
      ensures gradedCommit.Value() == Reconcile(commit, old(gradedCommit.Value()))
    {
      this.commit := commit;
      this.gradedCommit := gradedCommit;
      new;
      ghost var g0 := gradedCommit.Value();
      var headerSimilar := false;
      if Truthy(gradedCommit.suggestion) {
        headerSimilar := AreStringsSimilar(Some(commit.header), gradedCommit.suggestion);
      }
      if headerSimilar {
        gradedCommit.violations := WithoutRule(gradedCommit.violations, 2);
        gradedCommit.suggestion := None;
      }
      ghost var g1 := DropSimilarHeaderSuggestion(commit, g0);
      assert gradedCommit.Value() == g1;

      var bodySimilar := false;
      if Truthy(gradedCommit.bodySuggestion) {
        bodySimilar := AreStringsSimilar(Some(commit.body), gradedCommit.bodySuggestion);
      }
      if bodySimilar {
        gradedCommit.bodySuggestion := None;
      }
      ghost var g2 := DropSimilarBodySuggestion(commit, g1);
      assert gradedCommit.Value() == g2;

      if |commit.header| > MaxHeaderLength {
        if !HasRule(gradedCommit.violations, 1) {
          gradedCommit.violations := gradedCommit.violations + [Violation(1)];
        }
      }
      ghost var g3 := EnforceHeaderLength(commit, g2);
      assert gradedCommit.Value() == g3;

      if Truthy(gradedCommit.bodySuggestion) && DrasticallyShorter(gradedCommit.bodySuggestion.value, commit.body) {
        if !HasRule(gradedCommit.violations, 3) {
          gradedCommit.violations := gradedCommit.violations + [Violation(3)];
        }
      }
      ghost var g4 := EnforceBodyConciseness(commit, g3);
      assert gradedCommit.Value() == g4;

      gradedCommit.violations := SortByRule(gradedCommit.violations);
      ReconcileUnfold(commit, g0);
    }

    /** `getHTML`: the card of the current verdict. It is wrapped in a link
        exactly when the commit's url is defined, to "#" when that url is
        empty; the grade is the floored one, so its colour is never the
        fallback grey. */
    function Html(catalog: map<int, Rule>): (card: Card)
      reads gradedCommit
      ensures 0 <= card.grade <= 5 && card.grade == gradedCommit.Grade()
      ensures card.gradeColor != "gray"
      ensures card.linkHref.Some? <==> commit.url.Some?
      ensures commit.url == Some("") ==> card.linkHref == Some("#")
      ensures Truthy(commit.url) ==> card.linkHref == commit.url
      ensures |card.lines| == |gradedCommit.violations|
    {
      MakeCard(commit.url, commit.header, commit.body, gradedCommit.commitHash, gradedCommit.Grade(),
               gradedCommit.violations, gradedCommit.suggestion, gradedCommit.bodySuggestion, catalog)
    }
  }
}
