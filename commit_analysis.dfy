/** `analyzeCommitsFromRepo` after the fetch and the AI call: the AI's text
    is parsed into an array of graded entries, each entry becomes a graded
    commit, and each graded commit is paired with the first commit carrying
    the same hash and reconciled against it. The commits searched are the
    array as it stands after the AI call, which may have rewritten it in
    place. Any failure along the way rejects the whole call; there is no
    partial result. */
module CommitAnalysis {
  import opened Wrappers
  import opened Models
  import opened Reconciler

  /** One element of the parsed AI array. Absent keys are `None`; keys other
      than the four the code reads are kept in `otherKeys`. */
  datatype AiEntry = AiEntry(
    commitHash: Option<string>,
    violations: Option<seq<Violation>>,
    suggestion: Option<string>,
    bodySuggestion: Option<string>,
    otherKeys: map<string, string>)

  /** Why the call rejects. */
  datatype AnalysisError =
    | MalformedResponse          // `JSON.parse` threw, or the result was not an array
    | UnmatchedHash(entry: nat)  // no commit in the array has the entry's hash: the display reads `undefined.header`
    | MissingViolations(entry: nat)  // the entry has no violations array: the display sorts `undefined`

  /** A commit and a verdict about it. */
  datatype DisplayValue = DisplayValue(commit: Commit, graded: Graded)

  /** `new GradedCommit(gc.commitHash, gc.violations, gc.suggestion, gc.bodySuggestion)`
      for an entry whose hash and violations are present. */
  function ToGraded(hash: string, violations: seq<Violation>, e: AiEntry): Graded {
    Graded(hash, violations, e.suggestion, e.bodySuggestion)
  }

  /** `commits.find(c => c.commitHash === hash)`, as an index. */
  function FindByHash(commits: seq<Commit>, hash: string): (r: Option<nat>)
    ensures r.Some? ==> r.value < |commits| && commits[r.value].commitHash == hash
    ensures r.Some? ==> forall k :: 0 <= k < r.value ==> commits[k].commitHash != hash
    ensures r.None? ==> forall k :: 0 <= k < |commits| ==> commits[k].commitHash != hash
  {
    if commits == [] then None
    else if commits[0].commitHash == hash then Some(0)
    else match FindByHash(commits[1..], hash)
      case None => None
      case Some(k) => Some(k + 1)
  }

  /** An entry names a commit of the array and carries violations. */
  predicate Joinable(commits: seq<Commit>, e: AiEntry) {
    e.commitHash.Some? && e.violations.Some? && FindByHash(commits, e.commitHash.value).Some?
  }

  /** A joinable entry paired with its commit, before reconciliation. */
  function PairOf(commits: seq<Commit>, e: AiEntry): (p: DisplayValue)
    requires Joinable(commits, e)
    ensures p.commit in commits && Some(p.commit.commitHash) == e.commitHash
  {
    DisplayValue(commits[FindByHash(commits, e.commitHash.value).value], ToGraded(e.commitHash.value, e.violations.value, e))
  }

  /** Entry number `index` paired with its commit, or why it cannot be. */
  function JoinEntry(commits: seq<Commit>, e: AiEntry, index: nat): Result<DisplayValue, AnalysisError> {
    if e.commitHash.None? || FindByHash(commits, e.commitHash.value).None? then Failure(UnmatchedHash(index))
    else if e.violations.None? then Failure(MissingViolations(index))
    else Success(PairOf(commits, e))
  }

  /** `gradedCommits.map(...)` over the first `n` entries: the pairs in
      entry order, or the error of the first entry that fails. */
  function JoinPrefix(commits: seq<Commit>, entries: seq<AiEntry>, n: nat): Result<seq<DisplayValue>, AnalysisError>
    requires n <= |entries|
  {
    if n == 0 then Success([])
    else match JoinPrefix(commits, entries, n - 1)
      case Failure(err) => Failure(err)
      case Success(ds) =>
        match JoinEntry(commits, entries[n - 1], n - 1)
        case Failure(err) => Failure(err)
        case Success(d) => Success(ds + [d])
  }

  /** `new GradedCommitDisplay(commit, gradedCommit)` for every pair. */
  function ReconcileAll(pairs: seq<DisplayValue>): (ds: seq<DisplayValue>)
    ensures |ds| == |pairs|
  {
    if pairs == [] then []
    else
      var last := pairs[|pairs| - 1];
      ReconcileAll(pairs[..|pairs| - 1]) + [DisplayValue(last.commit, Reconcile(last.commit, last.graded))]
  }

  /** Each display keeps its pair's commit and holds its pair's reconciled
      verdict. */
  lemma {:induction false} ReconcileAllAt(pairs: seq<DisplayValue>, i: nat)
    requires i < |pairs|
    ensures ReconcileAll(pairs)[i] == DisplayValue(pairs[i].commit, Reconcile(pairs[i].commit, pairs[i].graded))
    decreases |pairs|
  {
    if i < |pairs| - 1 {
      ReconcileAllAt(pairs[..|pairs| - 1], i);
    }
  }

  /** The whole post-processing of one AI response. */
  function AnalyzeCommitsFromRepo(commits: seq<Commit>, parsed: Option<seq<AiEntry>>): Result<seq<DisplayValue>, AnalysisError> {
    if parsed.None? then Failure(MalformedResponse)
    else match JoinPrefix(commits, parsed.value, |parsed.value|)
      case Failure(err) => Failure(err)
      case Success(pairs) => Success(ReconcileAll(pairs))
  }

  /** Entry by entry: `JoinPrefix` succeeds exactly when each of the first
      `n` entries can be joined, then yields one pair per entry in order;
      otherwise it reports the first entry that cannot. */
  lemma {:induction false} JoinPrefixSpec(commits: seq<Commit>, entries: seq<AiEntry>, n: nat)
    requires n <= |entries|
    ensures var r := JoinPrefix(commits, entries, n);
      (r.Success? <==> forall i :: 0 <= i < n ==> Joinable(commits, entries[i]))
    ensures var r := JoinPrefix(commits, entries, n);
      r.Success? ==> (|r.value| == n &&
        forall i :: 0 <= i < n ==> r.value[i] == PairOf(commits, entries[i]))
    ensures var r := JoinPrefix(commits, entries, n);
      r.Failure? ==> exists i :: (0 <= i < n && !Joinable(commits, entries[i]) &&
        r.error == JoinEntry(commits, entries[i], i).error &&
        forall k :: 0 <= k < i ==> Joinable(commits, entries[k]))
  {
    if n > 0 {
      JoinPrefixSpec(commits, entries, n - 1);
      var prev := JoinPrefix(commits, entries, n - 1);
      var r := JoinPrefix(commits, entries, n);
      if prev.Failure? {
        assert r == prev;
      } else if !Joinable(commits, entries[n - 1]) {
        assert r.error == JoinEntry(commits, entries[n - 1], n - 1).error;
      } else {
        assert r.value == prev.value + [PairOf(commits, entries[n - 1])];
      }
    }
  }

  /** Once an entry fails, later entries are never looked at: the error
      stands. */
  lemma {:induction false} JoinPrefixFailureStands(commits: seq<Commit>, entries: seq<AiEntry>, n: nat, m: nat)
    requires n <= m <= |entries|
    requires JoinPrefix(commits, entries, n).Failure?
    ensures JoinPrefix(commits, entries, m) == JoinPrefix(commits, entries, n)
    decreases m
  {
    if n < m {
      JoinPrefixFailureStands(commits, entries, n, m - 1);
    }
  }

  /** `analyzeCommitsFromRepo` rejects an unparseable response; otherwise
      it succeeds exactly when every entry names a commit of the array and carries
      violations, and it then fails on the first entry that does not. */
  lemma AnalyzeSucceeds(commits: seq<Commit>, parsed: Option<seq<AiEntry>>)
    ensures parsed.None? ==> AnalyzeCommitsFromRepo(commits, parsed) == Failure(MalformedResponse)
    ensures parsed.Some? ==>
      (AnalyzeCommitsFromRepo(commits, parsed).Success? <==>
        forall i :: 0 <= i < |parsed.value| ==>
          parsed.value[i].commitHash.Some? && parsed.value[i].violations.Some? &&
          FindByHash(commits, parsed.value[i].commitHash.value).Some?)
    ensures var r := AnalyzeCommitsFromRepo(commits, parsed);
      parsed.Some? && r.Failure? ==> exists i :: (0 <= i < |parsed.value| &&
        !Joinable(commits, parsed.value[i]) &&
        r.error == JoinEntry(commits, parsed.value[i], i).error &&
        forall k :: 0 <= k < i ==> Joinable(commits, parsed.value[k]))
  {
    if parsed.Some? {
      JoinPrefixSpec(commits, parsed.value, |parsed.value|);
    }
  }

  /** On success there is one display per AI entry, in the AI's order,
      paired with the first commit of the array with that hash and holding the
      reconciled verdict. */
  lemma AnalyzeValues(commits: seq<Commit>, parsed: Option<seq<AiEntry>>)
    ensures var r := AnalyzeCommitsFromRepo(commits, parsed);
      r.Success? ==> (|r.value| == |parsed.value| &&
        forall i :: 0 <= i < |r.value| ==>
          var e := parsed.value[i];
          && Joinable(commits, e)
          && Some(r.value[i].commit.commitHash) == e.commitHash
          && r.value[i].commit == commits[FindByHash(commits, e.commitHash.value).value]
          && r.value[i].graded == Reconcile(r.value[i].commit, ToGraded(e.commitHash.value, e.violations.value, e)))
  {
    var r := AnalyzeCommitsFromRepo(commits, parsed);
    if r.Success? {
      JoinPrefixSpec(commits, parsed.value, |parsed.value|);
      var pairs := JoinPrefix(commits, parsed.value, |parsed.value|).value;
      forall i | 0 <= i < |r.value|
        ensures var e := parsed.value[i];
          && Joinable(commits, e)
          && Some(r.value[i].commit.commitHash) == e.commitHash
          && r.value[i].commit == commits[FindByHash(commits, e.commitHash.value).value]
          && r.value[i].graded == Reconcile(r.value[i].commit, ToGraded(e.commitHash.value, e.violations.value, e))
      {
        assert pairs[i] == PairOf(commits, parsed.value[i]);
        ReconcileAllAt(pairs, i);
      }
    }
  }

  /** A commit whose hash no entry names does not appear in the
      result. */
  lemma AnalyzeOmitsUnnamed(commits: seq<Commit>, parsed: Option<seq<AiEntry>>, c: Commit)
    requires parsed.Some? && forall e :: e in parsed.value ==> e.commitHash != Some(c.commitHash)
    ensures var r := AnalyzeCommitsFromRepo(commits, parsed);
      r.Success? ==> forall d :: d in r.value ==> d.commit.commitHash != c.commitHash
  {
    var r := AnalyzeCommitsFromRepo(commits, parsed);
    if r.Success? {
      AnalyzeValues(commits, parsed);
      forall d | d in r.value
        ensures d.commit.commitHash != c.commitHash
      {
        var i :| 0 <= i < |r.value| && r.value[i] == d;
        assert parsed.value[i] in parsed.value;
      }
    }
  }

  /** Two parsed arrays that differ only in keys other than the four read. */
  predicate SameReadKeys(a: seq<AiEntry>, b: seq<AiEntry>) {
    |a| == |b| && forall i :: 0 <= i < |a| ==> a[i].(otherKeys := map[]) == b[i].(otherKeys := map[])
  }

  /** Joining the first `n` entries never looks at the other keys. */
  lemma {:induction false} JoinPrefixIgnoresOtherKeys(commits: seq<Commit>, a: seq<AiEntry>, b: seq<AiEntry>, n: nat)
    requires SameReadKeys(a, b) && n <= |a|
    ensures JoinPrefix(commits, a, n) == JoinPrefix(commits, b, n)
  {
    if n > 0 {
      JoinPrefixIgnoresOtherKeys(commits, a, b, n - 1);
      var x, y := a[n - 1], b[n - 1];
      assert x.(otherKeys := map[]) == y.(otherKeys := map[]);
      assert x.commitHash == y.commitHash && x.violations == y.violations;
      assert x.suggestion == y.suggestion && x.bodySuggestion == y.bodySuggestion;
    }
  }

  /** Keys other than the four read are discarded: two responses that agree
      on those four keys, entry by entry, give the same result. */
  lemma OtherKeysIgnored(commits: seq<Commit>, a: seq<AiEntry>, b: seq<AiEntry>)
    requires SameReadKeys(a, b)
    ensures AnalyzeCommitsFromRepo(commits, Some(a)) == AnalyzeCommitsFromRepo(commits, Some(b))
  {
    JoinPrefixIgnoresOtherKeys(commits, a, b, |a|);
  }

  /** Every display's verdict is already reconciled: rebuilding the display
      from its own commit and verdict, as the tree view does after receiving
      the backend's output, changes nothing. */
  lemma DisplaysAreStable(commits: seq<Commit>, parsed: Option<seq<AiEntry>>)
    ensures var r := AnalyzeCommitsFromRepo(commits, parsed);
      r.Success? ==> forall d :: d in r.value ==> Reconcile(d.commit, d.graded) == d.graded
  {
    var r := AnalyzeCommitsFromRepo(commits, parsed);
    if r.Success? {
      AnalyzeValues(commits, parsed);
      forall d | d in r.value
        ensures Reconcile(d.commit, d.graded) == d.graded
      {
        var i :| 0 <= i < |r.value| && r.value[i] == d;
        var e := parsed.value[i];
        ReconcileIdempotent(d.commit, ToGraded(e.commitHash.value, e.violations.value, e));
      }
    }
  }

  /** Rebuilding displays whose verdicts are already reconciled gives the
      same displays back. */
  lemma ReconcileAllStable(ds: seq<DisplayValue>)
    requires forall d :: d in ds ==> Reconcile(d.commit, d.graded) == d.graded
    ensures ReconcileAll(ds) == ds
  {
    forall i | 0 <= i < |ds|
      ensures ReconcileAll(ds)[i] == ds[i]
    {
      assert ds[i] in ds;
      ReconcileAllAt(ds, i);
    }
  }

  /** The tree view rebuilds a display from each item of the backend's
      output; on the backend's successful output this is the identity, so
      the tree shows exactly what the backend computed. */
  lemma RebuiltDisplaysUnchanged(commits: seq<Commit>, parsed: Option<seq<AiEntry>>)
    ensures var r := AnalyzeCommitsFromRepo(commits, parsed);
      r.Success? ==> ReconcileAll(r.value) == r.value
  {
    var r := AnalyzeCommitsFromRepo(commits, parsed);
    if r.Success? {
      DisplaysAreStable(commits, parsed);
      ReconcileAllStable(r.value);
    }
  }
}
