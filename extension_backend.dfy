/** `analyzeCommitsFromRepo` as the extension's backend runs it. The array
    of commits is handed to the extension's Gemini model, which marks every
    long header in place, and the same array is then searched for each
    entry's hash. So the displays carry the marked headers, and the
    reconciliation compares the AI's suggestions with the marked headers. */
module ExtensionBackend {
  import opened Wrappers
  import opened Text
  import opened Models
  import opened Similarity
  import opened Violations
  import opened Reconciler
  import opened CommitAnalysis
  import opened PromptBuilder

  /** The post-processing of one AI response for the fetched commits, after
      the AI call has rewritten their headers. */
  function AnalyzeFetched(fetched: seq<Commit>, parsed: Option<seq<AiEntry>>): Result<seq<DisplayValue>, AnalysisError> {
    AnalyzeCommitsFromRepo(MarkAll(fetched), parsed)
  }

  /** Marking headers leaves every hash in place, so the search by hash
      finds the same position. */
  lemma {:induction false} FindByHashMarked(commits: seq<Commit>, hash: string)
    ensures FindByHash(MarkAll(commits), hash) == FindByHash(commits, hash)
  {
    if commits != [] {
      assert MarkAll(commits)[1..] == MarkAll(commits[1..]);
      FindByHashMarked(commits[1..], hash);
    }
  }

  /** On success each display holds the fetched commit with that hash, its
      header marked: a header over 72 characters is shown with "|72|"
      inside it. */
  lemma AnalyzeShowsMarkedHeaders(fetched: seq<Commit>, parsed: Option<seq<AiEntry>>)
    ensures var r := AnalyzeFetched(fetched, parsed);
      r.Success? ==> (|r.value| == |parsed.value| &&
        forall i :: 0 <= i < |r.value| ==>
          && parsed.value[i].commitHash.Some?
          && var k := FindByHash(fetched, parsed.value[i].commitHash.value);
          && k.Some?
          && r.value[i].commit == MarkCommit(fetched[k.value])
          && r.value[i].commit.header == MarkHeader(fetched[k.value].header))
  {
    var r := AnalyzeFetched(fetched, parsed);
    if r.Success? {
      AnalyzeValues(MarkAll(fetched), parsed);
      forall i | 0 <= i < |r.value|
        ensures FindByHash(MarkAll(fetched), parsed.value[i].commitHash.value) ==
                FindByHash(fetched, parsed.value[i].commitHash.value)
      {
        FindByHashMarked(fetched, parsed.value[i].commitHash.value);
      }
    }
  }

  /** The marker holds no whitespace, so stripping a marked header gives
      four characters more than stripping the header. */
  lemma StripMarked(h: string)
    requires |h| > HeaderLimit
    ensures |StripWhitespace(MarkHeader(h))| == |StripWhitespace(h)| + |Marker|
  {
    var a, b := h[..HeaderLimit], h[HeaderLimit..];
    assert h == a + b;
    assert MarkHeader(h) == a + (Marker + b);
    StripConcat(a, Marker + b);
    StripConcat(Marker, b);
    StripConcat(a, b);
    assert StripWhitespace(Marker) == Marker;
  }

  /** A long header and its marked form are never similar, either way
      round. */
  lemma MarkedHeaderDissimilar(h: string)
    requires |h| > HeaderLimit
    ensures !Similar(Some(h), Some(MarkHeader(h)))
    ensures !Similar(Some(MarkHeader(h)), Some(h))
  {
    StripMarked(h);
    DistanceProperties(StripWhitespace(h), StripWhitespace(MarkHeader(h)));
  }

  /** A header suggestion that repeats a long fetched header is dropped,
      together with rule 2, when the commit is reconciled as fetched; but
      it is kept, and rule 2 with it, when the commit carries the marked
      header, as it does in this backend. */
  lemma RepeatedLongHeaderKept(c: Commit, g: Graded)
    requires |c.header| > HeaderLimit && g.suggestion == Some(c.header)
    ensures Reconcile(c, g).suggestion == None
    ensures Count(Reconcile(c, g).violations, 2) == 0
    ensures Reconcile(MarkCommit(c), g).suggestion == Some(c.header)
    ensures Count(Reconcile(MarkCommit(c), g).violations, 2) == Count(g.violations, 2)
  {
    ReconcileSuggestions(c, g);
    ReconcileCounts(c, g);
    MarkedHeaderDissimilar(c.header);
    ReconcileSuggestions(MarkCommit(c), g);
    ReconcileCounts(MarkCommit(c), g);
  }
}
