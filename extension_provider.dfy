/** The extension's tree data provider: the three fields `analyze` fills
    from the backend's answers, the nodes `getChildren` derives from them
    (feedback, statistics and commits at the root; a preview, one item per
    statistic, one node per commit, and each commit's violations and
    suggestions below), and the page that shows the full feedback. The
    requests themselves are inputs. */
module ExtensionProvider {
  import opened Wrappers
  import opened Text
  import opened Models
  import opened RuleCatalog
  import opened HtmlEscape
  import opened CommitAnalysis
  import opened TreeItems

  /** The answer to the style-comment request. */
  datatype StyleResponse =
    | StyleOk(comment: Option<string>, stats: Option<seq<RuleStat>>)
    | StyleNotOk
    | StyleThrows  // the request or its JSON failed: the catch block runs

  /** The answer to the analysis request: the parsed display items and the
      style answer that follows them, a failure status, or an exception. */
  datatype AnalyzeResponse =
    | AnalyzeOk(items: seq<DisplayValue>, style: StyleResponse)
    | AnalyzeNotOk
    | AnalyzeThrows

  /** The feedback root is shown for a comment that is not blank. */
  predicate HasFeedback(comment: Option<string>) {
    Truthy(comment) && |Trim(comment.value)| > 0
  }

  /** The statistics root is shown for a non-empty list. */
  predicate HasStats(stats: Option<seq<RuleStat>>) {
    stats.Some? && |stats.value| > 0
  }

  /** The root nodes, in the order they are pushed: the feedback root, the
      statistics root and the commits root, each only when asked for. */
  function RootList(feedback: bool, stats: bool, count: nat): seq<Node> {
    (if feedback then [FeedbackRoot] else [])
    + (if stats then [StatsRoot] else [])
    + (if count > 0 then [CommitsRoot(count)] else [])
  }

  /** The root nodes for the three fields. */
  function RootNodes(comment: Option<string>, stats: Option<seq<RuleStat>>, results: seq<DisplayValue>): seq<Node> {
    RootList(HasFeedback(comment), HasStats(stats), |results|)
  }

  /** The place of a root node kind in the fixed root order. */
  function RootRank(n: Node): nat {
    match n
    case FeedbackRoot => 0
    case StatsRoot => 1
    case _ => 2
  }

  /** Each root node is present exactly when asked for, the commits root
      carries the count, and the nodes keep the order feedback, statistics,
      commits with no repetition. */
  lemma RootListSpec(feedback: bool, stats: bool, count: nat)
    ensures var r := RootList(feedback, stats, count);
      && (FeedbackRoot in r <==> feedback)
      && (StatsRoot in r <==> stats)
      && (CommitsRoot(count) in r <==> count > 0)
      && (forall n :: n in r ==> n == FeedbackRoot || n == StatsRoot || n == CommitsRoot(count))
      && (forall i, j :: 0 <= i < j < |r| ==> RootRank(r[i]) < RootRank(r[j]))
  {
  }

  /** The feedback root is there exactly for a non-blank comment, the
      statistics root for a non-empty list, the commits root for at least one
      result, showing their number. */
  lemma RootNodesSpec(comment: Option<string>, stats: Option<seq<RuleStat>>, results: seq<DisplayValue>)
    ensures var r := RootNodes(comment, stats, results);
      && (FeedbackRoot in r <==> comment.Some? && |Trim(comment.value)| > 0)
      && (StatsRoot in r <==> stats.Some? && |stats.value| > 0)
      && (CommitsRoot(|results|) in r <==> |results| > 0)
      && (forall i, j :: 0 <= i < j < |r| ==> RootRank(r[i]) < RootRank(r[j]))
  {
    RootListSpec(HasFeedback(comment), HasStats(stats), |results|);
  }

  /** One statistics node per row, in order. */
  function RuleStatNodes(stats: seq<RuleStat>): (nodes: seq<Node>)
    ensures |nodes| == |stats|
    ensures forall i :: 0 <= i < |stats| ==> nodes[i] == RuleStatNode(stats[i])
  {
    seq(|stats|, i requires 0 <= i < |stats| => RuleStatNode(stats[i]))
  }

  /** The children of `element` (the root when `None`) given the three
      fields. Statistics, previews, violations and suggestions have none. */
  function ChildrenOf(element: Option<Node>, comment: Option<string>, stats: Option<seq<RuleStat>>,
                      results: seq<DisplayValue>): seq<Node>
  {
    if element.None? then RootNodes(comment, stats, results)
    else match element.value
      case FeedbackRoot => [FeedbackPreview(ProviderPreview(comment))]
      case StatsRoot => RuleStatNodes(if stats.Some? then stats.value else [])
      case CommitsRoot(_) => CommitNodes(results)
      case CommitNode(d, _) => CommitChildren(d.graded, ExtensionRules)
      case _ => []
  }

  /** Below the feedback root there is one preview; below the commits root
      one node per stored result, whatever count the root shows; below a
      commit its violations, then its suggestions; below anything else
      nothing. */
  lemma ChildrenOfSpec(element: Option<Node>, comment: Option<string>, stats: Option<seq<RuleStat>>,
                       results: seq<DisplayValue>)
    ensures var r := ChildrenOf(element, comment, stats, results);
      && (element == Some(FeedbackRoot) ==> |r| == 1 && r[0].FeedbackPreview?)
      && (element.Some? && element.value.CommitsRoot? ==>
            |r| == |results| && forall i :: 0 <= i < |r| ==> r[i].CommitNode? && r[i].display == results[i])
      && (element.Some? && element.value.CommitNode? ==>
            r[..|element.value.display.graded.violations|] == ViolationNodes(element.value.display.graded.violations, ExtensionRules))
      && ((element.Some? && (element.value.RuleStatNode? || element.value.FeedbackPreview? ||
             element.value.ViolationNode? || element.value.SuggestionNode?)) ==> r == [])
  {
    if element.Some? && element.value.CommitNode? {
      var vs := element.value.display.graded.violations;
      var r := ChildrenOf(element, comment, stats, results);
      assert r == ViolationNodes(vs, ExtensionRules) + (r[|vs|..]);
    }
  }

  /** The text of the full-feedback page (`escapeHtml` of the comment, or of
      "(no feedback)" when there is none). */
  const NoFeedback := "(no feedback)"

  function FullFeedbackText(comment: Option<string>): (page: string)
    ensures Unescape(page, Unpadded) == (if comment.Some? then comment.value else NoFeedback)
    ensures forall i :: 0 <= i < |page| ==> page[i] != '<' && page[i] != '>' && page[i] != '"' && page[i] != '\''
  {
    var text := if comment.Some? then comment.value else NoFeedback;
    UnescapeEscape(text, Unpadded);
    Escape(text, Unpadded)
  }

  /** The provider and its three fields. */
  class AnalysisResultsProvider {
    var analysisResults: seq<DisplayValue>
    var styleComment: Option<string>
    var styleStats: Option<seq<RuleStat>>

    constructor ()
      ensures analysisResults == [] && styleComment == None && styleStats == None
    {
      analysisResults := [];
      styleComment := None;
      styleStats := None;
    }

    /** `analyze`: an ok answer replaces the results by a display rebuilt
        from each item, then the style answer sets both style fields (to
        its values, or to nothing when it is not ok) or, when it throws,
        leaves them. A failed or throwing analysis changes nothing. */
    method Analyze(response: AnalyzeResponse)
      modifies this
      ensures response.AnalyzeOk? ==> analysisResults == ReconcileAll(response.items)
      ensures !response.AnalyzeOk? ==> analysisResults == old(analysisResults)
      ensures response.AnalyzeOk? && response.style.StyleOk? ==>
        styleComment == response.style.comment && styleStats == response.style.stats
      ensures response.AnalyzeOk? && response.style.StyleNotOk? ==> styleComment == None && styleStats == None
      ensures !response.AnalyzeOk? || response.style.StyleThrows? ==>
        styleComment == old(styleComment) && styleStats == old(styleStats)
    {
      if response.AnalyzeOk? {
        analysisResults := ReconcileAll(response.items);
        match response.style
        case StyleOk(comment, stats) =>
          styleComment := comment;
          styleStats := stats;
        case StyleNotOk =>
          styleComment := None;
          styleStats := None;
        case StyleThrows =>
      }
    }

    /** The children of `element` in the current state. */
    function Children(element: Option<Node>): seq<Node>
      reads this
    {
      ChildrenOf(element, styleComment, styleStats, analysisResults)
    }

    /** The page shown by the full-feedback command. */
    function FullFeedback(): (page: string)
      reads this
      ensures Unescape(page, Unpadded) == (if styleComment.Some? then styleComment.value else NoFeedback)
    {
      FullFeedbackText(styleComment)
    }

    /** `getChildren`: the root items are pushed one by one, a commit's
        items are pushed violation by violation, then suggestion by
        suggestion. */
    method GetChildren(element: Option<Node>) returns (items: seq<Node>)
      ensures items == Children(element)
    {
      if element.None? {
        items := [];
        if HasFeedback(styleComment) {
          items := items + [FeedbackRoot];
        }
        if HasStats(styleStats) {
          items := items + [StatsRoot];
        }
        if |analysisResults| > 0 {
          items := items + [CommitsRoot(|analysisResults|)];
        }
      } else if element.value.FeedbackRoot? {
        items := [FeedbackPreview(ProviderPreview(styleComment))];
      } else if element.value.StatsRoot? {
        items := RuleStatNodes(if styleStats.Some? then styleStats.value else []);
      } else if element.value.CommitsRoot? {
        items := CommitNodes(analysisResults);
      } else if element.value.CommitNode? {
        items := CommitItems(element.value.display.graded, ExtensionRules);
      } else {
        items := [];
      }
    }
  }

  /** After an ok analysis of the backend's own output, the commits root
      lists the backend's displays unchanged, in the backend's order. */
  method ShowsBackendOutput(commits: seq<Commit>, parsed: Option<seq<AiEntry>>) returns (p: AnalysisResultsProvider, shown: seq<Node>)
    requires AnalyzeCommitsFromRepo(commits, parsed).Success?
    ensures var out := AnalyzeCommitsFromRepo(commits, parsed).value;
      |shown| == |out| && forall i :: 0 <= i < |out| ==> shown[i].CommitNode? && shown[i].display == out[i]
  {
    var out := AnalyzeCommitsFromRepo(commits, parsed).value;
    p := new AnalysisResultsProvider();
    p.Analyze(AnalyzeOk(out, StyleNotOk));
    RebuiltDisplaysUnchanged(commits, parsed);
    shown := p.GetChildren(Some(CommitsRoot(|out|)));
  }

  /** The backend's style route answers with the comment alone, so `stats`
      reads as absent: after such an answer the statistics root is never
      listed, and the feedback root is listed exactly for a non-blank
      comment. */
  method StatsRootAfterBackendAnswer(items: seq<DisplayValue>, comment: string) returns (roots: seq<Node>)
    ensures StatsRoot !in roots
    ensures FeedbackRoot in roots <==> |Trim(comment)| > 0
  {
    var p := new AnalysisResultsProvider();
    p.Analyze(AnalyzeOk(items, StyleOk(Some(comment), None)));
    roots := p.GetChildren(None);
    RootNodesSpec(Some(comment), None, p.analysisResults);
  }
}
