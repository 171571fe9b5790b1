/** The tree data provider of the standalone frontend: one field, the list of
    displays `analyze` stores, and `getChildren`, which lists one commit node
    per display at the root and a commit's violations and suggestions below
    it. The rule catalog it names violations from belongs to its own backend
    copy and is a parameter here. */
module FrontendProvider {
  import opened Wrappers
  import opened Text
  import opened Models
  import opened RuleCatalog
  import opened CommitAnalysis
  import opened TreeItems

  /** The answer to the analysis request. */
  datatype AnalyzeResponse =
    | AnalyzeOk(items: seq<DisplayValue>)
    | AnalyzeNotOk
    | AnalyzeThrows

  /** The children of `element` (the root when `None`): the commit nodes at
      the root, a commit's items below it, nothing below anything else. */
  function ChildrenOf(element: Option<Node>, results: seq<DisplayValue>, catalog: map<int, Rule>): seq<Node> {
    if element.None? then CommitNodes(results)
    else if element.value.CommitNode? then CommitChildren(element.value.display.graded, catalog)
    else []
  }

  /** The root has exactly one commit node per stored display, in order;
      only commit nodes have children, and those are the commit's
      violations followed by its suggestions. */
  lemma ChildrenOfSpec(element: Option<Node>, results: seq<DisplayValue>, catalog: map<int, Rule>)
    ensures var r := ChildrenOf(element, results, catalog);
      && (element.None? ==>
            |r| == |results| && forall i :: 0 <= i < |r| ==> r[i].CommitNode? && r[i].display == results[i])
      && (element.Some? && element.value.CommitNode? ==>
            r[..|element.value.display.graded.violations|] == ViolationNodes(element.value.display.graded.violations, catalog))
      && (element.Some? && !element.value.CommitNode? ==> r == [])
  {
    if element.Some? && element.value.CommitNode? {
      var vs := element.value.display.graded.violations;
      var r := ChildrenOf(element, results, catalog);
      assert r == ViolationNodes(vs, catalog) + (r[|vs|..]);
    }
  }

  /** The provider. */
  class AnalysisResultsProvider {
    var analysisResults: seq<DisplayValue>
    /** The catalog of the frontend's own backend copy. */
    const catalog: map<int, Rule>

    constructor (catalog: map<int, Rule>)
      ensures analysisResults == [] && this.catalog == catalog
    {
      analysisResults := [];
      this.catalog := catalog;
    }

    /** `analyze`: an ok answer replaces the results wholesale by a display
        rebuilt from each item; a failed or throwing request keeps the
        previous results. */
    method Analyze(response: AnalyzeResponse)
      modifies this
      ensures response.AnalyzeOk? ==> analysisResults == ReconcileAll(response.items)
      ensures !response.AnalyzeOk? ==> analysisResults == old(analysisResults)
    {
      if response.AnalyzeOk? {
        analysisResults := ReconcileAll(response.items);
      }
    }

    /** The children of `element` in the current state. */
    function Children(element: Option<Node>): seq<Node>
      reads this
    {
      ChildrenOf(element, analysisResults, catalog)
    }

    /** `getChildren`. */
    method GetChildren(element: Option<Node>) returns (items: seq<Node>)
      ensures items == Children(element)
    {
      if element.None? {
        items := CommitNodes(analysisResults);
      } else if element.value.CommitNode? {
        items := CommitItems(element.value.display.graded, catalog);
      } else {
        items := [];
      }
    }
  }

  /** A failed request between two good ones leaves the tree as the first
      good one built it. */
  method FailureKeepsTree(first: seq<DisplayValue>, failure: AnalyzeResponse, catalog: map<int, Rule>)
    returns (before: seq<Node>, after: seq<Node>)
    requires !failure.AnalyzeOk?
    ensures before == after
    ensures |after| == |first|
  {
    var p := new AnalysisResultsProvider(catalog);
    p.Analyze(AnalyzeOk(first));
    before := p.GetChildren(None);
    p.Analyze(failure);
    after := p.GetChildren(None);
  }
}
