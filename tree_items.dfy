/** The tree view's pure presentation: header truncation, the chart colour
    of a grade, the commit item's label, description, tooltip and command,
    the overall-feedback previews, the rule-statistics items, which state a
    commit node opens in, and the children of a commit node. Both tree
    providers share these; where a provider keeps a local variant of an item
    class, the variant is modelled beside the shared one. */
module TreeItems {
  import opened Wrappers
  import opened Text
  import opened Models
  import opened RuleCatalog
  import opened Display
  import opened CommitAnalysis

  const ShortHeaderLength: nat := 50
  const Ellipsis := "..."

  /** `truncateHeader`. */
  function TruncateHeader(header: string): (r: string)
    ensures |r| <= ShortHeaderLength
    ensures |header| <= ShortHeaderLength ==> r == header
    ensures |header| > ShortHeaderLength ==>
      |r| == ShortHeaderLength && r[..47] == header[..47] && EndsWith(r, Ellipsis)
  {
    if |header| > ShortHeaderLength then
      var r := header[..47] + Ellipsis;
      assert r[..47] == header[..47];
      r
    else header
  }

  /** Truncating twice is truncating once. */
  lemma TruncateIdempotent(header: string)
    ensures TruncateHeader(TruncateHeader(header)) == TruncateHeader(header)
  {
  }

  const Foreground := "charts.foreground"

  /** `themeColor`: a chart colour for each grade, the foreground colour for
      anything else. */
  function ThemeColor(grade: int): (color: string)
    ensures (0 <= grade <= 5) <==> color != Foreground
  {
    if grade == 0 then "charts.red"
    else if grade == 1 then "charts.orange"
    else if grade == 2 then "charts.yellow"
    else if grade == 3 then "charts.green"
    else if grade == 4 then "charts.blue"
    else if grade == 5 then "charts.purple"
    else Foreground
  }

  /** The tree uses the same colour names as the HTML card, under the
      `charts.` prefix; the six grades get six different colours. */
  lemma ThemeColorMatchesCard(x: int, y: int)
    ensures 0 <= x <= 5 ==> ThemeColor(x) == "charts." + GradeColor(x)
    ensures 0 <= x <= 5 && 0 <= y <= 5 && x != y ==> ThemeColor(x) != ThemeColor(y)
  {
  }

  /** How a tree node is shown initially. */
  datatype Collapsible = NotCollapsible | Collapsed | Expanded

  /** The state a commit node opens in. */
  function CollapsibleState(g: Graded): Collapsible {
    if GradeOf(g.violations) < 5 then Expanded
    else if Truthy(g.bodySuggestion) || Truthy(g.suggestion) then Expanded
    else NotCollapsible
  }

  /** A commit node has no children to open exactly when it has no
      violation and no suggestion of either kind; it is never collapsed. */
  lemma CollapsibleStateSpec(g: Graded, catalog: map<int, Rule>)
    ensures CollapsibleState(g) == NotCollapsible <==>
      GradeOf(g.violations) == 5 && !Truthy(g.suggestion) && !Truthy(g.bodySuggestion)
    ensures CollapsibleState(g) == NotCollapsible <==> CommitChildren(g, catalog) == []
    ensures CollapsibleState(g) != Collapsed
  {
  }

  /** A node of the analysis tree. */
  datatype Node =
    | FeedbackRoot
    | StatsRoot
    | CommitsRoot(count: nat)
    | FeedbackPreview(preview: string)
    | RuleStatNode(stat: RuleStat)
    | CommitNode(display: DisplayValue, state: Collapsible)
    | ViolationNode(rule: int, name: string)
    | SuggestionNode(kind: string, text: string, grade: int)

  /** One row of the rule statistics. */
  datatype RuleStat = RuleStat(rule: int, name: string, count: int, total: int)

  /** One violation item per violation, in stored order, named from the
      catalog. */
  function ViolationNodes(violations: seq<Violation>, catalog: map<int, Rule>): (nodes: seq<Node>)
    ensures |nodes| == |violations|
    ensures forall i :: 0 <= i < |violations| ==>
      nodes[i] == ViolationNode(violations[i].rule, RuleName(catalog, violations[i].rule))
  {
    seq(|violations|, i requires 0 <= i < |violations| =>
      ViolationNode(violations[i].rule, RuleName(catalog, violations[i].rule)))
  }

  /** The children of a commit node: its violations, then the header
      suggestion when present, then the body suggestion when present. */
  function CommitChildren(g: Graded, catalog: map<int, Rule>): seq<Node> {
    var grade := GradeOf(g.violations);
    ViolationNodes(g.violations, catalog)
    + (if Truthy(g.suggestion) then [SuggestionNode("New Header", g.suggestion.value, grade)] else [])
    + (if Truthy(g.bodySuggestion) then [SuggestionNode("New Body", g.bodySuggestion.value, grade)] else [])
  }

  /** The children of a commit node in order: one violation item per
      violation, then at most the two suggestions, header first. */
  lemma CommitChildrenOrder(g: Graded, catalog: map<int, Rule>)
    ensures var items := CommitChildren(g, catalog);
      && |items| == |g.violations| + (if Truthy(g.suggestion) then 1 else 0) + (if Truthy(g.bodySuggestion) then 1 else 0)
      && (forall i :: 0 <= i < |g.violations| ==> items[i].ViolationNode? && items[i].rule == g.violations[i].rule)
      && (forall i :: |g.violations| <= i < |items| ==> items[i].SuggestionNode?)
      && (Truthy(g.suggestion) ==> items[|g.violations|].kind == "New Header" && items[|g.violations|].text == g.suggestion.value)
      && (Truthy(g.bodySuggestion) ==> items[|items| - 1].kind == "New Body" && items[|items| - 1].text == g.bodySuggestion.value)
  {
  }

  /** The items of a commit node, pushed violation by violation, then the
      header suggestion, then the body suggestion. */
  method CommitItems(g: Graded, catalog: map<int, Rule>) returns (items: seq<Node>)
    ensures items == CommitChildren(g, catalog)
  {
    var grade := GradeOf(g.violations);
    items := [];
    for i := 0 to |g.violations|
      invariant |items| == i
      invariant forall k :: 0 <= k < i ==>
        items[k] == ViolationNode(g.violations[k].rule, RuleName(catalog, g.violations[k].rule))
    {
      items := items + [ViolationNode(g.violations[i].rule, RuleName(catalog, g.violations[i].rule))];
    }
    if Truthy(g.suggestion) {
      items := items + [SuggestionNode("New Header", g.suggestion.value, grade)];
    }
    if Truthy(g.bodySuggestion) {
      items := items + [SuggestionNode("New Body", g.bodySuggestion.value, grade)];
    }
  }

  /** One commit node per display, in order, each opening in the state its
      verdict calls for. */
  function CommitNodes(results: seq<DisplayValue>): (nodes: seq<Node>)
    ensures |nodes| == |results|
    ensures forall i :: 0 <= i < |results| ==>
      nodes[i] == CommitNode(results[i], CollapsibleState(results[i].graded))
  {
    seq(|results|, i requires 0 <= i < |results| => CommitNode(results[i], CollapsibleState(results[i].graded)))
  }

  /** A commit node can be opened exactly when it has children to show. */
  lemma CommitNodesOpenIffChildren(results: seq<DisplayValue>, catalog: map<int, Rule>, i: nat)
    requires i < |results|
    ensures CommitNodes(results)[i].state != NotCollapsible <==>
      CommitChildren(CommitNodes(results)[i].display.graded, catalog) != []
  {
    CollapsibleStateSpec(results[i].graded, catalog);
  }

  /** A tree item's visible texts; `opens` is the url the item's command
      opens, if it has one. */
  datatype Item = Item(caption: string, description: string, tooltip: string, iconColor: string, opens: Option<string>)

  const Star := "\U{2606} "

  /** The rows of a commit item's tooltip. */
  function CommitTooltipRows(c: Commit, g: Graded): seq<string> {
    var grade := GradeOf(g.violations);
    [c.header] + (if c.body != "" then [c.body] else []) +
    ["",
     "Hash: " + c.commitHash,
     "Author: " + c.authorName,
     "Grade: " + IntToString(grade) + "/5",
     "Violations: " + IntToString(|g.violations|),
     "Header Suggestion: " + OrElse(g.suggestion, "None"),
     "Body Suggestion: " + OrElse(g.bodySuggestion, "None")]
  }

  /** `CommitTreeItem`: label, description, tooltip, icon and command of a
      commit. */
  function CommitItem(c: Commit, g: Graded): Item {
    var grade := GradeOf(g.violations);
    Item(TruncateHeader(c.header),
         Star + IntToString(grade) + "/5",
         Join(CommitTooltipRows(c, g), "\n"),
         ThemeColor(grade),
         if Truthy(c.url) then c.url else None)
  }

  /** The commit item shows the truncated header and the one-digit grade in
      its grade's colour; the tooltip opens with the header, has a body row
      only for a non-empty body, and ends with the suggestions or "None";
      the item opens the commit's url exactly when there is one. */
  lemma CommitItemShows(c: Commit, g: Graded)
    ensures var item := CommitItem(c, g);
      && item.caption == TruncateHeader(c.header)
      && |item.description| == 5 && item.description[2] == DigitChar(GradeOf(g.violations))
      && item.iconColor == ThemeColor(GradeOf(g.violations)) && item.iconColor != Foreground
      && (item.opens.Some? <==> Truthy(c.url)) && (item.opens.Some? ==> item.opens == c.url)
    ensures var rows := CommitTooltipRows(c, g);
      && |rows| == (if c.body != "" then 9 else 8)
      && rows[0] == c.header
      && (c.body != "" ==> rows[1] == c.body)
      && rows[|rows| - 2] == "Header Suggestion: " + OrElse(g.suggestion, "None")
      && rows[|rows| - 1] == "Body Suggestion: " + OrElse(g.bodySuggestion, "None")
    ensures c.header <= CommitItem(c, g).tooltip
  {
  }

  const CommitsRootPrefix := "Detailed View by Commit ("

  /** `CommitsRootItem`: the label carries the number of commits. */
  function CommitsRootLabel(count: nat): (text: string)
    ensures StartsAt(text, 0, CommitsRootPrefix) && EndsWith(text, ")")
    ensures StartsAt(text, |CommitsRootPrefix|, NatToString(count))
  {
    var text := CommitsRootPrefix + NatToString(count) + ")";
    assert text[..|CommitsRootPrefix|] == CommitsRootPrefix;
    assert text[|CommitsRootPrefix|..|CommitsRootPrefix| + |NatToString(count)|] == NatToString(count);
    text
  }

  /** The three characters `â€¦`: the UTF-8 bytes of an ellipsis read as
      Windows-1252 text. */
  const Mojibake := "\U{00E2}\U{20AC}\U{00A6}"
  const FeedbackPreviewLength: nat := 100
  const ClickSuffix := " (CLICK TO VIEW FULL TEXT)"
  const ClickPrefix := "(CLICK TO VIEW FULL TEXT) "

  /** The preview of `OverallFeedbackPreviewItem`: a comment over 100
      characters is cut to 100, the whitespace at both ends of that cut is
      dropped, and the three-character ellipsis is appended. */
  function FeedbackPreviewText(comment: string): (p: string)
    ensures |comment| <= FeedbackPreviewLength ==> p == comment
    ensures |comment| > FeedbackPreviewLength ==>
      |p| <= FeedbackPreviewLength + |Mojibake| && EndsWith(p, Mojibake) &&
      p[..|p| - |Mojibake|] == Trim(comment[..FeedbackPreviewLength])
  {
    if |comment| > FeedbackPreviewLength then
      var t := Trim(comment[..FeedbackPreviewLength]);
      var p := t + Mojibake;
      assert p[..|p| - |Mojibake|] == t;
      assert p[|p| - |Mojibake|..] == Mojibake;
      p
    else comment
  }

  /** The preview counts as shortened when it is shorter than the comment. */
  predicate Shortened(comment: string) {
    |FeedbackPreviewText(comment)| < |comment|
  }

  /** `OverallFeedbackPreviewItem`: the label gets the click hint exactly
      when the preview is shorter than the comment, and so does the
      tooltip, which otherwise shows the whole comment. */
  function FeedbackPreviewItem(comment: string): Item {
    var p := FeedbackPreviewText(comment);
    Item(p + (if Shortened(comment) then ClickSuffix else ""),
         "",
         if Shortened(comment) then ClickPrefix + p else comment,
         "charts.green",
         None)
  }

  /** Short comments are shown whole with no hint; long ones always carry
      the hint in both label and tooltip. */
  lemma FeedbackPreviewItemSpec(comment: string)
    ensures var item := FeedbackPreviewItem(comment);
      |comment| <= FeedbackPreviewLength ==> item.caption == comment && item.tooltip == comment
    ensures var item := FeedbackPreviewItem(comment);
      |comment| > FeedbackPreviewLength + |Mojibake| ==>
        Shortened(comment) && EndsWith(item.caption, ClickSuffix) && StartsAt(item.tooltip, 0, ClickPrefix)
  {
    var item := FeedbackPreviewItem(comment);
    if |comment| > FeedbackPreviewLength + |Mojibake| {
      var p := FeedbackPreviewText(comment);
      assert item.caption[|item.caption| - |ClickSuffix|..] == ClickSuffix;
      assert item.tooltip[..|ClickPrefix|] == ClickPrefix;
    }
  }

  /** Text with no whitespace at either end is its own trim. */
  lemma TrimUntrimmed(s: string)
    requires s != [] && !IsWhitespace(s[0]) && !IsWhitespace(s[|s| - 1])
    ensures Trim(s) == s
  {
  }

  /** A comment of 101 or 102 characters whose first hundred start and end
      with non-whitespace is cut, yet its preview is longer than the
      comment, so neither the label nor the tooltip says the text was cut. */
  lemma FeedbackPreviewCutWithoutHint(comment: string)
    requires FeedbackPreviewLength < |comment| < FeedbackPreviewLength + |Mojibake|
    requires !IsWhitespace(comment[0]) && !IsWhitespace(comment[FeedbackPreviewLength - 1])
    ensures FeedbackPreviewText(comment) != comment
    ensures !Shortened(comment)
    ensures FeedbackPreviewItem(comment).caption == FeedbackPreviewText(comment)
    ensures FeedbackPreviewItem(comment).tooltip == comment
  {
    var head := comment[..FeedbackPreviewLength];
    TrimUntrimmed(head);
    assert |FeedbackPreviewText(comment)| == FeedbackPreviewLength + |Mojibake|;
  }

  const ProviderPreviewLength: nat := 180
  const ProviderPreviewSuffix := " \U{2026} (click to view full text)"

  /** The preview the extension's provider puts under the feedback root: the
      first 180 characters and a click hint when the comment is longer, the
      comment itself otherwise (an absent comment reads as ""). */
  function ProviderPreview(comment: Option<string>): (p: string)
    ensures var c := if comment.Some? then comment.value else "";
      && (|c| <= ProviderPreviewLength ==> p == c)
      && (|c| > ProviderPreviewLength ==> c[..ProviderPreviewLength] <= p && EndsWith(p, ProviderPreviewSuffix))
      && |p| <= ProviderPreviewLength + |ProviderPreviewSuffix|
  {
    var c := if comment.Some? then comment.value else "";
    if |c| > ProviderPreviewLength then
      var p := c[..ProviderPreviewLength] + ProviderPreviewSuffix;
      assert p[|p| - |ProviderPreviewSuffix|..] == ProviderPreviewSuffix;
      assert p[..ProviderPreviewLength] == c[..ProviderPreviewLength];
      p
    else c
  }

  /** `count/total` as shown in the statistics items. */
  function Fraction(count: int, total: int): string {
    IntToString(count) + "/" + IntToString(total)
  }

  /** `RuleStatItem` of the statistics view: the rule number as label, the
      name's short title and the fraction as description, and a tooltip
      with the fraction, "commit" or "commits", and the full name. */
  function RuleStatItem(stat: RuleStat): Item {
    Item("Rule " + IntToString(stat.rule),
         BeforeChar(stat.name, ':') + (": " + Fraction(stat.count, stat.total)),
         "Violations found in " + Fraction(stat.count, stat.total) + " commit"
           + (if stat.count == 1 then "" else "s") + "\n\n" + stat.name,
         "charts.red",
         None)
  }

  /** The description begins with the text before the name's first ':'
      (the whole name when it has none) and shows the fraction after it. */
  lemma RuleStatDescription(stat: RuleStat)
    ensures var title := BeforeChar(stat.name, ':');
      && StartsAt(RuleStatItem(stat).description, 0, title) && ':' !in title
      && StartsAt(RuleStatItem(stat).description, |title|, ": " + Fraction(stat.count, stat.total))
  {
    ConcatParts(BeforeChar(stat.name, ':'), ": " + Fraction(stat.count, stat.total));
  }

  /** For a rule of either catalog, the short title shown is the rule's
      title. */
  lemma RuleStatShowsCatalogTitle(stat: RuleStat, catalog: map<int, Rule>)
    requires catalog == ExtensionRules || catalog == LegacyRules
    requires stat.rule in catalog && stat.name == RuleName(catalog, stat.rule)
    ensures BeforeChar(stat.name, ':') == catalog[stat.rule].title
  {
    CatalogShape(catalog, stat.rule);
  }

  /** The tooltip ends with the full name after a blank line and says
      "commit" rather than "commits" exactly for a count of one. */
  lemma RuleStatTooltip(stat: RuleStat)
    ensures EndsWith(RuleStatItem(stat).tooltip, "\n\n" + stat.name)
    ensures var at := |"Violations found in " + Fraction(stat.count, stat.total)|;
      stat.count == 1 <==> StartsAt(RuleStatItem(stat).tooltip, at, " commit\n")
  {
    TooltipParts("Violations found in " + Fraction(stat.count, stat.total),
                 if stat.count == 1 then "" else "s", stat.name);
  }

  /** The shape of the statistics tooltip, for any head and name. */
  lemma TooltipParts(head: string, plural: string, name: string)
    requires plural == "" || plural == "s"
    ensures var t := head + " commit" + plural + "\n\n" + name;
      && EndsWith(t, "\n\n" + name)
      && (plural == "" <==> StartsAt(t, |head|, " commit\n"))
  {
    var noun := " commit" + plural;
    var tail := "\n\n" + name;
    var t := head + " commit" + plural + "\n\n" + name;
    assert t == (head + noun) + tail;
    ConcatParts(head + noun, tail);
    assert t == head + (noun + tail);
    ConcatParts(head, noun + tail);
    var rest := noun + tail;
    if plural == "" {
      assert rest[..8] == " commit\n";
    } else {
      assert t[|head|..|head| + 8][7] == rest[7] == 's';
    }
  }

  /** The provider's own `RuleStatItem`: the rule and its name as label, the
      fraction as description. */
  function ProviderRuleStatItem(stat: RuleStat): (item: Item)
    ensures StartsAt(item.caption, |"Rule " + IntToString(stat.rule) + ": "|, stat.name)
    ensures item.description == Fraction(stat.count, stat.total)
  {
    var prefix := "Rule " + IntToString(stat.rule) + ": ";
    var caption := prefix + stat.name;
    assert caption[|prefix|..|prefix| + |stat.name|] == stat.name;
    Item(caption,
         Fraction(stat.count, stat.total),
         "Violations for \"" + stat.name + "\": " + IntToString(stat.count) + " of " + IntToString(stat.total) + " commits",
         "charts.red",
         None)
  }

  const AveragePrefix := "Average grade: \U{2606} "
  const NotAvailable := "N/A"

  /** `RuleStatsRootItem`'s description. The average is given as its
      formatted text, which holds no '/'. */
  function AverageDescription(average: Option<string>): string {
    AveragePrefix + (if average.Some? then average.value + "/5" else NotAvailable)
  }

  /** The description says "N/A" exactly when there is no average. */
  lemma AverageDescriptionSpec(average: Option<string>)
    requires average.Some? ==> '/' !in average.value
    ensures Contains(AverageDescription(average), NotAvailable) <==> average.None?
  {
    var d := AverageDescription(average);
    if average.None? {
      assert d[|AveragePrefix|..|AveragePrefix| + 3] == NotAvailable;
      assert StartsAt(d, |AveragePrefix|, NotAvailable);
    } else {
      var f := average.value;
      var slash := |AveragePrefix| + |f|;
      forall i | 0 <= i <= |d| && StartsAt(d, i, NotAvailable)
        ensures false
      {
        assert d[i + 1] == d[i..i + 3][1] == '/';
        assert d[i + 2] == d[i..i + 3][2] == 'A';
        SlashPosition(f, i + 1);
      }
    }
  }

  /** The only '/' of a description with an average is the one before
      "5". */
  lemma SlashPosition(f: string, k: int)
    requires '/' !in f
    requires 0 <= k < |AverageDescription(Some(f))| && AverageDescription(Some(f))[k] == '/'
    ensures k == |AveragePrefix| + |f| && AverageDescription(Some(f))[k + 1] == '5'
  {
    var d := AverageDescription(Some(f));
    assert d == AveragePrefix + f + "/5";
  }
}
