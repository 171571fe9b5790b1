/** The fixed grading rubric (`DefaultData.rules`) and the canned test
    commits (`DefaultData.testCommits`), in the extension's copy and in the
    older top-level copy. */
module RuleCatalog {
  import opened Text

  /** One rubric entry. Its text as stored in the source is
      "Title: explanation" (see `Description`). */
  datatype Rule = Rule(title: string, explanation: string)

  /** The stored description string of a rule. */
  function Description(r: Rule): string {
    r.title + ": " + r.explanation
  }

  const HeaderLengthText := "Must be 72 characters or less."
  const ImperativeToneText := "The header should use the imperative and start with a verb."
  const BodyConcisenessText := "The body should not be unnecessarily long. Including extra details is fine, but it should be concise and to the point."
  const GrammarText := "Use proper grammar (in header or body). Commits should be comprehensible and follow basic grammar rules."
  const ConsistencyText := "The language and style of a given commit must match that of other commits in the repo."

  /** The extension's rubric entries, rule 1 first. */
  const ExtensionRuleList: seq<Rule> := [
    Rule("Header length", HeaderLengthText),
    Rule("Imperative tone", ImperativeToneText),
    Rule("Body conciseness", BodyConcisenessText),
    Rule("Grammar", GrammarText),
    Rule("Consistency", ConsistencyText)
  ]

  /** The older rubric's entries: the same rules, with capitalised titles and
      no final period on rule 2. */
  const LegacyRuleList: seq<Rule> := [
    Rule("Header Length", HeaderLengthText),
    Rule("Imperative Tone", ImperativeToneText[..|ImperativeToneText| - 1]),
    Rule("Body Conciseness", BodyConcisenessText),
    Rule("Grammar", GrammarText),
    Rule("Consistency", ConsistencyText)
  ]

  /** A rubric keyed by rule number: entry `i` of `list` is rule `i + 1`. */
  function Numbered(list: seq<Rule>): (catalog: map<int, Rule>)
    ensures forall k :: k in catalog <==> 1 <= k <= |list|
    ensures forall k :: k in catalog ==> catalog[k] == list[k - 1]
  {
    if list == [] then map[]
    else Numbered(list[..|list| - 1])[|list| := list[|list| - 1]]
  }

  /** The extension's rubric. */
  const ExtensionRules: map<int, Rule> := Numbered(ExtensionRuleList)

  /** The older rubric. */
  const LegacyRules: map<int, Rule> := Numbered(LegacyRuleList)

  const UnknownRule := "Unknown rule"

  /** `rules.get(rule) || "Unknown rule"` (a stored description is never
      empty, so the fallback is taken exactly for unknown numbers). */
  function RuleName(catalog: map<int, Rule>, rule: int): (name: string)
    ensures rule in catalog ==> name == Description(catalog[rule])
    ensures rule !in catalog ==> name == UnknownRule
  {
    if rule in catalog && Description(catalog[rule]) != "" then Description(catalog[rule]) else UnknownRule
  }

  /** A description of the form "Title: text" with a non-empty title. */
  predicate Titled(description: string) {
    var title := BeforeChar(description, ':');
    title != [] && title != description
  }

  /** A well-formed rubric entry: a non-empty title without ':'. */
  predicate WellTitled(r: Rule) {
    r.title != [] && ':' !in r.title
  }

  lemma ExtensionRulesKeys()
    ensures ExtensionRules.Keys == {1, 2, 3, 4, 5}
  {
    assert |ExtensionRuleList| == 5;
  }

  lemma LegacyRulesKeys()
    ensures LegacyRules.Keys == {1, 2, 3, 4, 5}
  {
    assert |LegacyRuleList| == 5;
  }

  lemma ExtensionRulesWellTitled()
    ensures forall k :: k in ExtensionRules ==> WellTitled(ExtensionRules[k])
  {
    assert ExtensionRuleList[0].title == "Header length";
    assert ExtensionRuleList[1].title == "Imperative tone";
    assert ExtensionRuleList[2].title == "Body conciseness";
    assert ExtensionRuleList[3].title == "Grammar";
    assert ExtensionRuleList[4].title == "Consistency";
    assert forall i :: 0 <= i < |ExtensionRuleList| ==> WellTitled(ExtensionRuleList[i]);
  }

  lemma LegacyRulesWellTitled()
    ensures forall k :: k in LegacyRules ==> WellTitled(LegacyRules[k])
  {
    assert LegacyRuleList[0].title == "Header Length";
    assert LegacyRuleList[1].title == "Imperative Tone";
    assert LegacyRuleList[2].title == "Body Conciseness";
    assert LegacyRuleList[3].title == "Grammar";
    assert LegacyRuleList[4].title == "Consistency";
    assert forall i :: 0 <= i < |LegacyRuleList| ==> WellTitled(LegacyRuleList[i]);
  }

  /** Both catalogs cover exactly the rules 1 to 5, the text before the first
      ':' of every description is its title, and every other number is
      reported as "Unknown rule". */
  lemma CatalogShape(catalog: map<int, Rule>, rule: int)
    requires catalog == ExtensionRules || catalog == LegacyRules
    ensures catalog.Keys == {1, 2, 3, 4, 5}
    ensures forall k :: k in catalog ==>
      BeforeChar(Description(catalog[k]), ':') == catalog[k].title && Titled(Description(catalog[k]))
    ensures !(1 <= rule <= 5) ==> RuleName(catalog, rule) == UnknownRule
    ensures 1 <= rule <= 5 ==> RuleName(catalog, rule) == Description(catalog[rule])
  {
    if catalog == ExtensionRules {
      ExtensionRulesKeys();
      ExtensionRulesWellTitled();
    } else {
      LegacyRulesKeys();
      LegacyRulesWellTitled();
    }
    forall k | k in catalog
      ensures BeforeChar(Description(catalog[k]), ':') == catalog[k].title && Titled(Description(catalog[k]))
    {
      DescriptionIsTitled(catalog[k]);
    }
  }

  /** The text before the first ':' of "Title: text" is the title, as long as
      the title itself holds no ':'. */
  lemma {:induction false} DescriptionIsTitled(r: Rule)
    requires WellTitled(r)
    ensures BeforeChar(Description(r), ':') == r.title
    ensures Titled(Description(r))
    decreases |r.title|
  {
    var d := Description(r);
    if |r.title| == 1 {
      assert d == [r.title[0]] + ": " + r.explanation;
      assert BeforeChar(d, ':') == [r.title[0]] + BeforeChar(d[1..], ':');
    } else {
      var rest := Rule(r.title[1..], r.explanation);
      DescriptionIsTitled(rest);
      assert d == [r.title[0]] + Description(rest);
    }
    assert d[|r.title|] == ':';
  }

  /** One canned commit of the extension's test data. */
  datatype TestCommit = TestCommit(
    commit: string, header: string, body: string,
    url: string, author: string, branch: string)

  /** One canned commit of the older test data: only commit, header, body. */
  datatype LegacyTestCommit = LegacyTestCommit(commit: string, header: string, body: string)

  const TestHeaders: seq<string> := [
    "Fix Gemini test (add responseSchema)",
    "Implement Gemini API test usage",
    "Implement base NodeJS+TS server with .env for API keys",
    "Create README.md",
    "Prepared files for fixing icon display on Google Pixel (adding dynamic icon).",
    "Working on implementing multiple overlayed Bible ChapterIndex widgets instead of conditional loading of one or the other to overcome scroll issues, but it's causing tons of GlobalKey issues instead.",
    "Tried to implement light search pre-indexing that would skip first N indexes until firstindex of any word longer than 3 characters."
  ]

  const TestHashes: seq<string> := [
    "b15c94a604b69ed8061a590729848c4e195ee33d",
    "90105ce7d1577ff6e07bd93f0d3d3cbc07c395d9",
    "547a02cea112ceed75448e14e0f6813409309536",
    "f1526885326d6551e92fdd86ecec6d894b6fb50e",
    "6d168670dffbd1b6f5ef050afedd230730351e7f",
    "c7e2090cab3e5ff5ea3c66de86c00ce8753bcd01",
    "b4797d3f91c774ac3dfbe69f1bc399b83db6c6a7"
  ]

  const LastTestBody := "Works but has additional lag after several characters for no discernible clear reason. Given the current way the indexing is implemented, it needs to rehash the index at the start; this should be hardcoded instead by fixing the indexer code and rerunning it."

  function TestBody(i: nat): string {
    if i == 6 then LastTestBody else ""
  }

  /** The extension's `testCommits`, before `JSON.stringify`. */
  const ExtensionTestCommits: seq<TestCommit> :=
    seq(7, i requires 0 <= i < 7 =>
      TestCommit(TestHashes[i], TestHeaders[i], TestBody(i),
                 "https://github.com/jfletcher20/commitment-issues", "imateapot", "main"))

  /** The older `testCommits`, before `JSON.stringify`. */
  const LegacyTestCommits: seq<LegacyTestCommit> :=
    seq(7, i requires 0 <= i < 7 => LegacyTestCommit(TestHashes[i], TestHeaders[i], TestBody(i)))

  /** Number of headers longer than `limit` characters. */
  function CountLongHeaders(headers: seq<string>, limit: int): (n: nat)
    ensures n <= |headers|
  {
    if headers == [] then 0
    else (if |headers[0]| > limit then 1 else 0) + CountLongHeaders(headers[1..], limit)
  }

  /** Both test sets hold the same seven commits' hashes and headers. */
  lemma TestCommitsAgree()
    ensures |ExtensionTestCommits| == 7 && |LegacyTestCommits| == 7
    ensures forall i :: 0 <= i < 7 ==>
      && ExtensionTestCommits[i].header == LegacyTestCommits[i].header == TestHeaders[i]
      && ExtensionTestCommits[i].commit == LegacyTestCommits[i].commit == TestHashes[i]
  {
  }

  /** Exactly the last three test headers (entries 5 to 7) exceed the
      72-character limit. */
  lemma TestHeaderLengths()
    ensures |TestHeaders| == 7
    ensures forall i :: 0 <= i < 7 ==> (|TestHeaders[i]| > 72 <==> i >= 4)
  {
    assert |TestHeaders[0]| == 36 && |TestHeaders[1]| == 31 && |TestHeaders[2]| == 54;
    assert |TestHeaders[3]| == 16 && |TestHeaders[4]| == 77 && |TestHeaders[5]| == 198;
    assert |TestHeaders[6]| == 131;
  }

  /** So three of the seven test commits break rule 1. */
  lemma LongTestHeaders()
    ensures CountLongHeaders(TestHeaders, 72) == 3
  {
    TestHeaderLengths();
    calc {
      CountLongHeaders(TestHeaders, 72);
      CountLongHeaders(TestHeaders[1..], 72);
      CountLongHeaders(TestHeaders[2..], 72);
      CountLongHeaders(TestHeaders[3..], 72);
      CountLongHeaders(TestHeaders[4..], 72);
      1 + CountLongHeaders(TestHeaders[5..], 72);
      2 + CountLongHeaders(TestHeaders[6..], 72);
      3 + CountLongHeaders(TestHeaders[7..], 72);
    }
  }
}
