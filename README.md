# Commit grading, reconciled and displayed — a Dafny model

Commitment Issues grades a repository's commit messages against five rules
(header length, imperative tone, body conciseness, grammar, consistency).
It fetches the commits from GitHub and asks Gemini for a verdict per commit:
the broken rules and an optional header and body suggestion. Before
showing a verdict it corrects it deterministically. This project models
that post-processing and the pure logic around it:

- **Grade.** `max(0, 5 - |violations|)` in the current graded-commit record.
  The older display computes `5 - |violations|` with no floor.
- **Reconciliation.** The `GradedCommitDisplay` constructor rewrites the
  verdict in place:
  - drops a header suggestion similar to the header, and rule-2 with it;
  - drops a body suggestion similar to the body;
  - forces rule 1 on a header over 72 characters;
  - forces rule 3 on a drastically shorter body suggestion;
  - sorts the violations.
  "Similar" means equal, or within Levenshtein distance 1, after removing
  whitespace. The constructor is a `class` whose constructor mutates a
  `GradedCommit` object. It is proved equal to a pure `Reconcile` function,
  and that function is proved idempotent, order-establishing and
  count-preserving. The Levenshtein matrix loop is a method proved equal to
  a recursive definition of the distance.
- **Join.** `analyzeCommitsFromRepo` pairs each AI entry with the first
  commit of the same hash. It rejects as a whole when the AI text does not
  parse or a hash is unmatched. The array it searches is the one it handed
  to the AI call. The extension's Gemini rewrites that array in place, so
  there the displays carry the marked headers, and a suggestion is
  compared with the marked header.
- **Prompt preparation.** Gemini's in-place `|72|` marker on long headers
  is a loop over an array. The model also covers the open-tasks flag and
  the system instructions evaluated once at class initialisation, the
  special rules, and the style-comment sample and author clause.
- **Repository URLs.** `parseRepoUrl` splits a URL with an unanchored,
  greedy regular expression. It is modelled as a matcher proved equal to a
  declarative reading of the pattern.
- **Presentation.**
  - The HTML card (which parts are escaped, fallback texts, colours, link).
  - HTML escaping, with its inverse.
  - The tree items of the VS Code views (labels, descriptions, tooltips,
    previews, statistics).
  - The two tree data providers: classes whose `analyze` updates their
    fields and whose `getChildren` builds the node lists by pushing.
- **Configuration and routes.** The settings getters and their
  placeholders, `isValid`, the route guards, and the JSON-or-HTML answer
  of the analysis route.

Strings are `seq<char>`, one character per UTF-16 unit. The 60% test
`|bs| < |body| * 0.6` is written `5 * |bs| < 3 * |body|`, which agrees on
integer lengths. `undefined` is `None` of an `Option`. JavaScript
truthiness of a string is "defined and non-empty" (`Text.Truthy`). The
network, the AI and `JSON.parse` are inputs: the fetched commits, and the
parsed AI answer, `None` when it does not parse.

Files:
- `models.dfy`: commit and verdict values, the grade, the `GradedCommit`
  record.
- `violations.dfy`: filter, add-if-missing, sort.
- `similarity.dfy`: Levenshtein and similarity.
- `reconciler.dfy`: the reconciling display.
- `html_escape.dfy`, `display.dfy`: the card.
- `commit_analysis.dfy`: the join.
- `legacy_display.dfy`: the older display.
- `prompt_builder.dfy`: Gemini's prompt preparation.
- `extension_backend.dfy`: the join after the extension's Gemini call.
- `github_api.dfy`: URL parsing and message extraction.
- `rule_catalog.dfy`: both rule catalogs and test data.
- `tree_items.dfy`: tree items.
- `extension_provider.dfy`, `frontend_provider.dfy`: the data providers.
- `settings.dfy`: the settings getters.
- `routes.dfy`: guards and answers.
- `text.dfy`, `wrappers.dfy`: string helpers, `Option` and `Result`.

## Model

| member | source | states |
|---|---|---|
| Models.GradeOf | commitment-issues-vscode-extension/src/backend/src/models/graded_commit.ts:13-15 | the grade lies in 0..5; it is 5 minus the number of violation entries (duplicates counted) when there are at most five, 0 from five on, and 5 exactly when there are none |
| Models.GradeAntitone | commitment-issues-vscode-extension/src/backend/src/models/graded_commit.ts:13-15 | adding a violation never raises the grade and lowers a positive grade by exactly one |
| Models.GradedCommit.constructor | commitment-issues-vscode-extension/src/backend/src/models/graded_commit.ts:2-12 | the record stores the hash, violations and both suggestions unchanged |
| Models.GradedCommit.Grade | commitment-issues-vscode-extension/src/backend/src/models/graded_commit.ts:13-15 | the `grade` getter is always between 0 and 5 |
| Violations.WithoutRule | frontend/commitment-issues/src/backend/src/presentation/graded_commit_display.ts:12 | the filter removes every entry of the given rule and keeps every other entry with its multiplicity |
| Violations.EnsureRule | frontend/commitment-issues/src/backend/src/presentation/graded_commit_display.ts:22 | after the `some`/`push` step the rule is present; one entry of it is added only when there was none, nothing else changes |
| Violations.Insert | frontend/commitment-issues/src/backend/src/presentation/graded_commit_display.ts:30 | inserting into a list sorted by rule keeps it sorted and adds exactly the new entry |
| Violations.SortByRule | frontend/commitment-issues/src/backend/src/presentation/graded_commit_display.ts:30 | the sort returns the same multiset of violations in ascending rule order |
| Violations.SortSorted | frontend/commitment-issues/src/backend/src/presentation/graded_commit_display.ts:30 | sorting an already sorted list leaves it unchanged |
| Violations.SortedPermutationUnique | frontend/commitment-issues/src/backend/src/presentation/graded_commit_display.ts:30 | two sorted lists holding the same violations are equal, so the sorted result is determined by its contents |
| Similarity.DistSymmetric | frontend/commitment-issues/src/backend/src/presentation/graded_commit_display.ts:41-58 | every cell of the edit-distance table is symmetric in the two strings |
| Similarity.DistLowerBound | frontend/commitment-issues/src/backend/src/presentation/graded_commit_display.ts:41-58 | a cell is at least the difference of the two prefix lengths |
| Similarity.DistUpperBound | frontend/commitment-issues/src/backend/src/presentation/graded_commit_display.ts:41-58 | a cell is at most the longer prefix length |
| Similarity.DistZero | frontend/commitment-issues/src/backend/src/presentation/graded_commit_display.ts:41-58 | a cell is 0 exactly when the two prefixes are equal |
| Similarity.DistAtMostMismatches | frontend/commitment-issues/src/backend/src/presentation/graded_commit_display.ts:41-58 | for equal-length prefixes the distance is at most the number of differing positions |
| Similarity.DistanceProperties | frontend/commitment-issues/src/backend/src/presentation/graded_commit_display.ts:41-58 | d(a,a)=0, d(a,"")=d("",a)=&#124;a&#124;, symmetry, &#124;&#124;a&#124;-&#124;b&#124;&#124; <= d <= max(&#124;a&#124;,&#124;b&#124;), d=0 iff a=b, and d is at most the Hamming distance |
| Similarity.LevenshteinDistance | frontend/commitment-issues/src/backend/src/presentation/graded_commit_display.ts:41-58 | the matrix-filling loops return the Levenshtein distance of the two strings |
| Similarity.SimilarProperties | frontend/commitment-issues/src/backend/src/presentation/graded_commit_display.ts:33-39 | similarity is symmetric, false when either side is undefined or empty, and otherwise holds iff the whitespace-stripped strings are within distance 1 (equal included) |
| Similarity.AreStringsSimilar | frontend/commitment-issues/src/backend/src/presentation/graded_commit_display.ts:33-39 | the method returns exactly the similarity predicate |
| Text.StripWhitespace | frontend/commitment-issues/src/backend/src/presentation/graded_commit_display.ts:35-36 | removing `\s+` gives a string no longer than the input with no whitespace left |
| Text.StripKeepsOthers | frontend/commitment-issues/src/backend/src/presentation/graded_commit_display.ts:35-36 | every non-whitespace character is kept exactly as often as it occurs, and every whitespace character is removed |
| Text.StripConcat | frontend/commitment-issues/src/backend/src/presentation/graded_commit_display.ts:35-36 | stripping a concatenation is the concatenation of the stripped parts, so the kept characters stay in their order |
| Text.OrElse | frontend/commitment-issues/src/backend/src/presentation/graded_commit_display.ts:127 | the logical-or fallback yields the value when it is a non-empty string and the fallback otherwise |
| Text.Trim | commitment-issues-extension/src/frontend/analysis_tree/presentation/simple_analysis_view/overall_feedback_item.ts:19 | `trim` returns the piece of its input that is left once the whitespace before and after it is cut, and that piece neither starts nor ends with whitespace |
| Text.TrimUnique | commitment-issues-extension/src/frontend/analysis_tree/presentation/simple_analysis_view/overall_feedback_item.ts:19 | any piece with only whitespace around it and none at its own ends is the trim, so the trim is fully determined |
| Text.BeforeChar | commitment-issues-extension/src/frontend/analysis_tree/presentation/simple_analysis_view/rule_stat_item.ts:25 | `split(c)[0]` is a prefix free of c that is the whole string or is followed by c |
| Text.Join | commitment-issues-extension/src/backend/src/app.ts:78 | the join of one piece is that piece, and a join of several starts with the first piece and ends with the last |
| Text.JoinCons | commitment-issues-extension/src/backend/src/app.ts:78 | a list of two or more pieces joins as the first piece, the separator, then the join of the rest |
| Text.JoinConcat | commitment-issues-extension/src/backend/src/app.ts:78 | joining two non-empty lists gives the two joins with one separator between them |
| RuleCatalog.Numbered | commitment-issues-extension/src/backend/src/ai/defaultdata.ts:2-8 | the catalog maps exactly the numbers 1..n to the listed rules in order |
| RuleCatalog.RuleName | frontend/commitment-issues/src/backend/src/presentation/graded_commit_display.ts:115-121 | a catalogued rule is shown with its description, any other number as "Unknown rule" |
| RuleCatalog.ExtensionRulesKeys | commitment-issues-extension/src/backend/src/ai/defaultdata.ts:2-8 | the extension's catalog has exactly the keys 1 to 5 |
| RuleCatalog.LegacyRulesKeys | src/defaultdata.ts:2-8 | the older catalog has exactly the keys 1 to 5 |
| RuleCatalog.ExtensionRulesWellTitled | commitment-issues-extension/src/backend/src/ai/defaultdata.ts:3-7 | every rule of the extension's catalog has a colon-free title before its text |
| RuleCatalog.LegacyRulesWellTitled | src/defaultdata.ts:3-7 | every rule of the older catalog has a colon-free title before its text |
| RuleCatalog.DescriptionIsTitled | commitment-issues-extension/src/backend/src/ai/defaultdata.ts:3-7 | a description of the form "Title: text" splits at its first ':' into exactly its title |
| RuleCatalog.CatalogShape | commitment-issues-extension/src/backend/src/ai/defaultdata.ts:2-8 | for either catalog: keys 1..5, each description starts with its title and a ':', numbers outside 1..5 are named "Unknown rule" |
| RuleCatalog.TestCommitsAgree | commitment-issues-extension/src/backend/src/ai/defaultdata.ts:9-70 | both test-commit constants hold the same seven headers and hashes |
| RuleCatalog.TestHeaderLengths | src/defaultdata.ts:9-49 | of the seven test headers exactly the last three exceed 72 characters |
| RuleCatalog.LongTestHeaders | commitment-issues-extension/src/backend/src/ai/defaultdata.ts:9-70 | exactly three test headers are over 72 characters |
| HtmlEscape.Escape | frontend/commitment-issues/src/backend/src/presentation/graded_commit_display.ts:157-174 | the escaped text holds no raw `< > " '`, every '&' starts an entity, and text with no special character is unchanged |
| HtmlEscape.UnescapeEscape | frontend/commitment-issues/src/backend/src/presentation/graded_commit_display.ts:157-174 | decoding the escaped text restores the input, for both apostrophe entities |
| Display.GradeColor | frontend/commitment-issues/src/backend/src/presentation/graded_commit_display.ts:138-155 | 0..5 get the six card colours and every other value gray |
| Display.GradeColorsDistinct | frontend/commitment-issues/src/backend/src/presentation/graded_commit_display.ts:138-155 | different grades in 0..5 get different colours and a computed grade is never gray |
| Display.ViolationLines | frontend/commitment-issues/src/backend/src/presentation/graded_commit_display.ts:115-121 | one line per violation in stored order, named from the catalog or "Unknown rule" |
| Display.CardPage | frontend/commitment-issues/src/backend/src/presentation/graded_commit_display.ts:96-132 | the page shows header and body exactly as given, markup included; the hash and each suggestion (or its fallback text) reach the page with no raw `<`, `>`, quote or apostrophe and decode back to that text |
| Display.CardColors | frontend/commitment-issues/src/backend/src/presentation/graded_commit_display.ts:110-131 | a suggestion line is greyed exactly when the suggestion is missing or empty; the grade uses its grade colour |
| Display.CardLink | frontend/commitment-issues/src/backend/src/presentation/graded_commit_display.ts:72-82 | the card is a link exactly when the url is defined, to "#" when it is empty |
| Reconciler.ReconcileUnfold | frontend/commitment-issues/src/backend/src/presentation/graded_commit_display.ts:10-30 | reconciliation is the five steps in source order |
| Reconciler.ReconcileSuggestions | frontend/commitment-issues/src/backend/src/presentation/graded_commit_display.ts:11-18 | the hash is kept; each suggestion is cleared exactly when it is similar to the header or body, else kept |
| Reconciler.ReconcileCounts | frontend/commitment-issues/src/backend/src/presentation/graded_commit_display.ts:11-28 | rule-2 entries vanish exactly when the header suggestion was similar; rule 1 and rule 3 are added once when required and missing; all other entries are kept with their multiplicity |
| Reconciler.ReconcileGuarantees | frontend/commitment-issues/src/backend/src/presentation/graded_commit_display.ts:21-30 | a header over 72 characters always carries rule 1, a drastically shorter surviving body suggestion rule 3, a similar header suggestion leaves no rule 2, and the result is sorted |
| Reconciler.ReconcileKeepsRulesDistinct | frontend/commitment-issues/src/backend/src/presentation/graded_commit_display.ts:12-30 | input without duplicate rule numbers gives output without them |
| Reconciler.ReconcileIdempotent | frontend/commitment-issues/src/backend/src/presentation/graded_commit_display.ts:10-30 | reconciling the reconciled verdict again changes nothing |
| Reconciler.GradedCommitDisplay.constructor | frontend/commitment-issues/src/backend/src/presentation/graded_commit_display.ts:5-31 | the constructor keeps the commit and rewrites the graded commit in place to the reconciliation of its old value |
| Reconciler.GradedCommitDisplay.Html | frontend/commitment-issues/src/backend/src/presentation/graded_commit_display.ts:69-136 | the card shows the reconciled grade (0..5, never gray) and one line per violation; it is a link exactly when the commit's url is defined, to "#" for an empty url and to the url otherwise |
| CommitAnalysis.FindByHash | frontend/commitment-issues/src/backend/src/functionality/commit_analysis.ts:38-40 | `find` returns the first fetched commit with the hash, or nothing when none has it |
| CommitAnalysis.PairOf | frontend/commitment-issues/src/backend/src/functionality/commit_analysis.ts:37-43 | an entry is paired with a fetched commit carrying its hash |
| CommitAnalysis.ReconcileAll | frontend/commitment-issues/src/backend/src/functionality/commit_analysis.ts:37-43 | one display per entry |
| CommitAnalysis.ReconcileAllAt | frontend/commitment-issues/src/backend/src/functionality/commit_analysis.ts:37-43 | each display holds its commit and the reconciled verdict |
| CommitAnalysis.JoinPrefixSpec | frontend/commitment-issues/src/backend/src/functionality/commit_analysis.ts:27-43 | the join succeeds iff every entry is joinable, then gives each entry's pair in order; a failure is the first unjoinable entry's error |
| CommitAnalysis.JoinPrefixFailureStands | frontend/commitment-issues/src/backend/src/functionality/commit_analysis.ts:37-43 | once an entry fails, later entries do not change the outcome: the whole call rejects |
| CommitAnalysis.AnalyzeSucceeds | frontend/commitment-issues/src/backend/src/functionality/commit_analysis.ts:25-43 | unparseable AI text rejects; otherwise the call succeeds iff every entry has a hash and violations and its hash matches a fetched commit |
| CommitAnalysis.AnalyzeValues | frontend/commitment-issues/src/backend/src/functionality/commit_analysis.ts:27-43 | one display per AI entry in AI order, paired with the first fetched commit of its hash, holding the reconciled verdict built from its four fields |
| CommitAnalysis.AnalyzeOmitsUnnamed | frontend/commitment-issues/src/backend/src/functionality/commit_analysis.ts:37-45 | a fetched commit no AI entry names does not appear in the output |
| CommitAnalysis.JoinPrefixIgnoresOtherKeys | frontend/commitment-issues/src/backend/src/functionality/commit_analysis.ts:27-35 | joining any prefix of two responses that agree on the four keys read gives the same outcome |
| CommitAnalysis.OtherKeysIgnored | frontend/commitment-issues/src/backend/src/functionality/commit_analysis.ts:27-35 | two AI responses that agree entry by entry on hash, violations and both suggestions give the same analysis, whatever other keys they carry |
| CommitAnalysis.DisplaysAreStable | frontend/commitment-issues/src/backend/src/functionality/commit_analysis.ts:37-43 | every display the analysis returns is a fixed point of reconciliation |
| CommitAnalysis.ReconcileAllStable | frontend/commitment-issues/src/frontend/analysis_tree/data/analysis_results_data_provider.ts:29-48 | rebuilding displays that are already reconciled reproduces them |
| CommitAnalysis.RebuiltDisplaysUnchanged | frontend/commitment-issues/src/frontend/analysis_tree/data/analysis_results_data_provider.ts:29-48 | the frontend's rebuild of the backend's displays changes none of them |
| LegacyDisplay.DisplayedGradeVsGrade | src/graded_commit_display.ts:12-14 | the unfloored grade equals the floored one up to five violations, is negative beyond, and is coloured gray exactly then |
| LegacyDisplay.Property | src/graded_commit.ts:1-13 | reading a string-valued property of the older record: `commit`, `suggestion` and `bodySuggestion` give their values, any other name (such as `commitHash`) is undefined |
| LegacyDisplay.EscapeArgument | src/graded_commit_display.ts:110-127 | escaping succeeds exactly on a defined string and decodes back to it; an undefined argument throws |
| LegacyDisplay.GetHtmlAsWrittenThrows | src/graded_commit_display.ts:55 | as written, every card fails: the hash is read from a property the record lacks |
| LegacyDisplay.CardOfHash | src/graded_commit_display.ts:55 | the corrected card shows the escaped `commit` hash, which decodes back to it |
| LegacyDisplay.CardOfGrade | src/graded_commit_display.ts:12-14 | the card shows 5 minus the number of violations, gray exactly for more than five |
| LegacyDisplay.CardOfLink | src/graded_commit_display.ts:16-29 | the card is a link exactly when the url is defined, to "#" when it is empty |
| LegacyDisplay.LegacyShowsUnreconciled | src/graded_commit_display.ts:6-9 | no reconciliation: a header over 72 characters reported without violations still shows grade 5, no lines, purple |
| PromptBuilder.MarkHeader | commitment-issues-extension/src/backend/src/ai/gemini.ts:121-124 | a header of at most 72 characters is unchanged; a longer one grows by 4 with "&#124;72&#124;" at offset 72 |
| PromptBuilder.MarkHeaderRoundTrip | commitment-issues-extension/src/backend/src/ai/gemini.ts:121-124 | deleting the four characters at offset 72 restores a marked header |
| PromptBuilder.MarkHeaderTwice | commitment-issues-extension/src/backend/src/ai/gemini.ts:120-125 | marking twice inserts a second marker, so the rewrite is not idempotent |
| PromptBuilder.MarkAll | commitment-issues-extension/src/backend/src/ai/gemini.ts:120-125 | every commit is replaced by its marked version, in order |
| PromptBuilder.MarkAllChangesOnlyLongHeaders | commitment-issues-extension/src/backend/src/ai/gemini.ts:120-125 | only the header changes, and a commit is unchanged iff its header has at most 72 characters |
| ExtensionBackend.FindByHashMarked | frontend/commitment-issues/src/backend/src/functionality/commit_analysis.ts:38-40 | marking the headers moves no hash, so `find` returns the same position in the rewritten array |
| ExtensionBackend.AnalyzeShowsMarkedHeaders | frontend/commitment-issues/src/backend/src/functionality/commit_analysis.ts:23-43 | the array searched is the one the AI call rewrote: on success each display holds the fetched commit of its entry's hash with its header marked |
| ExtensionBackend.StripMarked | commitment-issues-extension/src/backend/src/ai/gemini.ts:120-125 | the whitespace-free form of a marked long header is four characters longer than the header's |
| ExtensionBackend.MarkedHeaderDissimilar | commitment-issues-extension/src/backend/src/ai/gemini.ts:120-125 | a long header and its marked form are never similar, in either order |
| ExtensionBackend.RepeatedLongHeaderKept | frontend/commitment-issues/src/backend/src/functionality/commit_analysis.ts:23-43 | a header suggestion repeating a long fetched header would be dropped with rule 2 against the fetched commit, but against the marked commit it is kept and rule 2 keeps its count |
| PromptBuilder.InstructionsWith | commitment-issues-extension/src/backend/src/ai/gemini.ts:20-48 | the instructions hold the open-tasks sentence for the given flag |
| PromptBuilder.InstructionsDependOnFlag | commitment-issues-extension/src/backend/src/ai/gemini.ts:34-36 | the two flag values give different instructions |
| PromptBuilder.SpecialRules | commitment-issues-extension/src/backend/src/ai/gemini.ts:54-58 | "" iff no special rules are configured; otherwise the text contains them |
| PromptBuilder.Gemini.constructor | commitment-issues-extension/src/backend/src/ai/gemini.ts:18-48 | the flag starts false and the instructions are evaluated with it |
| PromptBuilder.Gemini.SystemInstructions | commitment-issues-extension/src/backend/src/ai/gemini.ts:60-64 | "" when the override is set, else the stored instructions |
| PromptBuilder.Gemini.AnalyzeCommits | commitment-issues-extension/src/backend/src/ai/gemini.ts:115-125 | the array is rewritten in place to the marked commits; the flag takes the first commit's value, and an empty list leaves it |
| PromptBuilder.InstructionsAreStale | commitment-issues-extension/src/backend/src/ai/gemini.ts:18-36 | after a list whose first commit has open tasks the flag is true but the instructions still say "does not have" |
| PromptBuilder.StyleSample | commitment-issues-extension/src/backend/src/ai/gemini.ts:143-146 | min(50, n) entries in input order, each with the header and the body's first min(160, length) characters |
| PromptBuilder.ShortBodiesSampledWhole | commitment-issues-extension/src/backend/src/ai/gemini.ts:145 | a body of at most 160 characters is sampled whole |
| PromptBuilder.AuthorClause | commitment-issues-extension/src/backend/src/ai/gemini.ts:152-154 | the author clause is empty iff no author is given, else addresses the author by name |
| PromptBuilder.AuthorClauseAddresses | commitment-issues-extension/src/backend/src/ai/gemini.ts:152-154 | the clause contains "Address the author by name" iff the author is a non-empty string |
| GithubApi.MatchAtSound | src/github_api.ts:8 | groups captured at an offset satisfy the declarative reading of the pattern |
| GithubApi.MatchAtComplete | src/github_api.ts:8 | wherever the pattern holds, the matcher captures exactly those groups |
| GithubApi.FindMatch | src/github_api.ts:8 | the search returns the leftmost offset where the pattern matches, or none |
| GithubApi.ParseRepoUrl | src/github_api.ts:7-13 | failure carries "Invalid GitHub repository URL."; success gives a non-empty, '/'-free owner and repository |
| GithubApi.ParseRepoUrlSpec | src/github_api.ts:8-12 | the parse fails iff the pattern occurs nowhere; otherwise it returns the groups of the leftmost occurrence |
| GithubApi.FirstMatchAt | src/github_api.ts:8-12 | the first `github.com/` occurrence decides the result |
| GithubApi.ParseCanonical | src/github_api.ts:8-12 | `https://github.com/<owner>/<repo>` with any deeper path parses to that owner and repository, the repository kept whole |
| GithubApi.ParseDocExample | src/github_api.ts:3-8 | the documented example gives owner "user" and repository "repo" |
| GithubApi.ParseKeepsGitSuffix | src/github_api.ts:8 | a trailing ".git" stays in the repository name |
| GithubApi.ParseIgnoresDeeperPath | src/github_api.ts:8 | path segments after the repository are ignored |
| GithubApi.Messages | src/github_api.ts:33 | one message per response entry, in response order |
| GithubApi.MessagesAppend | src/github_api.ts:33 | the messages of a joined response are the joined messages |
| TreeItems.TruncateHeader | commitment-issues-extension/src/frontend/analysis_tree/data/analysis_results_data_provider.ts:254-256 | at most 50 characters; a header of at most 50 is unchanged, a longer one becomes its first 47 characters and "..." |
| TreeItems.TruncateIdempotent | commitment-issues-extension/src/frontend/analysis_tree/data/analysis_results_data_provider.ts:254-256 | truncating twice equals truncating once |
| TreeItems.ThemeColor | commitment-issues-extension/src/frontend/analysis_tree/data/analysis_results_data_provider.ts:235-252 | 0..5 get a chart colour and anything else `charts.foreground` |
| TreeItems.ThemeColorMatchesCard | frontend/commitment-issues/src/frontend/analysis_tree/data/analysis_results_data_provider.ts:115-125 | each grade's chart colour is the card colour of that grade, so the six are distinct |
| TreeItems.CollapsibleStateSpec | commitment-issues-extension/src/frontend/analysis_tree/data/analysis_results_data_provider.ts:171-177 | a commit node is not collapsible iff grade 5 and no suggestion of either kind, iff it has no children; it never starts collapsed |
| TreeItems.ViolationNodes | commitment-issues-extension/src/frontend/analysis_tree/data/analysis_results_data_provider.ts:193-205 | one item per violation in stored order, named from the catalog or "Unknown rule" |
| TreeItems.CommitChildrenOrder | commitment-issues-extension/src/frontend/analysis_tree/data/analysis_results_data_provider.ts:189-229 | a commit's children are its violations in order, then the header suggestion if present, then the body suggestion if present |
| TreeItems.CommitItems | frontend/commitment-issues/src/frontend/analysis_tree/data/analysis_results_data_provider.ts:79-110 | the push loops build exactly those children |
| TreeItems.CommitNodes | frontend/commitment-issues/src/frontend/analysis_tree/data/analysis_results_data_provider.ts:63-78 | one commit node per stored result, in order, in the state its verdict calls for |
| TreeItems.CommitNodesOpenIffChildren | frontend/commitment-issues/src/frontend/analysis_tree/data/analysis_results_data_provider.ts:66-70 | a commit node can be opened iff it has children |
| TreeItems.CommitItemShows | commitment-issues-extension/src/frontend/analysis_tree/presentation/detailed_analysis_view/commit_tree_item.ts:28-51 | label is the truncated header, description the grade digit, icon the grade colour, tooltip rows with a body row only for a non-empty body and "None" for missing suggestions; the item opens the url exactly when it is defined and non-empty |
| TreeItems.CommitsRootLabel | commitment-issues-extension/src/frontend/analysis_tree/presentation/detailed_analysis_view/commit_tree_item.ts:7-12 | the label embeds the number of commits |
| TreeItems.FeedbackPreviewText | commitment-issues-extension/src/frontend/analysis_tree/presentation/simple_analysis_view/overall_feedback_item.ts:18-21 | a comment of at most 100 characters is its own preview; a longer one gives the trim of its first 100 characters followed by the 3-character ellipsis, at most 103 in all |
| TreeItems.FeedbackPreviewItemSpec | commitment-issues-extension/src/frontend/analysis_tree/presentation/simple_analysis_view/overall_feedback_item.ts:16-35 | a short comment has no hint and is its own tooltip; a long one carries the hint in the label and the tooltip |
| TreeItems.FeedbackPreviewCutWithoutHint | commitment-issues-extension/src/frontend/analysis_tree/presentation/simple_analysis_view/overall_feedback_item.ts:18-22 | a 101- or 102-character comment is cut yet gets no hint, since the preview is longer than the comment |
| TreeItems.ProviderPreview | commitment-issues-extension/src/frontend/analysis_tree/data/analysis_results_data_provider.ts:153-160 | a comment of at most 180 characters is its own preview; a longer one keeps its first 180 and ends with the click hint |
| TreeItems.RuleStatDescription | commitment-issues-extension/src/frontend/analysis_tree/presentation/simple_analysis_view/rule_stat_item.ts:25 | the description is the name's text before its first ':' followed by ": count/total" |
| TreeItems.RuleStatShowsCatalogTitle | commitment-issues-extension/src/frontend/analysis_tree/presentation/simple_analysis_view/rule_stat_item.ts:25 | for a catalogued rule the text shown is the rule's title |
| TreeItems.RuleStatTooltip | commitment-issues-extension/src/frontend/analysis_tree/presentation/simple_analysis_view/rule_stat_item.ts:26 | the tooltip says "commit" iff the count is 1, and ends with the full name after a blank line |
| TreeItems.ProviderRuleStatItem | commitment-issues-extension/src/frontend/analysis_tree/data/analysis_results_data_provider.ts:301-315 | the provider's own item shows the rule's name in its label and the fraction as description |
| TreeItems.AverageDescriptionSpec | commitment-issues-extension/src/frontend/analysis_tree/presentation/simple_analysis_view/rule_stat_item.ts:14 | the root description contains "N/A" iff there is no average |
| ExtensionProvider.RootListSpec | commitment-issues-extension/src/frontend/analysis_tree/data/analysis_results_data_provider.ts:131-150 | each root node appears iff asked for, in the order feedback, statistics, commits |
| ExtensionProvider.RootNodesSpec | commitment-issues-extension/src/frontend/analysis_tree/data/analysis_results_data_provider.ts:131-150 | feedback root iff the comment is not blank, statistics root iff the list is non-empty, commits root iff there are results, in that order |
| ExtensionProvider.RuleStatNodes | commitment-issues-extension/src/frontend/analysis_tree/data/analysis_results_data_provider.ts:163-166 | one statistics item per row, in order |
| ExtensionProvider.ChildrenOfSpec | commitment-issues-extension/src/frontend/analysis_tree/data/analysis_results_data_provider.ts:129-233 | one preview under the feedback root, one node per result under the commits root, a commit's violations first under it, nothing under leaves |
| ExtensionProvider.FullFeedbackText | commitment-issues-extension/src/frontend/analysis_tree/data/analysis_results_data_provider.ts:36-58 | the full-feedback page holds no raw special character and decodes to the comment, or to "(no feedback)" |
| ExtensionProvider.AnalysisResultsProvider.constructor | commitment-issues-extension/src/frontend/analysis_tree/data/analysis_results_data_provider.ts:21-28 | the provider starts with no results, no comment and no statistics |
| ExtensionProvider.AnalysisResultsProvider.Analyze | commitment-issues-extension/src/frontend/analysis_tree/data/analysis_results_data_provider.ts:70-123 | an ok answer stores the rebuilt displays and sets or clears both style fields; a throwing style request leaves them; a failed analysis changes nothing |
| ExtensionProvider.AnalysisResultsProvider.FullFeedback | commitment-issues-extension/src/frontend/analysis_tree/data/analysis_results_data_provider.ts:36-58 | the page decodes to the stored comment or the fallback |
| ExtensionProvider.AnalysisResultsProvider.GetChildren | commitment-issues-extension/src/frontend/analysis_tree/data/analysis_results_data_provider.ts:129-233 | the push-built list equals the children the three fields determine |
| ExtensionProvider.ShowsBackendOutput | commitment-issues-extension/src/frontend/analysis_tree/data/analysis_results_data_provider.ts:76-98 | after an ok analysis the commits root lists the backend's displays unchanged, in order |
| ExtensionProvider.StatsRootAfterBackendAnswer | commitment-issues-extension/src/frontend/analysis_tree/data/analysis_results_data_provider.ts:101-149 | with the backend's style answer (a comment, no statistics) the statistics root never appears; the feedback root appears iff the comment is not blank |
| FrontendProvider.ChildrenOfSpec | frontend/commitment-issues/src/frontend/analysis_tree/data/analysis_results_data_provider.ts:62-113 | one commit node per result at the root, a commit's violations first under it, nothing under anything else |
| FrontendProvider.AnalysisResultsProvider.constructor | frontend/commitment-issues/src/frontend/analysis_tree/data/analysis_results_data_provider.ts:16 | the provider starts with no results |
| FrontendProvider.AnalysisResultsProvider.Analyze | frontend/commitment-issues/src/frontend/analysis_tree/data/analysis_results_data_provider.ts:24-56 | an ok answer replaces the results wholesale by the rebuilt displays; a failed or throwing request keeps them |
| FrontendProvider.AnalysisResultsProvider.GetChildren | frontend/commitment-issues/src/frontend/analysis_tree/data/analysis_results_data_provider.ts:62-113 | the push-built list equals the children the results determine |
| FrontendProvider.FailureKeepsTree | frontend/commitment-issues/src/frontend/analysis_tree/data/analysis_results_data_provider.ts:24-56 | a failed request after a good one leaves the root level as it was |
| Settings.Amount | frontend/commitment-issues/src/settings.ts:40-42 | the amount defaults to 24 when unset or 0, else is the stored value |
| Settings.GetterDefaults | frontend/commitment-issues/src/settings.ts:24-39 | unset or empty token, key and repository read as placeholders holding '<'; branch and user default to "" |
| Routes.IsValidSpec | commitment-issues-extension/src/backend/src/app.ts:139-141 | undefined, empty and '<'-holding values are invalid; every other non-empty string is valid |
| Routes.FetchGuardSpec | commitment-issues-extension/src/backend/src/app.ts:30-38 | 400 iff the repository is falsy and the token holds no '<'; the request proceeds iff the repository is truthy and the token valid |
| Routes.AnalyzeGuard | frontend/commitment-issues/src/backend/src/app.ts:61-68 | 400 iff the repository is invalid, then 500 iff the token is invalid, else proceed; the guard never throws |
| Routes.GetterValidity | frontend/commitment-issues/src/settings.ts:24-33 | through the getters a value is valid iff the stored setting is |
| Routes.FrontendGuards | frontend/commitment-issues/src/backend/src/app.ts:36-68 | with the frontend's settings the fetch guard never answers 400; the analysis guard answers 400 iff the stored repository is invalid |
| Routes.UnconfiguredRefused | frontend/commitment-issues/src/backend/src/app.ts:36-68 | with nothing configured, analysis is a 400 and fetching a 500 |
| Routes.AnalyzeAnswer | commitment-issues-extension/src/backend/src/app.ts:63-80 | JSON iff `format` is exactly "json", carrying the analysis unchanged |
| Routes.Pages | commitment-issues-extension/src/backend/src/app.ts:78 | each display's card in analysis order |
| Routes.HtmlAnswerInOrder | commitment-issues-extension/src/backend/src/app.ts:74-80 | the HTML answer lists the cards in analysis order, separated by "<br>" |
| Routes.HtmlAnswerSingle | commitment-issues-extension/src/backend/src/app.ts:74-80 | a single display's HTML answer is its card alone |

## Left out

- Network I/O is not modelled:
  - the GitHub request in `fetchCommitMessages` (only its `map` over the response is modelled);
  - the Gemini `generateContent` calls;
  - the providers' `fetch` calls.
  The fetched commits, the AI's parsed answer and the providers' responses are parameters.
- `JSON.parse` and `JSON.stringify` are not modelled. Unparseable AI text is the input `None`, and `getSerialized` is left out.
- Express routing, status plumbing and server lifecycle are not modelled, and neither is the VS Code UI: event emitters, webviews, icons, commands' registration.
- The HTML and CSS markup of the card is not modelled. The card is a record of what it shows, noting which parts are escaped.
- The system-instruction and prompt texts are abbreviated. The model keeps only the sentence that depends on the open-tasks flag and the author clause.
- PromptBuilder.Gemini.AnalyzeCommits: the commits are values in an array rewritten in place, so two array slots that alias one JavaScript object are not modelled.
- PromptBuilder.Gemini: the class-wide static fields are modelled as the fields of one object.
- Models.Commit: only `url` may be undefined. The other fields of a commit rebuilt from JSON are taken as present.
- PromptBuilder.StyleSample: the body is always a string here, so the `?? ""` fallback for a missing body is not modelled.
- TreeItems.AverageDescription: the average arrives as its formatted text, because `toPrecision(3)` is floating-point formatting.
- Settings.Amount: a stored `NaN` is not modelled.
- The `set` method of the settings is configuration I/O and is not modelled.
- The extension's own `settings.ts` is not part of this model. The route guards take arbitrary, possibly undefined values for the token and repository.
- The extension's own `graded_commit_display.ts` is not part of this model. Its provider is modelled with the frontend's reconciling display and the extension's catalog.
- The frontend's own copy of the rule catalog is not part of this model. The frontend provider takes its catalog as a parameter.
- The query parameter `format` is an optional string, so array-valued query parameters are not modelled.
- TreeItems.ProviderPreview: stated as two implications rather than an if-and-only-if, because a comment longer than 180 characters can itself equal its preview.
- TreeItems.FeedbackPreviewItem: the open-full-feedback command, which is always attached, is not part of the item record.
- CommitAnalysis.ReconcileAll: its own contract gives only the length; the content of each display is stated by CommitAnalysis.ReconcileAllAt.
- Behaviour outside the shown code is not modelled: per-rule statistics aggregation, the average grade, author filtering, task references, branch resolution. The statistics are inputs of the extension provider.
- `src/commit_analysis.ts`, `backend/src/functionality/commit_analysis.ts` and `src/gemini.ts` are thin orchestration around network calls and are not part of this model.

## Findings

| source | as written | input that shows it | evidently intended | confidence | as-written member | corrected member |
|---|---|---|---|---|---|---|
| src/graded_commit_display.ts:55 | the card escapes `gradedCommit.commitHash`. The older graded-commit record (src/graded_commit.ts:1-13) has no such property, only `commit`, so `escapeHTML` receives `undefined` and throws on `.replace` | any display, e.g. a verdict with `commit = "abc"` and no violations | escape and show the record's `commit` hash | not executed | LegacyDisplay.GetHtmlAsWrittenThrows | LegacyDisplay.CardOfHash |

The older call sites (src/app.ts:30, src/commit_analysis.ts:20) build the
display with one argument. There `getHTML` fails even earlier, at line 13,
reading `violations` of an undefined record. The row above is about a
display built with both arguments.

A related observation, not a defect of one line: the extension's
`/style-comment` route answers `{ styleComment }` only. Its provider reads
`styleStats` from the same answer, so the statistics root never appears
(ExtensionProvider.StatsRootAfterBackendAnswer).
