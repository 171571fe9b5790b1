/** The decisions the two backends' routes take before and after the work
    they delegate: `isValid`, the guards of `/fetch-commits`,
    `/analyze-commits` and `/style-comment`, and the choice between a JSON
    answer and the cards joined by "<br>". The requests to the hosting
    service and the AI, and the HTTP plumbing, are not modelled. */
module Routes {
  import opened Wrappers
  import opened Text
  import opened Settings
  import opened CommitAnalysis

  /** `isValid`: defined, non-empty, and free of '<'. */
  predicate IsValid(val: Option<string>) {
    Truthy(val) && '<' !in val.value
  }

  /** A value is rejected when undefined, empty or holding '<', and accepted
      otherwise. */
  lemma IsValidSpec(val: Option<string>)
    ensures val.None? || val == Some("") ==> !IsValid(val)
    ensures val.Some? && '<' in val.value ==> !IsValid(val)
    ensures val.Some? && val.value != "" && '<' !in val.value ==> IsValid(val)
  {
  }

  /** What a guard decides. */
  datatype Outcome =
    | BadRequest(error: string)   // status 400
    | ServerError(error: string)  // status 500
    | Throws                      // the guard itself raises a TypeError
    | Proceed

  const MissingRepoUrl := "Missing repoUrl parameter"
  const MissingRepositoryUrl := "Missing repositoryUrl parameter"
  const TokenNotSet := "GitHub token not set"

  /** The guard of `/fetch-commits`: 400 when the repository is falsy and the
      token holds no '<' (reading `indexOf` of an undefined token throws),
      then 500 when the token is not valid. */
  function FetchGuard(repo: Option<string>, github: Option<string>): Outcome {
    if !Truthy(repo) && github.None? then Throws
    else if !Truthy(repo) && '<' !in github.value then BadRequest(MissingRepoUrl)
    else if !IsValid(github) then ServerError(TokenNotSet)
    else Proceed
  }

  /** The fetch guard answers 400 exactly for a falsy repository with a
      defined token free of '<'; it lets a request through exactly when the
      repository is truthy and the token valid, even when the repository
      holds '<'. */
  lemma FetchGuardSpec(repo: Option<string>, github: Option<string>)
    ensures FetchGuard(repo, github).BadRequest? <==> !Truthy(repo) && github.Some? && '<' !in github.value
    ensures FetchGuard(repo, github) == Proceed <==> Truthy(repo) && IsValid(github)
    ensures FetchGuard(repo, github).ServerError? ==> !IsValid(github)
  {
  }

  /** The guard of `/analyze-commits` and of `/style-comment`: 400 for an
      invalid repository, then 500 for an invalid token. */
  function AnalyzeGuard(repo: Option<string>, github: Option<string>): (o: Outcome)
    ensures o == Proceed <==> IsValid(repo) && IsValid(github)
    ensures o.BadRequest? <==> !IsValid(repo)
    ensures o.ServerError? <==> IsValid(repo) && !IsValid(github)
    ensures o != Throws
  {
    if !IsValid(repo) then BadRequest(MissingRepositoryUrl)
    else if !IsValid(github) then ServerError(TokenNotSet)
    else Proceed
  }

  /** Through the frontend's settings a getter's value is valid exactly when
      the stored setting is: an unset or empty setting reads as a placeholder,
      which is never valid. */
  lemma GetterValidity(s: Stored)
    ensures IsValid(Some(Github(s))) <==> IsValid(s.github)
    ensures IsValid(Some(Repo(s))) <==> IsValid(s.repoUrl)
    ensures IsValid(Some(Gemini(s))) <==> IsValid(s.gemini)
  {
    GetterDefaults(s);
  }

  /** With the frontend's settings the fetch guard never answers 400, since
      the repository getter is never falsy; the analysis guard answers 400
      exactly when the stored repository is unset, empty or holds '<'. */
  lemma FrontendGuards(s: Stored)
    ensures !FetchGuard(Some(Repo(s)), Some(Github(s))).BadRequest?
    ensures FetchGuard(Some(Repo(s)), Some(Github(s))) != Throws
    ensures AnalyzeGuard(Some(Repo(s)), Some(Github(s))).BadRequest? <==> !IsValid(s.repoUrl)
    ensures AnalyzeGuard(Some(Repo(s)), Some(Github(s))) == Proceed <==> IsValid(s.repoUrl) && IsValid(s.github)
  {
    GetterDefaults(s);
    GetterValidity(s);
  }

  /** With nothing configured, the analysis is refused as a bad request and
      the fetch as a server error. */
  lemma UnconfiguredRefused()
    ensures var s := Stored(None, None, None, None, None, None);
      && AnalyzeGuard(Some(Repo(s)), Some(Github(s))) == BadRequest(MissingRepositoryUrl)
      && FetchGuard(Some(Repo(s)), Some(Github(s))) == ServerError(TokenNotSet)
  {
    GetterDefaults(Stored(None, None, None, None, None, None));
  }

  /** What `/analyze-commits` sends once the analysis succeeded. */
  datatype Answer = JsonAnswer(displays: seq<DisplayValue>) | HtmlAnswer(html: string)

  /** The answer for the `format` query parameter: JSON exactly when it is
      the string "json", otherwise each display's card markup (`page`, the
      markup itself not being modelled) joined by "<br>". */
  function AnalyzeAnswer(format: Option<string>, analysis: seq<DisplayValue>, page: DisplayValue -> string): (a: Answer)
    ensures a.JsonAnswer? <==> format == Some("json")
    ensures a.JsonAnswer? ==> a.displays == analysis
  {
    if format == Some("json") then JsonAnswer(analysis)
    else HtmlAnswer(Join(Pages(analysis, page), "<br>"))
  }

  /** Each display's markup, in analysis order. */
  function Pages(analysis: seq<DisplayValue>, page: DisplayValue -> string): (pages: seq<string>)
    ensures |pages| == |analysis|
    ensures forall i :: 0 <= i < |analysis| ==> pages[i] == page(analysis[i])
  {
    seq(|analysis|, i requires 0 <= i < |analysis| => page(analysis[i]))
  }

  /** The HTML answer lists the cards in analysis order: the answer for two
      consecutive runs of displays is the first answer, "<br>", then the
      second. */
  lemma HtmlAnswerInOrder(format: Option<string>, a: seq<DisplayValue>, b: seq<DisplayValue>, page: DisplayValue -> string)
    requires format != Some("json") && a != [] && b != []
    ensures AnalyzeAnswer(format, a + b, page).html ==
      AnalyzeAnswer(format, a, page).html + "<br>" + AnalyzeAnswer(format, b, page).html
  {
    assert Pages(a + b, page) == Pages(a, page) + Pages(b, page);
    JoinConcat(Pages(a, page), Pages(b, page), "<br>");
  }

  /** A single display's answer is its card alone. */
  lemma HtmlAnswerSingle(format: Option<string>, d: DisplayValue, page: DisplayValue -> string)
    requires format != Some("json")
    ensures AnalyzeAnswer(format, [d], page) == HtmlAnswer(page(d))
  {
    assert Pages([d], page) == [page(d)];
  }
}
