/** The frontend's configuration getters (`ConfigurationManager`): each
    reads a stored setting and falls back with `||`, so an unset or empty
    setting reads as its default. Reading the editor's configuration store
    is an input; `set` is left out. */
module Settings {
  import opened Wrappers
  import opened Text

  /** The stored settings; `None` is an unset setting. */
  datatype Stored = Stored(
    github: Option<string>,
    gemini: Option<string>,
    repoUrl: Option<string>,
    branch: Option<string>,
    user: Option<string>,
    amount: Option<int>)

  const GithubPlaceholder := "<set GitHub fine-grained access token here>"
  const GeminiPlaceholder := "<set Gemini API key here>"
  const RepoPlaceholder := "<set repository URL here>"
  const DefaultAmount := 24

  function Github(s: Stored): string {
    OrElse(s.github, GithubPlaceholder)
  }

  function Gemini(s: Stored): string {
    OrElse(s.gemini, GeminiPlaceholder)
  }

  function Repo(s: Stored): string {
    OrElse(s.repoUrl, RepoPlaceholder)
  }

  function Branch(s: Stored): string {
    OrElse(s.branch, "")
  }

  function User(s: Stored): string {
    OrElse(s.user, "")
  }

  /** `get<number>(...) || 24`: an unset setting and 0 both read as 24. */
  function Amount(s: Stored): (n: int)
    ensures n != 0
    ensures s.amount.None? || s.amount == Some(0) ==> n == DefaultAmount
    ensures s.amount.Some? && s.amount.value != 0 ==> n == s.amount.value
  {
    if s.amount.None? || s.amount.value == 0 then DefaultAmount else s.amount.value
  }

  /** The credentials and the repository fall back to placeholders, which
      all hold '<' and are never empty, so these three getters never return
      an empty string; branch and user fall back to "". */
  lemma GetterDefaults(s: Stored)
    ensures !Truthy(s.github) ==> Github(s) == GithubPlaceholder && '<' in Github(s)
    ensures !Truthy(s.gemini) ==> Gemini(s) == GeminiPlaceholder && '<' in Gemini(s)
    ensures !Truthy(s.repoUrl) ==> Repo(s) == RepoPlaceholder && '<' in Repo(s)
    ensures Github(s) != "" && Gemini(s) != "" && Repo(s) != ""
    ensures !Truthy(s.branch) ==> Branch(s) == ""
    ensures !Truthy(s.user) ==> User(s) == ""
  {
    assert GithubPlaceholder[0] == '<';
    assert GeminiPlaceholder[0] == '<';
    assert RepoPlaceholder[0] == '<';
  }
}
