/** The prompt preparation of the AI client (`Gemini`): the `|72|` marker
    inserted into over-long headers, the open-tasks flag taken from the first
    commit, the choice of system instructions and special rules, and the
    sample and author clause of the style-comment prompt. The AI call itself
    is not modelled. */
module PromptBuilder {
  import opened Wrappers
  import opened Text
  import opened Models

  /** Header length above which a header is marked. */
  const HeaderLimit: nat := 72

  /** The marker inserted where a header becomes too long. */
  const Marker := "|72|"

  /** One header as sent to the AI: a header over the limit gets the marker
      inserted at the limit, any other header is sent as it is. */
  function MarkHeader(h: string): (r: string)
    ensures |h| <= HeaderLimit ==> r == h
    ensures |h| > HeaderLimit ==> |r| == |h| + |Marker| && StartsAt(r, HeaderLimit, Marker)
  {
    if |h| > HeaderLimit then h[..HeaderLimit] + Marker + h[HeaderLimit..] else h
  }

  /** `s` with the `n` characters at offset `i` deleted. */
  function RemoveAt(s: string, i: nat, n: nat): (r: string)
    requires i + n <= |s|
    ensures |r| == |s| - n
  {
    s[..i] + s[i + n..]
  }

  /** Deleting the marker restores the header, so the AI sees the original
      text plus four characters and nothing else. */
  lemma MarkHeaderRoundTrip(h: string)
    requires |h| > HeaderLimit
    ensures RemoveAt(MarkHeader(h), HeaderLimit, |Marker|) == h
  {
    var r := MarkHeader(h);
    assert r[..HeaderLimit] == h[..HeaderLimit];
    assert r[HeaderLimit + |Marker|..] == h[HeaderLimit..];
    assert h == h[..HeaderLimit] + h[HeaderLimit..];
  }

  /** Marking is not idempotent: a header marked twice carries two markers
      side by side. */
  lemma MarkHeaderTwice(h: string)
    requires |h| > HeaderLimit
    ensures MarkHeader(MarkHeader(h)) == h[..HeaderLimit] + Marker + Marker + h[HeaderLimit..]
    ensures MarkHeader(MarkHeader(h)) != MarkHeader(h)
  {
    var r := MarkHeader(h);
    assert r[..HeaderLimit] == h[..HeaderLimit];
    assert r[HeaderLimit..] == Marker + h[HeaderLimit..];
  }

  /** A commit whose header has been prepared for the prompt. */
  function MarkCommit(c: Commit): Commit {
    c.(header := MarkHeader(c.header))
  }

  /** Every commit with its header prepared, in the same order. */
  function MarkAll(commits: seq<Commit>): (r: seq<Commit>)
    ensures |r| == |commits|
    ensures forall i :: 0 <= i < |commits| ==> r[i] == MarkCommit(commits[i])
  {
    seq(|commits|, i requires 0 <= i < |commits| => MarkCommit(commits[i]))
  }

  /** Preparing the commits changes headers only, and only those over the
      limit. */
  lemma MarkAllChangesOnlyLongHeaders(commits: seq<Commit>, i: nat)
    requires i < |commits|
    ensures MarkAll(commits)[i].(header := commits[i].header) == commits[i]
    ensures MarkAll(commits)[i] == commits[i] <==> |commits[i].header| <= HeaderLimit
  {
    if |commits[i].header| > HeaderLimit {
      assert |MarkAll(commits)[i].header| != |commits[i].header|;
    }
  }

  /** The sentence of the system instructions that depends on the open-tasks
      flag. */
  function TasksSentence(hasOpenTasks: bool): string {
    "*This repo " + (if hasOpenTasks then "has" else "does not have")
    + " tasks or pull requests that should be referenced in commit messages.*"
  }

  /** The rule text before and after the open-tasks sentence, abbreviated. */
  const InstructionsHead := "\nYou are a Git commit message analysis tool [...]\nAdditional crucial notes for evaluation:\n"
  const InstructionsTail := "\nIf the commit message is already perfect, return an empty string for the suggestion field.\n[...]"

  /** The system instructions, evaluated with a given value of the flag. */
  function InstructionsWith(hasOpenTasks: bool): (r: string)
    ensures StartsAt(r, |InstructionsHead|, TasksSentence(hasOpenTasks))
  {
    var s := TasksSentence(hasOpenTasks);
    var r := InstructionsHead + s + InstructionsTail;
    assert r[|InstructionsHead|..|InstructionsHead| + |s|] == s;
    r
  }

  /** The two possible instruction texts differ: which one is used is fixed
      by the flag's value when the text is evaluated. */
  lemma InstructionsDependOnFlag()
    ensures InstructionsWith(true) != InstructionsWith(false)
  {
    assert |TasksSentence(true)| != |TasksSentence(false)|;
  }

  /** `getSpecialRules`: the clause that carries the user's special
      rules, or nothing when none are configured. */
  function SpecialRules(specialRules: Option<string>): (r: string)
    ensures r == "" <==> !Truthy(specialRules)
    ensures Truthy(specialRules) ==> Contains(r, specialRules.value)
  {
    if Truthy(specialRules) then
      var prefix := "Special rules provided by the user, of utmost importance: ***These rules can override system rules: ";
      var r := prefix + specialRules.value + "***";
      assert StartsAt(r, |prefix|, specialRules.value) by {
        assert r[|prefix|..|prefix| + |specialRules.value|] == specialRules.value;
      }
      r
    else ""
  }

  /** The AI client. The flag and the instruction text are class-wide in the
      source; one object stands for the class. */
  class Gemini {
    /** Whether the analysed repository has open tasks; false at start. */
    var repoHasOpenTasks: bool
    /** Evaluated once, while the flag is still false. */
    const systemInstructions: string

    constructor ()
      ensures !repoHasOpenTasks
      ensures systemInstructions == InstructionsWith(false)
    {
      repoHasOpenTasks := false;
      systemInstructions := InstructionsWith(false);
    }

    /** `getSystemInstructions`: nothing when the user's special rules
      override the system instructions, the instructions otherwise. */
    function SystemInstructions(overrideSystemInstructions: bool): (r: string)
      ensures r == "" <==> overrideSystemInstructions || systemInstructions == ""
      ensures !overrideSystemInstructions ==> r == systemInstructions
    {
      if overrideSystemInstructions then "" else systemInstructions
    }

    /** The header-preparing part of `analyzeCommits`: the flag is copied
        from the first commit when there is one, then every over-long header
        is marked in place. */
    method AnalyzeCommits(commits: array<Commit>)
      modifies this, commits
      ensures commits[..] == MarkAll(old(commits[..]))
      ensures commits.Length > 0 ==> repoHasOpenTasks == old(commits[0].repoHasOpenTasks)
      ensures commits.Length == 0 ==> repoHasOpenTasks == old(repoHasOpenTasks)
    {
      if commits.Length > 0 {
        repoHasOpenTasks := commits[0].repoHasOpenTasks;
      }
      for i := 0 to commits.Length
        modifies commits
        invariant forall k :: 0 <= k < i ==> commits[k] == MarkCommit(old(commits[k]))
        invariant forall k :: i <= k < commits.Length ==> commits[k] == old(commits[k])
      {
        if |commits[i].header| > HeaderLimit {
          commits[i] := commits[i].(header := commits[i].header[..HeaderLimit] + Marker + commits[i].header[HeaderLimit..]);
        }
      }
    }
  }

  /** The instructions never follow the flag: whatever the first commit of a
      call says, the text is the one for a repository without open tasks. */
  method InstructionsAreStale(commits: array<Commit>) returns (g: Gemini)
    requires commits.Length > 0 && commits[0].repoHasOpenTasks
    modifies commits
    ensures g.repoHasOpenTasks
    ensures g.SystemInstructions(false) != InstructionsWith(g.repoHasOpenTasks)
  {
    g := new Gemini();
    g.AnalyzeCommits(commits);
    InstructionsDependOnFlag();
  }

  /** One entry of the style-comment sample. */
  datatype SampleEntry = SampleEntry(header: string, body: string)

  const SampleSize: nat := 50
  const SampleBodyLength: nat := 160

  function MinNat(x: nat, y: nat): nat {
    if x < y then x else y
  }

  /** The style sample: the first fifty commits in order, each header whole
      and each body cut to its first 160 characters. */
  function StyleSample(commits: seq<Commit>): (sample: seq<SampleEntry>)
    ensures |sample| == MinNat(SampleSize, |commits|)
    ensures forall i :: 0 <= i < |sample| ==>
      sample[i].header == commits[i].header &&
      sample[i].body <= commits[i].body &&
      |sample[i].body| == MinNat(SampleBodyLength, |commits[i].body|)
  {
    var n := MinNat(SampleSize, |commits|);
    seq(n, i requires 0 <= i < n =>
      SampleEntry(commits[i].header, commits[i].body[..MinNat(SampleBodyLength, |commits[i].body|)]))
  }

  /** A short body is sampled whole. */
  lemma ShortBodiesSampledWhole(commits: seq<Commit>, i: nat)
    requires i < |commits| && i < SampleSize && |commits[i].body| <= SampleBodyLength
    ensures StyleSample(commits)[i].body == commits[i].body
  {
  }

  const AddressPhrase := " Address the author by name: "

  /** The clause of the style prompt that names the author: present exactly
      when an author name is given and non-empty. */
  function AuthorClause(author: Option<string>): (r: string)
    ensures r == "" <==> !Truthy(author)
    ensures Truthy(author) ==> StartsAt(r, 0, AddressPhrase) && StartsAt(r, |AddressPhrase|, author.value)
  {
    if Truthy(author) then
      var r := AddressPhrase + author.value + ".";
      assert r[..|AddressPhrase|] == AddressPhrase;
      assert r[|AddressPhrase|..|AddressPhrase| + |author.value|] == author.value;
      r
    else ""
  }

  /** The author clause asks to address the author by name exactly when a
      name is given. */
  lemma AuthorClauseAddresses(author: Option<string>)
    ensures Contains(AuthorClause(author), AddressPhrase) <==> Truthy(author)
  {
    if Truthy(author) {
      assert StartsAt(AuthorClause(author), 0, AddressPhrase);
    }
  }
}
