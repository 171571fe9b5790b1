/** The pure parts of the GitHub client: splitting a repository URL into
    owner and repository name with the pattern
    `github\.com\/([^\/]+)\/([^\/]+)(?:\.git)?`, searched leftmost-first and
    with greedy groups, and taking the message of each fetched commit. */
module GithubApi {
  import opened Wrappers
  import opened Text

  /** The literal part of the pattern before the two groups. */
  const Host := "github.com/"

  const InvalidUrl := "Invalid GitHub repository URL."

  datatype RepoRef = RepoRef(owner: string, repo: string)

  /** A path segment: non-empty and free of '/'. */
  predicate Segment(t: string) {
    t != [] && '/' !in t
  }

  /** Declarative reading of the pattern: at offset `p`, `s` holds the host,
      an owner segment, a '/', and a repository segment that cannot be
      extended (greedy `[^\/]+`). The optional `.git` group then has nothing
      left to consume. */
  predicate PatternAt(s: string, p: int, owner: string, repo: string) {
    Segment(owner) && Segment(repo) &&
    StartsAt(s, p, Host + owner + "/" + repo) &&
    var e := p + |Host| + |owner| + 1 + |repo|;
    e == |s| || s[e] == '/'
  }

  /** Length of the run of non-'/' characters starting at `i`. */
  function RunLength(s: string, i: nat): (n: nat)
    requires i <= |s|
    ensures i + n <= |s|
    ensures forall k :: i <= k < i + n ==> s[k] != '/'
    ensures i + n == |s| || s[i + n] == '/'
    decreases |s| - i
  {
    if i == |s| || s[i] == '/' then 0 else 1 + RunLength(s, i + 1)
  }

  /** The groups the pattern captures when matched at offset `p`, if it
      matches there. */
  function MatchAt(s: string, p: nat): (r: Option<RepoRef>)
    requires p <= |s|
  {
    if !StartsAt(s, p, Host) then None
    else
      var o := p + |Host|;
      var n1 := RunLength(s, o);
      if n1 == 0 || o + n1 == |s| then None
      else
        var n2 := RunLength(s, o + n1 + 1);
        if n2 == 0 then None
        else Some(RepoRef(s[o..o + n1], s[o + n1 + 1..o + n1 + 1 + n2]))
  }

  /** A run of non-'/' characters is a segment. */
  lemma RunIsSegment(s: string, i: nat, n: nat)
    requires i + n <= |s| && n > 0
    requires forall k :: i <= k < i + n ==> s[k] != '/'
    ensures Segment(s[i..i + n])
  {
    var t := s[i..i + n];
    forall j | 0 <= j < |t|
      ensures t[j] != '/'
    {
      assert t[j] == s[i + j];
    }
  }

  /** `s` holds `x + y` at `p` exactly when it holds `x` there and `y`
      right after. */
  lemma StartsAtAppend(s: string, p: int, x: string, y: string)
    ensures StartsAt(s, p, x + y) <==> StartsAt(s, p, x) && StartsAt(s, p + |x|, y)
  {
    if 0 <= p && p + |x| + |y| <= |s| {
      assert s[p..p + |x| + |y|] == s[p..p + |x|] + s[p + |x|..p + |x| + |y|];
      assert (x + y)[..|x|] == x && (x + y)[|x|..] == y;
    }
  }

  /** `s` holds `a + b + c + d` at `p` exactly when the four pieces sit
      there one after the other. */
  lemma StartsAtConcat(s: string, p: int, a: string, b: string, c: string, d: string)
    ensures StartsAt(s, p, a + b + c + d) <==>
      StartsAt(s, p, a) && StartsAt(s, p + |a|, b) && StartsAt(s, p + |a| + |b|, c) && StartsAt(s, p + |a| + |b| + |c|, d)
  {
    StartsAtAppend(s, p, a + b + c, d);
    StartsAtAppend(s, p, a + b, c);
    StartsAtAppend(s, p, a, b);
  }

  /** The groups captured at `p` satisfy the declarative pattern. */
  lemma MatchAtSound(s: string, p: nat)
    requires p <= |s| && MatchAt(s, p).Some?
    ensures PatternAt(s, p, MatchAt(s, p).value.owner, MatchAt(s, p).value.repo)
  {
    var o := p + |Host|;
    var n1 := RunLength(s, o);
    var n2 := RunLength(s, o + n1 + 1);
    var owner, repo := s[o..o + n1], s[o + n1 + 1..o + n1 + 1 + n2];
    assert MatchAt(s, p).value == RepoRef(owner, repo);
    assert StartsAt(s, p, Host);
    RunIsSegment(s, o, n1);
    RunIsSegment(s, o + n1 + 1, n2);
    assert StartsAt(s, o, owner);
    assert StartsAt(s, o + n1, "/") by {
      assert s[o + n1..o + n1 + 1] == [s[o + n1]];
    }
    assert StartsAt(s, o + n1 + 1, repo);
    PatternFromParts(s, p, owner, repo);
  }

  /** The pattern holds where its pieces sit one after the other and the
      repository segment ends at the end or at a '/'. */
  lemma PatternFromParts(s: string, p: int, owner: string, repo: string)
    requires Segment(owner) && Segment(repo)
    requires StartsAt(s, p, Host) && StartsAt(s, p + |Host|, owner)
    requires StartsAt(s, p + |Host| + |owner|, "/") && StartsAt(s, p + |Host| + |owner| + 1, repo)
    requires var e := p + |Host| + |owner| + 1 + |repo|; e == |s| || s[e] == '/'
    ensures PatternAt(s, p, owner, repo)
  {
    StartsAtConcat(s, p, Host, owner, "/", repo);
  }

  /** Wherever the declarative pattern holds, the match finds exactly those
      groups. */
  lemma MatchAtComplete(s: string, p: nat, owner: string, repo: string)
    requires p <= |s| && PatternAt(s, p, owner, repo)
    ensures MatchAt(s, p) == Some(RepoRef(owner, repo))
  {
    StartsAtConcat(s, p, Host, owner, "/", repo);
    var o := p + |Host|;
    RunExact(s, o, owner);
    assert s[o + |owner|..o + |owner| + 1] == "/";
    RunExact(s, o + |owner| + 1, repo);
  }

  /** A segment at `i` followed by the end or a '/' is the whole run. */
  lemma RunExact(s: string, i: nat, t: string)
    requires i <= |s| && Segment(t) && StartsAt(s, i, t)
    requires i + |t| == |s| || s[i + |t|] == '/'
    ensures RunLength(s, i) == |t|
  {
    var n := RunLength(s, i);
    forall k | i <= k < i + |t|
      ensures s[k] != '/'
    {
      assert s[k] == s[i..i + |t|][k - i];
    }
  }

  /** The leftmost offset at or after `p` where the pattern matches. */
  function FindMatch(s: string, p: nat): (r: Option<(nat, RepoRef)>)
    requires p <= |s|
    ensures r.Some? ==> p <= r.value.0 <= |s| && MatchAt(s, r.value.0) == Some(r.value.1)
    ensures r.Some? ==> forall q :: p <= q < r.value.0 ==> MatchAt(s, q).None?
    ensures r.None? ==> forall q :: p <= q <= |s| ==> MatchAt(s, q).None?
    decreases |s| - p
  {
    if MatchAt(s, p).Some? then Some((p, MatchAt(s, p).value))
    else if p == |s| then None
    else FindMatch(s, p + 1)
  }

  /** `parseRepoUrl`. */
  function ParseRepoUrl(url: string): (r: Result<RepoRef, string>)
    ensures r.Failure? ==> r.error == InvalidUrl
    ensures r.Success? ==> Segment(r.value.owner) && Segment(r.value.repo)
  {
    match FindMatch(url, 0)
    case None => Failure(InvalidUrl)
    case Some((p, ref)) =>
      MatchAtSound(url, p);
      Success(ref)
  }

  /** The parse fails exactly when the pattern occurs nowhere; otherwise it
      returns the groups of its leftmost occurrence. */
  lemma ParseRepoUrlSpec(url: string)
    ensures ParseRepoUrl(url).Failure? <==>
      forall p, owner, repo :: 0 <= p <= |url| ==> !PatternAt(url, p, owner, repo)
    ensures ParseRepoUrl(url).Success? ==> exists p :: (0 <= p <= |url| &&
      PatternAt(url, p, ParseRepoUrl(url).value.owner, ParseRepoUrl(url).value.repo) &&
      forall q, owner, repo :: 0 <= q < p ==> !PatternAt(url, q, owner, repo))
  {
    var f := FindMatch(url, 0);
    if f.None? {
      forall p, owner, repo | 0 <= p <= |url|
        ensures !PatternAt(url, p, owner, repo)
      {
        if PatternAt(url, p, owner, repo) {
          MatchAtComplete(url, p, owner, repo);
        }
      }
    } else {
      var p := f.value.0;
      MatchAtSound(url, p);
      forall q, owner, repo | 0 <= q < p
        ensures !PatternAt(url, q, owner, repo)
      {
        if PatternAt(url, q, owner, repo) {
          MatchAtComplete(url, q, owner, repo);
        }
      }
    }
  }

  /** When the pattern holds at `p` and nowhere before, the parse returns
      the groups at `p`. */
  lemma FirstMatchAt(url: string, p: nat, owner: string, repo: string)
    requires p <= |url| && PatternAt(url, p, owner, repo)
    requires forall q :: 0 <= q < p ==> !StartsAt(url, q, Host)
    ensures ParseRepoUrl(url) == Success(RepoRef(owner, repo))
  {
    MatchAtComplete(url, p, owner, repo);
    forall q | 0 <= q < p
      ensures MatchAt(url, q).None?
    {
      assert !StartsAt(url, q, Host);
    }
  }

  const Https := "https://"

  /** The host does not start inside the scheme: its first letter 'g' is
      none of the scheme's letters. */
  lemma NoHostInScheme(url: string)
    requires StartsAt(url, 0, Https)
    ensures forall q :: 0 <= q < |Https| ==> !StartsAt(url, q, Host)
  {
    forall q | 0 <= q < |Https|
      ensures !StartsAt(url, q, Host)
    {
      assert url[q] == url[0..|Https|][q] == Https[q];
      if q + |Host| <= |url| {
        assert url[q..q + |Host|][0] == url[q];
      }
    }
  }

  /** The pattern holds right after the scheme of such a URL. */
  lemma PatternAfterScheme(w: string, rest: string, owner: string, repo: string)
    requires Segment(owner) && Segment(repo) && (rest == [] || rest[0] == '/')
    requires w == Host + owner + "/" + repo
    ensures PatternAt(Https + w + rest, |Https|, owner, repo)
  {
    var url := Https + w + rest;
    assert url[|Https|..|Https| + |w|] == w;
    var e := |Https| + |w|;
    assert e < |url| ==> url[e] == rest[0];
  }

  /** A URL `https://github.com/<owner>/<repo>`, possibly followed by more
      path, parses to that owner and repository: later path segments are
      ignored, and a repository segment is kept whole, ".git" included. */
  lemma ParseCanonical(owner: string, repo: string, rest: string)
    requires Segment(owner) && Segment(repo) && (rest == [] || rest[0] == '/')
    ensures ParseRepoUrl(Https + Host + owner + "/" + repo + rest) == Success(RepoRef(owner, repo))
  {
    var w := Host + owner + "/" + repo;
    var url := Https + w + rest;
    assert url == Https + Host + owner + "/" + repo + rest;
    assert url[..|Https|] == Https;
    PatternAfterScheme(w, rest, owner, repo);
    NoHostInScheme(url);
    FirstMatchAt(url, |Https|, owner, repo);
  }

  /** The documented example: owner "user", repository "repo". */
  lemma ParseDocExample()
    ensures ParseRepoUrl("https://github.com/user/repo") == Success(RepoRef("user", "repo"))
  {
    assert "https://github.com/user/repo" == Https + Host + "user" + "/" + "repo" + "";
    ParseCanonical("user", "repo", "");
  }

  /** A ".git" suffix stays in the repository name: the optional group never
      strips it. */
  lemma ParseKeepsGitSuffix(owner: string, name: string)
    requires Segment(owner) && '/' !in name
    ensures ParseRepoUrl(Https + Host + owner + "/" + name + ".git") == Success(RepoRef(owner, name + ".git"))
  {
    var repo := name + ".git";
    assert '/' !in repo by {
      forall i | 0 <= i < |repo|
        ensures repo[i] != '/'
      {
        if i < |name| { assert repo[i] == name[i]; }
      }
    }
    assert Https + Host + owner + "/" + name + ".git" == Https + Host + owner + "/" + repo + "";
    ParseCanonical(owner, repo, "");
  }

  /** Path segments after the repository are ignored. */
  lemma ParseIgnoresDeeperPath()
    ensures ParseRepoUrl("https://github.com/user/repo/tree/main") == Success(RepoRef("user", "repo"))
  {
    assert "https://github.com/user/repo/tree/main" == Https + Host + "user" + "/" + "repo" + "/tree/main";
    ParseCanonical("user", "repo", "/tree/main");
  }

  /** One commit of the hosting service's response. */
  datatype CommitObject = CommitObject(commit: CommitDetails)
  datatype CommitDetails = CommitDetails(message: string)

  /** `response.data.map(c => c.commit.message)`. */
  function Messages(response: seq<CommitObject>): (messages: seq<string>)
    ensures |messages| == |response|
    ensures forall i :: 0 <= i < |response| ==> messages[i] == response[i].commit.message
  {
    if response == [] then [] else [response[0].commit.message] + Messages(response[1..])
  }

  /** The messages of two responses, one after the other, are the messages
      of the joined response. */
  lemma {:induction false} MessagesAppend(a: seq<CommitObject>, b: seq<CommitObject>)
    ensures Messages(a + b) == Messages(a) + Messages(b)
  {
  }
}
