/**
 * The repository-URL form: `handleSubmit` looks for the leftmost match of
 * `github\.com\/([^\/]+)\/([^\/]+)` in the typed URL, takes the first group
 * as the owner and the second, cut at its first `/`, `#` and `?`, as the
 * repository; the outcome is either an error message or the pair that
 * opens the file tree.
 */
module RepoUrl {
  import opened Wrappers
  import opened Text

  /** The literal part of the pattern that precedes the two groups. */
  const Host: string := "github.com/"

  const InvalidUrlMessage: string :=
    "Invalid GitHub repository URL. Please enter a URL like: https://github.com/username/repository"

  // ---------------------------------------------------------------------------
  // The pattern
  // ---------------------------------------------------------------------------

  /** `t` occurs in `s` at `i` and holds no `/`: what one `[^\/]+` group can capture there, if nonempty. */
  ghost predicate SlashFreeAt(s: string, i: int, t: string)
  {
    0 <= i && i + |t| <= |s| && s[i..i + |t|] == t && '/' !in t
  }

  /**
   * The pattern matches `s` at position `p` with groups `owner` and `run`:
   * `github.com/`, a nonempty slash-free owner, `/`, a nonempty slash-free
   * run that `[^\/]+` extends as far as it can (to the end or to a `/`).
   */
  ghost predicate RegexMatchesAt(s: string, p: int, owner: string, run: string)
  {
    var a := p + |Host|;
    var b := a + |owner| + 1;
    && 0 <= p && a <= |s| && s[p..a] == Host
    && owner != "" && SlashFreeAt(s, a, owner) && a + |owner| < |s| && s[a + |owner|] == '/'
    && run != "" && SlashFreeAt(s, b, run)
    && (b + |run| == |s| || s[b + |run|] == '/')
  }

  /** The length of the slash-free stretch of `s` starting at `i`. */
  function RunLength(s: string, i: nat): (n: nat)
    requires i <= |s|
    ensures i + n <= |s|
    ensures forall k :: i <= k < i + n ==> s[k] != '/'
    ensures i + n == |s| || s[i + n] == '/'
    decreases |s| - i
  {
    if i == |s| || s[i] == '/' then 0 else 1 + RunLength(s, i + 1)
  }

  /** The two groups the pattern captures. */
  datatype Captures = Captures(owner: string, run: string)

  /** Attempting the pattern at one position, the way the regex engine does. */
  function MatchAt(s: string, p: nat): Option<Captures>
    requires p <= |s|
  {
    if p + |Host| <= |s| && s[p..p + |Host|] == Host then
      var a := p + |Host|;
      var n := RunLength(s, a);
      if n > 0 && a + n < |s| then
        var b := a + n + 1;
        var m := RunLength(s, b);
        if m > 0 then Some(Captures(s[a..a + n], s[b..b + m])) else None
      else None
    else None
  }

  /** The run from `i` is a slash-free stretch there. */
  lemma RunIsSlashFree(s: string, i: nat)
    requires i <= |s|
    ensures SlashFreeAt(s, i, s[i..i + RunLength(s, i)])
  {
    var t := s[i..i + RunLength(s, i)];
    forall k | 0 <= k < |t| ensures t[k] != '/' {
      assert t[k] == s[i + k];
    }
  }

  /** A slash-free stretch that ends at a slash or at the end is the whole run from its start. */
  lemma StretchIsRun(s: string, i: nat, t: string)
    requires SlashFreeAt(s, i, t)
    requires i + |t| == |s| || s[i + |t|] == '/'
    ensures RunLength(s, i) == |t|
  {
  }

  /** What `MatchAt` captures is a match of the pattern. */
  lemma MatchAtSound(s: string, p: nat)
    requires p <= |s| && MatchAt(s, p).Some?
    ensures RegexMatchesAt(s, p, MatchAt(s, p).value.owner, MatchAt(s, p).value.run)
  {
    var a := p + |Host|;
    var n := RunLength(s, a);
    RunIsSlashFree(s, a);
    RunIsSlashFree(s, a + n + 1);
  }

  /** A match of the pattern at `p` is what `MatchAt` captures there. */
  lemma MatchAtComplete(s: string, p: nat, owner: string, run: string)
    requires p <= |s| && RegexMatchesAt(s, p, owner, run)
    ensures MatchAt(s, p) == Some(Captures(owner, run))
  {
    var a := p + |Host|;
    StretchIsRun(s, a, owner);
    StretchIsRun(s, a + |owner| + 1, run);
  }

  /** `MatchAt` finds a match at `p` exactly when the pattern matches there, with the same groups. */
  lemma MatchAtIsTheRegexMatch(s: string, p: nat, owner: string, run: string)
    requires p <= |s|
    ensures MatchAt(s, p) == Some(Captures(owner, run)) <==> RegexMatchesAt(s, p, owner, run)
  {
    if RegexMatchesAt(s, p, owner, run) {
      MatchAtComplete(s, p, owner, run);
    }
    if MatchAt(s, p) == Some(Captures(owner, run)) {
      MatchAtSound(s, p);
    }
  }

  /** A position where `MatchAt` fails admits no match at all. */
  lemma NoMatchAt(s: string, p: nat)
    requires p <= |s| && MatchAt(s, p).None?
    ensures forall owner, run :: !RegexMatchesAt(s, p, owner, run)
  {
    forall owner, run ensures !RegexMatchesAt(s, p, owner, run) {
      MatchAtIsTheRegexMatch(s, p, owner, run);
    }
  }

  /** A match found by the scan: where it starts and its two groups. */
  datatype Found = Found(start: nat, owner: string, run: string)

  /** `s.match(pattern)` without the `g` flag: the leftmost position from `from` on where the pattern matches. */
  function FindMatch(s: string, from: nat): (r: Option<Found>)
    requires from <= |s|
    ensures r.Some? ==>
      from <= r.value.start <= |s| && RegexMatchesAt(s, r.value.start, r.value.owner, r.value.run)
    ensures r.Some? ==> forall q, owner, run :: from <= q < r.value.start ==> !RegexMatchesAt(s, q, owner, run)
    ensures r.None? ==> forall q, owner, run :: from <= q ==> !RegexMatchesAt(s, q, owner, run)
    decreases |s| - from
  {
    match MatchAt(s, from)
    case Some(c) =>
      MatchAtIsTheRegexMatch(s, from, c.owner, c.run);
      Some(Found(from, c.owner, c.run))
    case None =>
      NoMatchAt(s, from);
      if from == |s| then
        assert forall q, owner, run :: from < q ==> !RegexMatchesAt(s, q, owner, run);
        None
      else
        FindMatch(s, from + 1)
  }

  // ---------------------------------------------------------------------------
  // Owner and repository
  // ---------------------------------------------------------------------------

  /** What the form hands to the file tree. */
  datatype RepoInfo = RepoInfo(owner: string, repo: string)

  /** `s.split(sep)[0]`: the stretch of `s` before its first `sep`. */
  function CutAt(s: string, sep: char): (r: string)
    ensures |r| <= |s| && r == s[..|r|] && sep !in r
    ensures |r| < |s| ==> s[|r|] == sep
  {
    FirstPieceIsPrefixBeforeSep(s, sep);
    Split(s, sep)[0]
  }

  /** A prefix of a string lacks every character the string lacks. */
  lemma PrefixLacks(p: string, s: string, c: char)
    requires p <= s && c !in s
    ensures c !in p
  {
  }

  /** `repo.split('/')[0]`, then `.split('#')[0]`, then `.split('?')[0]`. */
  function CutRepo(run: string): string
  {
    CutAt(CutAt(CutAt(run, '/'), '#'), '?')
  }

  /**
   * The cut repository is a prefix of the run free of `/`, `#` and `?`, and
   * stops only at one of those or at the end.
   */
  lemma CutRepoIsCleanPrefix(run: string)
    ensures var repo := CutRepo(run);
      && |repo| <= |run| && repo == run[..|repo|]
      && '/' !in repo && '#' !in repo && '?' !in repo
      && (|repo| < |run| ==> run[|repo|] == '/' || run[|repo|] == '#' || run[|repo|] == '?')
  {
    var r1 := CutAt(run, '/');
    var r2 := CutAt(r1, '#');
    var r3 := CutAt(r2, '?');
    PrefixLacks(r2, r1, '/');
    PrefixLacks(r3, r1, '/');
    PrefixLacks(r3, r2, '#');
    assert r3 <= run;
    if |r3| < |run| {
      if |r3| < |r2| {
        assert run[|r3|] == r2[|r3|];
      } else if |r2| < |r1| {
        assert run[|r2|] == r1[|r2|];
      }
    }
  }

  /** The cut keeps the longest prefix of `run` that has no `/`, `#` or `?`. */
  lemma CutRepoIsLongestCleanPrefix(run: string, k: nat)
    requires k <= |run|
    requires forall i :: 0 <= i < k ==> run[i] != '/' && run[i] != '#' && run[i] != '?'
    requires k == |run| || run[k] == '/' || run[k] == '#' || run[k] == '?'
    ensures CutRepo(run) == run[..k]
  {
    CutRepoIsCleanPrefix(run);
  }

  /** `handleSubmit`'s parsing: the repository to open, or the error to show. */
  function Parse(url: string): (r: Result<RepoInfo, string>)
    ensures r.Failure? ==> r.error == InvalidUrlMessage
  {
    match FindMatch(url, 0)
    case None => Failure(InvalidUrlMessage)
    case Some(f) => Success(RepoInfo(f.owner, CutRepo(f.run)))
  }

  /** Parsing fails exactly when the pattern matches nowhere in the URL. */
  lemma ParseFailsIffNoMatch(url: string)
    ensures Parse(url).Failure? <==> forall p, owner, run :: !RegexMatchesAt(url, p, owner, run)
  {
    var f := FindMatch(url, 0);
    if f.Some? {
      assert RegexMatchesAt(url, f.value.start, f.value.owner, f.value.run);
    }
  }

  /**
   * Given the leftmost match, parsing yields its first group as the owner and
   * the second, cut, as the repository.
   */
  lemma ParseTakesLeftmostMatch(url: string, p: int, owner: string, run: string)
    requires RegexMatchesAt(url, p, owner, run)
    requires forall q, o, t :: 0 <= q < p ==> !RegexMatchesAt(url, q, o, t)
    ensures Parse(url) == Success(RepoInfo(owner, CutRepo(run)))
  {
    var v := FindMatch(url, 0).value;
    assert v.start == p;
    MatchAtIsTheRegexMatch(url, p, owner, run);
    MatchAtIsTheRegexMatch(url, p, v.owner, v.run);
  }

  /**
   * A successful parse comes from a match of the pattern: the owner is its
   * nonempty slash-free first group, uncut, and the repository is the cut
   * second group, free of `/`, `#` and `?`.
   */
  lemma ParsedOwnerAndRepo(url: string)
    requires Parse(url).Success?
    ensures var info := Parse(url).value;
      && info.owner != "" && '/' !in info.owner
      && '/' !in info.repo && '#' !in info.repo && '?' !in info.repo
      && exists p, run :: RegexMatchesAt(url, p, info.owner, run) && info.repo == CutRepo(run)
  {
    var f := FindMatch(url, 0).value;
    CutRepoIsCleanPrefix(f.run);
    assert RegexMatchesAt(url, f.start, f.owner, f.run);
  }

  /** No match can start inside a stretch that holds no `g`, the first letter of the host. */
  lemma NoMatchInsideGFreePrefix(pre: string, url: string)
    requires 'g' !in pre && pre <= url
    ensures forall q, o, t :: 0 <= q < |pre| ==> !RegexMatchesAt(url, q, o, t)
  {
    forall q, o, t | 0 <= q < |pre| ensures !RegexMatchesAt(url, q, o, t) {
      if q + |Host| <= |url| {
        assert url[q..q + |Host|][0] == pre[q];
      }
    }
  }

  /**
   * The URL of a repository page: whatever precedes the host (a scheme, say)
   * has no `g`, and whatever follows the second group starts with `/`. The
   * parse names that owner and the cut second group.
   */
  lemma ParseOfRepositoryUrl(pre: string, owner: string, run: string, rest: string)
    requires 'g' !in pre
    requires owner != "" && '/' !in owner && run != "" && '/' !in run
    requires rest == "" || rest[0] == '/'
    ensures Parse(pre + Host + owner + "/" + run + rest) == Success(RepoInfo(owner, CutRepo(run)))
  {
    var url := pre + Host + owner + "/" + run + rest;
    var a := |pre| + |Host|;
    var b := a + |owner| + 1;
    assert url[|pre|..a] == Host;
    assert url[a..a + |owner|] == owner;
    assert url[a + |owner|] == '/';
    assert url[b..b + |run|] == run;
    assert b + |run| == |url| || url[b + |run|] == rest[0];
    assert RegexMatchesAt(url, |pre|, owner, run);
    NoMatchInsideGFreePrefix(pre, url);
    ParseTakesLeftmostMatch(url, |pre|, owner, run);
  }

  /** With no `/` after the host there is no second group, so the URL is rejected. */
  lemma RejectedWithoutRepositorySegment(pre: string, tail: string)
    requires 'g' !in pre && '/' !in tail
    ensures Parse(pre + Host + tail) == Failure(InvalidUrlMessage)
  {
    var url := pre + Host + tail;
    var start := |pre| + |Host|;
    assert url[start..] == tail;
    forall q, o, t | RegexMatchesAt(url, q, o, t) ensures false {
      NoMatchInsideGFreePrefix(pre, url);
      var slash := if q == |pre| then q + |Host| + |o| else q + |Host| - 1;
    }
    ParseFailsIffNoMatch(url);
  }

  /**
   * Trailing segments are dropped: a repository page URL, followed by any
   * path, names that repository when its name has no `#` or `?`.
   */
  lemma TrailingSegmentsAreDropped(pre: string, owner: string, repo: string, rest: string)
    requires 'g' !in pre
    requires owner != "" && '/' !in owner
    requires repo != "" && '/' !in repo && '#' !in repo && '?' !in repo
    requires rest == "" || rest[0] == '/'
    ensures Parse(pre + Host + owner + "/" + repo + rest) == Success(RepoInfo(owner, repo))
  {
    CutRepoIsLongestCleanPrefix(repo, |repo|);
    ParseOfRepositoryUrl(pre, owner, repo, rest);
  }

  /**
   * A second group that starts with `#` or `?` leaves an empty repository,
   * and parsing still succeeds.
   */
  lemma EmptyRepositoryIsAccepted(pre: string, owner: string, run: string, rest: string)
    requires 'g' !in pre
    requires owner != "" && '/' !in owner && run != "" && '/' !in run
    requires run[0] == '#' || run[0] == '?'
    requires rest == "" || rest[0] == '/'
    ensures Parse(pre + Host + owner + "/" + run + rest) == Success(RepoInfo(owner, ""))
  {
    CutRepoIsLongestCleanPrefix(run, 0);
    ParseOfRepositoryUrl(pre, owner, run, rest);
  }

  /** A profile URL has no second group, so it is rejected. */
  lemma ProfileUrlIsRejected(url: string)
    requires url == "https://github.com/octocat"
    ensures Parse(url) == Failure(InvalidUrlMessage)
  {
    assert url == "https://" + Host + "octocat";
    RejectedWithoutRepositorySegment("https://", "octocat");
  }

  // ---------------------------------------------------------------------------
  // The form
  // ---------------------------------------------------------------------------

  /** The form's state: the text field, the repository being shown and the error being shown. */
  class RepoUrlForm {
    var url: string
    var repoInfo: Option<RepoInfo>
    var error: Option<string>

    /** `useState('')`, `useState(null)`, `useState(null)`. */
    constructor ()
      ensures url == "" && repoInfo.None? && error.None?
    {
      url := "";
      repoInfo := None;
      error := None;
    }

    /** Typing in the field. */
    method SetUrl(text: string)
      modifies this
      ensures url == text && repoInfo == old(repoInfo) && error == old(error)
    {
      url := text;
    }

    /**
     * `handleSubmit`: both outcomes are cleared, then exactly one is set —
     * the parsed repository or the parse error.
     */
    method HandleSubmit()
      modifies this
      ensures url == old(url)
      ensures Parse(url).Success? ==> repoInfo == Some(Parse(url).value) && error.None?
      ensures Parse(url).Failure? ==> error == Some(InvalidUrlMessage) && repoInfo.None?
      ensures repoInfo.Some? != error.Some?
    {
      error := None;
      repoInfo := None;
      var parsed := Parse(url);
      if parsed.Failure? {
        error := Some(parsed.error);
        return;
      }
      repoInfo := Some(parsed.value);
    }

    /** Pressing the button: the `required` field blocks a submit while it is empty. */
    method Submit()
      modifies this
      ensures old(url) == "" ==> repoInfo == old(repoInfo) && error == old(error)
      ensures old(url) != "" ==> repoInfo.Some? != error.Some?
      ensures old(url) != "" && Parse(url).Success? ==> repoInfo == Some(Parse(url).value) && error.None?
      ensures old(url) != "" && Parse(url).Failure? ==> error == Some(InvalidUrlMessage) && repoInfo.None?
      ensures url == old(url)
    {
      if url != "" {
        HandleSubmit();
      }
    }

    /** `closeRepoTree`: the file tree closes; the error is left alone. */
    method CloseRepoTree()
      modifies this
      ensures repoInfo.None? && url == old(url) && error == old(error)
    {
      repoInfo := None;
    }
  }
}
