/**
 * The profile page's pure logic: the repository search filter, the search
 * spinner, the guard that keeps a blank username from starting a fetch, the
 * user fetched on first display, the empty-list notice and the topic chips
 * on each repository card.
 */
module UserProfile {
  import opened Wrappers
  import opened Text

  /** The fields of a repository the page reads; absent description or language is `None`. */
  datatype Repo = Repo(name: string, description: Option<string>, language: Option<string>, topics: seq<string>)

  // ---------------------------------------------------------------------------
  // The repository filter
  // ---------------------------------------------------------------------------

  /** `field && field.toLowerCase().includes(term)`: an absent or empty field never matches. */
  predicate FieldMatches(field: Option<string>, term: string)
  {
    field.Some? && field.value != "" && Includes(Lower(field.value), term)
  }

  /** The predicate `repos.filter` applies, for the debounced search term. */
  predicate Matches(repo: Repo, term: string)
  {
    if term == "" then true
    else
      var needle := Lower(term);
      Includes(Lower(repo.name), needle)
      || FieldMatches(repo.description, needle)
      || FieldMatches(repo.language, needle)
  }

  /** `filteredRepos`: the repositories that match, in their original order. */
  function FilterRepos(repos: seq<Repo>, term: string): (kept: seq<Repo>)
    ensures |kept| <= |repos|
    ensures forall k :: 0 <= k < |kept| ==> Matches(kept[k], term)
  {
    if repos == [] then []
    else if Matches(repos[0], term) then [repos[0]] + FilterRepos(repos[1..], term)
    else FilterRepos(repos[1..], term)
  }

  /** An empty search term keeps every repository. */
  lemma {:induction false} EmptyTermKeepsAll(repos: seq<Repo>)
    ensures FilterRepos(repos, "") == repos
  {
    if repos != [] {
      EmptyTermKeepsAll(repos[1..]);
      assert repos == [repos[0]] + repos[1..];
    }
  }

  /** Filtering a concatenation filters each part: the kept repositories keep their order. */
  lemma {:induction false} FilterAppend(a: seq<Repo>, b: seq<Repo>, term: string)
    ensures FilterRepos(a + b, term) == FilterRepos(a, term) + FilterRepos(b, term)
  {
    if a != [] {
      assert (a + b)[0] == a[0];
      assert (a + b)[1..] == a[1..] + b;
      FilterAppend(a[1..], b, term);
    } else {
      assert a + b == b;
    }
  }

  /** Each repository is kept as often as it occurs when it matches, and never otherwise. */
  lemma {:induction false} FilterCounts(repos: seq<Repo>, term: string, r: Repo)
    ensures multiset(FilterRepos(repos, term))[r] == if Matches(r, term) then multiset(repos)[r] else 0
  {
    if repos != [] {
      FilterCounts(repos[1..], term, r);
      assert repos == [repos[0]] + repos[1..];
      assert multiset(repos) == multiset([repos[0]]) + multiset(repos[1..]);
    }
  }

  /** A repository appears in the result exactly when it is in the list and matches. */
  lemma FilterMembership(repos: seq<Repo>, term: string, r: Repo)
    ensures r in FilterRepos(repos, term) <==> r in repos && Matches(r, term)
  {
    FilterCounts(repos, term, r);
    assert r in FilterRepos(repos, term) <==> r in multiset(FilterRepos(repos, term));
    assert r in repos <==> r in multiset(repos);
  }

  /** Lower-casing twice changes nothing more. */
  lemma LowerIdempotent(s: string)
    ensures Lower(Lower(s)) == Lower(s)
  {
  }

  /** Two terms that differ only in letter case select the same repositories. */
  lemma {:induction false} FilterIgnoresCase(repos: seq<Repo>, t1: string, t2: string)
    requires Lower(t1) == Lower(t2)
    ensures FilterRepos(repos, t1) == FilterRepos(repos, t2)
  {
    assert t1 == "" <==> t2 == "" by {
      assert |t1| == |Lower(t1)| && |t2| == |Lower(t2)|;
    }
    if repos != [] {
      assert Matches(repos[0], t1) == Matches(repos[0], t2);
      FilterIgnoresCase(repos[1..], t1, t2);
    }
  }

  /** A nonempty term matches a repository exactly through its name, its description or its language. */
  lemma MatchesThroughAField(repo: Repo, term: string)
    requires term != ""
    ensures Matches(repo, term) <==>
      (exists i :: OccursAt(Lower(repo.name), Lower(term), i))
      || (repo.description.Some? && repo.description.value != ""
          && exists i :: OccursAt(Lower(repo.description.value), Lower(term), i))
      || (repo.language.Some? && repo.language.value != ""
          && exists i :: OccursAt(Lower(repo.language.value), Lower(term), i))
  {
  }

  /** With neither description nor language, only the name can make a repository match. */
  lemma AbsentFieldsNeverMatch(repo: Repo, term: string)
    requires repo.description.None? && repo.language.None?
    ensures Matches(repo, term) <==> term == "" || Includes(Lower(repo.name), Lower(term))
  {
  }

  // ---------------------------------------------------------------------------
  // The search spinner
  // ---------------------------------------------------------------------------

  /** The effect on `[searchTerm, debouncedSearchTerm]`: the spinner shows while the debounce lags. */
  function SearchLoading(searchTerm: string, debouncedTerm: string): (spinning: bool)
  {
    searchTerm != debouncedTerm
  }

  // ---------------------------------------------------------------------------
  // Starting a fetch
  // ---------------------------------------------------------------------------

  /** The page state a search touches: the typed username, the spinner, the error and the user being fetched. */
  datatype PageState = PageState(username: string, loading: bool, error: Option<string>, fetching: Option<string>)

  /** The synchronous start of `fetchUserData`: a blank name returns at once; otherwise loading starts and the error clears. */
  function StartFetch(s: PageState, username: string): PageState
  {
    if Trim(username) == "" then s
    else s.(loading := true, error := None, fetching := Some(username))
  }

  /** `handleUserSearch`: the field always takes the new name; the fetch starts only for a name that is not blank. */
  function HandleUserSearch(s: PageState, newUsername: string): (t: PageState)
    ensures t.username == newUsername
    ensures (forall i :: 0 <= i < |newUsername| ==> IsJsSpace(newUsername[i])) ==>
      t.loading == s.loading && t.error == s.error && t.fetching == s.fetching
    ensures (exists i :: 0 <= i < |newUsername| && !IsJsSpace(newUsername[i])) ==>
      t.loading && t.error.None? && t.fetching == Some(newUsername)
  {
    TrimEmptyIffAllSpace(newUsername);
    var named := s.(username := newUsername);
    if Trim(newUsername) != "" then StartFetch(named, newUsername) else named
  }

  /** Searching twice for the same name leaves the page as searching once does. */
  lemma HandleUserSearchIdempotent(s: PageState, name: string)
    ensures HandleUserSearch(HandleUserSearch(s, name), name) == HandleUserSearch(s, name)
  {
  }

  /** The user the route effect asks for: the route's name, else the typed one, else `github`. */
  function InitialUser(urlUsername: string, username: string): (who: string)
    ensures who != ""
    ensures urlUsername != "" ==> who == urlUsername
    ensures urlUsername == "" && username != "" ==> who == username
    ensures urlUsername == "" && username == "" ==> who == "github"
  {
    if urlUsername != "" then urlUsername
    else if username != "" then username
    else "github"
  }

  /**
   * The effect on `[urlUsername]`, run on mount and whenever the route's
   * username changes: a route name is copied into the field, then the chosen
   * user is fetched unless that name is blank.
   */
  function RouteEffect(s: PageState, urlUsername: string): (t: PageState)
    ensures t.username == if urlUsername != "" then urlUsername else s.username
    ensures var who := InitialUser(urlUsername, s.username);
      (forall i :: 0 <= i < |who| ==> IsJsSpace(who[i])) ==>
        t.loading == s.loading && t.error == s.error && t.fetching == s.fetching
    ensures var who := InitialUser(urlUsername, s.username);
      (exists i :: 0 <= i < |who| && !IsJsSpace(who[i])) ==>
        t.loading && t.error.None? && t.fetching == Some(who)
  {
    var who := InitialUser(urlUsername, s.username);
    TrimEmptyIffAllSpace(who);
    StartFetch(if urlUsername != "" then s.(username := urlUsername) else s, who)
  }

  /** With neither a route name nor a typed one, the page fetches the `github` user. */
  lemma DefaultUserIsFetched(s: PageState)
    requires s.username == ""
    ensures RouteEffect(s, "").loading && RouteEffect(s, "").fetching == Some("github")
  {
    assert !IsJsSpace(InitialUser("", s.username)[0]);
  }

  // ---------------------------------------------------------------------------
  // What the repository panel shows
  // ---------------------------------------------------------------------------

  /** The notice over an empty list; it looks at the typed term, not the debounced one. */
  function EmptyListNotice(repos: seq<Repo>, searchTerm: string, debouncedTerm: string): (notice: Option<string>)
    ensures notice.Some? <==> FilterRepos(repos, debouncedTerm) == []
  {
    if |FilterRepos(repos, debouncedTerm)| == 0 then
      Some(if searchTerm != "" then "No repositories match your search." else "No repositories found.")
    else None
  }

  /** With no search term at all, the notice appears exactly when the user has no repositories. */
  lemma NoSearchNoticeMeansNoRepositories(repos: seq<Repo>)
    ensures EmptyListNotice(repos, "", "") == if repos == [] then Some("No repositories found.") else None
  {
    EmptyTermKeepsAll(repos);
  }

  /**
   * "No repositories found." shows when the box is empty and the debounced
   * filter keeps nothing. Once the spinner is off, that happens exactly
   * when the user has no repositories.
   */
  lemma NoRepositoriesNotice(repos: seq<Repo>, searchTerm: string, debouncedTerm: string)
    ensures EmptyListNotice(repos, searchTerm, debouncedTerm) == Some("No repositories found.") <==>
      searchTerm == "" && FilterRepos(repos, debouncedTerm) == []
    ensures !SearchLoading(searchTerm, debouncedTerm) ==>
      (EmptyListNotice(repos, searchTerm, debouncedTerm) == Some("No repositories found.") <==>
        searchTerm == "" && repos == [])
  {
    if searchTerm == "" && !SearchLoading(searchTerm, debouncedTerm) {
      EmptyTermKeepsAll(repos);
    }
  }

  /**
   * Right after the box is cleared, the debounced term still holds the old
   * search, so a user whose repositories it filters out is told they have
   * none until the spinner stops.
   */
  lemma ClearedBoxCanHideRepositories(repo: Repo, term: string)
    requires repo.description.None? && repo.language.None? && |repo.name| < |term|
    ensures SearchLoading("", term)
    ensures EmptyListNotice([repo], "", term) == Some("No repositories found.")
  {
    assert !Includes(Lower(repo.name), Lower(term));
    assert [repo][1..] == [];
  }

  /** The topic chips on a card and the count on the `+n` badge, if any. */
  datatype TopicRow = TopicRow(chips: seq<string>, more: Option<nat>)

  /** `topics.slice(0, 3)` and `+{topics.length - 3}`; no row at all without topics. */
  function TopicChips(topics: seq<string>): (row: Option<TopicRow>)
    ensures row.None? <==> topics == []
    ensures row.Some? ==> row.value.chips <= topics
  {
    if topics == [] then None
    else if |topics| <= 3 then Some(TopicRow(topics, None))
    else Some(TopicRow(topics[..3], Some(|topics| - 3)))
  }

  /**
   * The row shows the first min(3, n) topics; the badge appears exactly when
   * n > 3, and chips plus badge account for every topic.
   */
  lemma TopicChipsAccountForAll(topics: seq<string>)
    requires topics != []
    ensures var row := TopicChips(topics).value;
      && |row.chips| == (if |topics| < 3 then |topics| else 3)
      && (row.more.Some? <==> |topics| > 3)
      && |row.chips| + (if row.more.Some? then row.more.value else 0) == |topics|
  {
  }
}
