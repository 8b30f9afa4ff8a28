# github-viewer: the repository file tree, the repository-URL form and the profile page's repository filter

This Dafny project models three parts of a React front end for GitHub:

- **The file-tree panel** (`src/components/RepoTree.jsx`, module `RepoTree` in `repo_tree.dfy`).
  - `processTreeData` turns the flat `{path, type}` list of a recursive tree listing into nested nodes. It keeps a path dictionary and pushes each node onto its parent's `children`.
    - The JavaScript shares node objects between that dictionary and the `children` arrays. The model keeps them in an arena instead:
      - index 0 is the synthetic root;
      - index k + 1 is the node created for entry k;
      - `children` holds arena indices;
      - the dictionary maps paths to indices.
    - `ProcessTreeData` is a loop over the entries, with the `forEach` callback as the method `ProcessEntry`. It is proved equal to the entry-by-entry specification `Arena`, and the properties of the tree are lemmas about `Arena`.
  - The sibling comparator puts folders first, then orders by name. The stable in-place `Array.prototype.sort` that uses it is a functional insertion sort `SortIds` plus an in-place array insertion sort `SortInPlace` proved equal to it.
  - `renderTreeItem`'s recursion is the function `TreeRows`, which gives the list of visible rows with their indents.
  - The component's state is the class `RepoTreeView`: tree, loading flag, error and the `expandedFolders` dictionary. The fetch outcomes, `toggleFolder`, a click on a row and the render-time sort of a `children` array are its methods.
- **The repository-URL form** (`src/components/RepoUrlInput.jsx`, module `RepoUrl` in `repo_url.dfy`).
  - `github\.com\/([^\/]+)\/([^\/]+)` is modelled twice:
    - the predicate `RegexMatchesAt` says what a match is;
    - the leftmost scan `FindMatch` is how `String.prototype.match` finds one.
    The two are proved to agree.
  - `Parse` cuts the repository at its first `/`, `#` and `?`.
  - The class `RepoUrlForm` holds the form's state: the URL, `repoInfo` and `error`.
- **The profile page** (`src/pages/UserProfilePage.jsx`, module `UserProfile` in `user_profile.dfy`). It covers:
  - the `filteredRepos` predicate and filter;
  - the search spinner;
  - the guard that keeps a blank username from starting a fetch;
  - the user fetched when the route's username changes, including on mount;
  - the empty-list notice;
  - the topic chips.

Shared modules:
- `text.dfy` (module `Text`) holds the JavaScript string operations used here: `split`/`join` on one character, `includes`, ASCII `toLowerCase` and `trim`.
- `wrappers.dfy` holds `Option` and `Result`.

## Model

| member | source | states |
|---|---|---|
| Text.Split | src/components/RepoTree.jsx:45 | `split('/')` yields at least one piece; no piece holds the separator; joining the pieces gives back the string; there is one piece exactly when the separator is absent |
| Text.Includes | src/pages/UserProfilePage.jsx:86-88 | `includes` is true exactly when the needle occurs at some position of the string |
| Text.Lower | src/pages/UserProfilePage.jsx:84-88 | lowercasing keeps the length and maps every character independently |
| Text.TrimEmptyIffAllSpace | src/pages/UserProfilePage.jsx:94 | `trim()` is empty exactly when every character is JavaScript white space |
| RepoTree.LastSlash | src/components/RepoTree.jsx:45-47 | the index of the last `/` in a path, or -1 when there is none |
| RepoTree.NameAndParentFromSplit | src/components/RepoTree.jsx:45-47 | a node's name is the last `/`-piece of its path (`parts.pop()`), and its parent path is the remaining pieces joined by `/` |
| RepoTree.PathIndex | src/components/RepoTree.jsx:41-57 | the path dictionary only ever refers to nodes already created |
| RepoTree.ProcessTreeData | src/components/RepoTree.jsx:38-66 | the loop builds exactly the entry-by-entry arena: one node per entry besides the root, and an empty listing leaves the root without children |
| RepoTree.ProcessEntry | src/components/RepoTree.jsx:43-63 | one callback creates the entry's node, registers its path, then pushes it onto the parent found for its parent path, or onto the root |
| RepoTree.PathIndexHoldsLatest | src/components/RepoTree.jsx:41-57 | after m entries, a path is registered exactly when some entry among them has it (`""` always is), and it maps to the latest such entry |
| RepoTree.AttachedUnderLatestRegistration | src/components/RepoTree.jsx:57-62 | an entry goes under the latest node registered for its parent path at the time it is processed; when there is none it goes under the root |
| RepoTree.ParentPosition | src/components/RepoTree.jsx:57-60 | the parent is created no later than the entry, and strictly earlier unless the path is empty, in which case the entry becomes its own child |
| RepoTree.AttachedInInputOrder | src/components/RepoTree.jsx:59-62 | a node's children are exactly the entries pushed under it, strictly in input order; entries are never moved later |
| RepoTree.EachEntryPushedExactlyOnce | src/components/RepoTree.jsx:43-65 | there is no de-duplication and nothing is lost: each entry occurs exactly once among all children lists, in its parent's list |
| RepoTree.EntryNodeShape | src/components/RepoTree.jsx:50-61 | a node keeps its entry's path and type and takes the last path piece as its name; it has `children` iff it is a folder or something was pushed under it (a file used as a parent gets children on demand) |
| RepoTree.OrphanStaysUnderRoot | src/components/RepoTree.jsx:60 | an entry whose parent path was never registered before it goes under the root |
| RepoTree.DuplicatePathLaterNodeWins | src/components/RepoTree.jsx:57-62 | when two entries share a path, both nodes stay as children, and later entries under that path attach to the later node |
| RepoTree.EmptyPathAdoptsLaterTopLevelEntries | src/components/RepoTree.jsx:57-60 | after an entry with an empty path, later top-level entries attach under that entry's node, not under the root |
| RepoTree.ArenaChildrenInRange | src/components/RepoTree.jsx:59-62 | every child index names a node of the arena |
| RepoTree.NoEmptyPathGivesTree | src/components/RepoTree.jsx:57-62 | when no entry has an empty path, every child comes after its parent, so the structure is a tree |
| RepoTree.NameLessIrreflexive | src/components/RepoTree.jsx:112 | the name order is irreflexive |
| RepoTree.NameLessAsymmetric | src/components/RepoTree.jsx:112 | the name order is asymmetric |
| RepoTree.NameLessTransitive | src/components/RepoTree.jsx:112 | the name order is transitive |
| RepoTree.NameLessTotal | src/components/RepoTree.jsx:112 | any two different names are ordered one way or the other |
| RepoTree.SiblingComparatorIsConsistent | src/components/RepoTree.jsx:108-112 | the comparator is antisymmetric; it returns 0 exactly for the same type and name; it is transitive both strictly and non-strictly, so it is a consistent comparator for `sort` |
| RepoTree.InsertPermutes | src/components/RepoTree.jsx:108 | one insertion step adds exactly the inserted child to the multiset |
| RepoTree.SortIdsPermutes | src/components/RepoTree.jsx:108-113 | sorting a children list is a permutation of it |
| RepoTree.InsertKeepsOrder | src/components/RepoTree.jsx:108-112 | inserting into an ordered list keeps it ordered |
| RepoTree.SortIdsOrders | src/components/RepoTree.jsx:108-113 | the sort yields an ordered permutation of the children |
| RepoTree.OrderedMeansFoldersFirstThenByName | src/components/RepoTree.jsx:108-112 | in a sorted list every folder precedes every file, and within each kind the names never decrease |
| RepoTree.SortingOrderedIsIdentity | src/components/RepoTree.jsx:108-113 | the stable sort leaves an already ordered list unchanged |
| RepoTree.SortIsIdempotent | src/components/RepoTree.jsx:108-113 | sorting the sorted children again changes nothing |
| RepoTree.InsertKeepsPeers | src/components/RepoTree.jsx:108-112 | an insertion step puts the new child after every sibling it ties with (same kind and name) and leaves their order alone |
| RepoTree.SortIsStable | src/components/RepoTree.jsx:108-113 | the sort is stable: for every node, the siblings that tie with it (a duplicated path, an orphan beside a namesake) come out in their input order |
| RepoTree.SortIdsPrefix | src/components/RepoTree.jsx:108 | sorting one more element inserts it into the sorted prefix |
| RepoTree.InsertLandsAt | src/components/RepoTree.jsx:108 | an element goes right after the last sibling it does not sort before, which keeps the sort stable |
| RepoTree.InsertionPoint | src/components/RepoTree.jsx:108 | the scan from the right stops at the first sibling the element does not sort before; everything it passed sorts after the element |
| RepoTree.ShiftRight | src/components/RepoTree.jsx:108 | the in-place shift moves the slot range one place right and leaves the rest of the array unchanged |
| RepoTree.InsertInPlace | src/components/RepoTree.jsx:108 | one in-place insertion step turns the array's prefix into the functional insertion of the next element, and leaves the suffix unchanged |
| RepoTree.SortInPlace | src/components/RepoTree.jsx:108-113 | the in-place array sort leaves exactly the stable sort of the original contents |
| RepoTree.SortedChildrenFollow | src/components/RepoTree.jsx:113 | the sorted children of a node still all come after it |
| RepoTree.ItemRowsAreBlock | src/components/RepoTree.jsx:75-117 | a node renders its own row first; every rendered row shows its node's path, name, folder flag, expansion and indent; a deeper row is one level deeper and is a child of the row above it, which is an expanded folder with children |
| RepoTree.ChildRowsAreBlock | src/components/RepoTree.jsx:108-113 | the rows of a list of children have the same shape, and they are empty exactly when the list is |
| RepoTree.ItemRowsLevels | src/components/RepoTree.jsx:106-113 | a node's rows hold the node alone at its own indent; at indent + 1 they hold its sorted children when it is an expanded folder with children, and nothing otherwise |
| RepoTree.ChildRowsLevels | src/components/RepoTree.jsx:113 | the children rendered at `indent` are exactly the given children, in the given order |
| RepoTree.TreeRowsShowSortedTree | src/components/RepoTree.jsx:151-161 | the panel's rows start at indent 0 with exactly the root's sorted children, nest as above, and are empty exactly when the root has no children |
| RepoTree.Resorted | src/components/RepoTree.jsx:108-113 | writing a node's sorted children back keeps the arena's size |
| RepoTree.ResortedIsTree | src/components/RepoTree.jsx:108-113 | writing sorted children back keeps every child after its parent |
| RepoTree.ItemRowsResorted | src/components/RepoTree.jsx:108-113 | a node's rows are unchanged when any node's children are re-sorted in place |
| RepoTree.ChildRowsResorted | src/components/RepoTree.jsx:108-113 | the rows of a children list are unchanged when any node's children are re-sorted in place |
| RepoTree.ResortingKeepsTreeRows | src/components/RepoTree.jsx:151-161 | the in-place sort that a render performs is invisible to every later render |
| RepoTree.FetchErrorText | src/components/RepoTree.jsx:26 | the error text is the server's message when it has a nonempty one, and `'Error fetching repository tree'` otherwise; it is never empty |
| RepoTree.PanelShowsOneOutcome | src/components/RepoTree.jsx:134-162 | the spinner follows `loading`; the error box shows exactly when the error is a nonempty message (`error && …`); once loading ends with no error shown, exactly one of "No files found" and a nonempty tree shows, and before that neither does |
| RepoTree.RepoTreeView.constructor | src/components/RepoTree.jsx:5-8 | a new panel holds an empty tree, is loading, has no error and has nothing expanded |
| RepoTree.RepoTreeView.BeginFetch | src/components/RepoTree.jsx:10-36 | a fetch turns loading on only when both owner and repo are nonempty; nothing else changes |
| RepoTree.RepoTreeView.FetchSucceeded | src/components/RepoTree.jsx:22-30 | a successful fetch stores the built tree, clears the error and ends loading; expansion state is kept |
| RepoTree.RepoTreeView.FetchFailed | src/components/RepoTree.jsx:26-29 | a failed fetch sets the error text, empties the tree and ends loading; expansion state is kept |
| RepoTree.RepoTreeView.ToggleFolder | src/components/RepoTree.jsx:68-73 | the path's expansion flips, with an absent key counting as collapsed; every other path's expansion is unchanged |
| RepoTree.RepoTreeView.Click | src/components/RepoTree.jsx:84 | clicking a folder row toggles that folder; clicking a file row changes nothing |
| RepoTree.RepoTreeView.SortChildren | src/components/RepoTree.jsx:108-113 | the sort in a render reorders one node's `children` in place and that order stays in the state; the tree's invariant is kept |
| RepoTree.RepoTreeView.View | src/components/RepoTree.jsx:141-145 | the panel of a valid state shows the stored error in its error box, since a stored error is never empty |
| RepoUrl.RunLength | src/components/RepoUrlInput.jsx:18 | `[^\/]+` extends greedily: the stretch has no `/` and ends at a `/` or at the end of the string |
| RepoUrl.RunIsSlashFree | src/components/RepoUrlInput.jsx:18 | the greedy stretch is a slash-free substring at its start |
| RepoUrl.StretchIsRun | src/components/RepoUrlInput.jsx:18 | a slash-free substring that ends at `/` or at the end is the greedy stretch |
| RepoUrl.MatchAtSound | src/components/RepoUrlInput.jsx:18 | what the engine captures at a position is a match of the pattern there |
| RepoUrl.MatchAtComplete | src/components/RepoUrlInput.jsx:18 | any match of the pattern at a position is what the engine captures there |
| RepoUrl.MatchAtIsTheRegexMatch | src/components/RepoUrlInput.jsx:18 | trying the pattern at a position succeeds with given groups exactly when the pattern matches there with those groups |
| RepoUrl.NoMatchAt | src/components/RepoUrlInput.jsx:18-19 | where the engine fails, no match starts |
| RepoUrl.FindMatch | src/components/RepoUrlInput.jsx:18-19 | `url.match` returns the leftmost match: it is a match, no match starts earlier, and a failure means no match anywhere |
| RepoUrl.CutAt | src/components/RepoUrlInput.jsx:30-32 | `split(sep)[0]` is the prefix before the first separator: it is separator-free and is followed by the separator or the end |
| RepoUrl.CutRepoIsCleanPrefix | src/components/RepoUrlInput.jsx:27-32 | the repository is a prefix of the captured group with no `/`, `#` or `?`, and it stops only at one of them or at the end |
| RepoUrl.CutRepoIsLongestCleanPrefix | src/components/RepoUrlInput.jsx:30-32 | the repository is the longest such prefix |
| RepoUrl.Parse | src/components/RepoUrlInput.jsx:18-34 | a failed parse carries exactly the "Invalid GitHub repository URL" message |
| RepoUrl.ParseFailsIffNoMatch | src/components/RepoUrlInput.jsx:18-24 | parsing fails exactly when the pattern matches nowhere in the URL |
| RepoUrl.ParseTakesLeftmostMatch | src/components/RepoUrlInput.jsx:18-34 | from the leftmost match, the owner is the first group, uncut, and the repository is the second group, cut |
| RepoUrl.ParsedOwnerAndRepo | src/components/RepoUrlInput.jsx:26-32 | on success the owner is nonempty and slash-free, the repository has no `/`, `#` or `?`, and both come from one match |
| RepoUrl.NoMatchInsideGFreePrefix | src/components/RepoUrlInput.jsx:18 | no match can start inside a stretch that holds no `g` |
| RepoUrl.ParseOfRepositoryUrl | src/components/RepoUrlInput.jsx:18-34 | for `scheme + github.com/owner/run + /rest`, the parse is the owner and the cut run |
| RepoUrl.RejectedWithoutRepositorySegment | src/components/RepoUrlInput.jsx:18-24 | with no `/` after `github.com/owner`, the URL is rejected |
| RepoUrl.TrailingSegmentsAreDropped | src/components/RepoUrlInput.jsx:29-34 | segments after the repository are dropped: `https://github.com/o/r/issues/5` names `(o, r)` |
| RepoUrl.EmptyRepositoryIsAccepted | src/components/RepoUrlInput.jsx:30-34 | a second group starting with `#` or `?` gives an empty repository, and that still counts as success |
| RepoUrl.ProfileUrlIsRejected | src/components/RepoUrlInput.jsx:21-24 | `https://github.com/octocat` is rejected with the invalid-URL message |
| RepoUrl.RepoUrlForm.constructor | src/components/RepoUrlInput.jsx:5-7 | the form starts with an empty URL, no repository and no error |
| RepoUrl.RepoUrlForm.SetUrl | src/components/RepoUrlInput.jsx:57 | typing replaces the URL and touches nothing else |
| RepoUrl.RepoUrlForm.HandleSubmit | src/components/RepoUrlInput.jsx:9-38 | a submit clears both outcomes and then sets exactly one: the parsed repository on success, the invalid-URL message on failure |
| RepoUrl.RepoUrlForm.Submit | src/components/RepoUrlInput.jsx:53-60 | the `required` field blocks a submit while the URL is empty, so nothing changes; otherwise the outcome is that of `handleSubmit`: the parsed repository on success, the invalid-URL message on failure |
| RepoUrl.RepoUrlForm.CloseRepoTree | src/components/RepoUrlInput.jsx:40-42 | closing clears only the repository; the URL and the error are kept |
| UserProfile.FilterRepos | src/pages/UserProfilePage.jsx:81-90 | the filtered list is no longer than the input, and every repository in it matches |
| UserProfile.EmptyTermKeepsAll | src/pages/UserProfilePage.jsx:82 | an empty debounced term keeps every repository, in order |
| UserProfile.FilterAppend | src/pages/UserProfilePage.jsx:81 | filtering a concatenation filters each part, so kept repositories keep their relative order |
| UserProfile.FilterCounts | src/pages/UserProfilePage.jsx:81-90 | a matching repository is kept as many times as it occurs, and a non-matching one never |
| UserProfile.FilterMembership | src/pages/UserProfilePage.jsx:81-90 | a repository is in the result exactly when it is in the list and matches |
| UserProfile.LowerIdempotent | src/pages/UserProfilePage.jsx:84 | lowercasing twice is lowercasing once |
| UserProfile.FilterIgnoresCase | src/pages/UserProfilePage.jsx:84-88 | two terms that differ only in letter case select the same repositories |
| UserProfile.MatchesThroughAField | src/pages/UserProfilePage.jsx:84-89 | a nonempty term matches exactly when its lowercase form occurs in the lowercase name, in the present nonempty description, or in the present nonempty language |
| UserProfile.AbsentFieldsNeverMatch | src/pages/UserProfilePage.jsx:87-88 | without description or language, only the name can produce a match |
| UserProfile.HandleUserSearch | src/pages/UserProfilePage.jsx:92-97 | the typed name is always stored; an all-white-space name leaves loading, error and fetch untouched; any other name starts a fetch of that name as typed, with loading on and the error cleared |
| UserProfile.HandleUserSearchIdempotent | src/pages/UserProfilePage.jsx:92-97 | searching twice for the same name leaves the page as one search does |
| UserProfile.InitialUser | src/pages/UserProfilePage.jsx:111-119 | the route effect asks for the route's user when there is one, else for the typed name, else for `github`; the name is never empty |
| UserProfile.RouteEffect | src/pages/UserProfilePage.jsx:110-120 | on mount and on every change of the route's username, a route name is copied into the field; the chosen user is fetched, with loading on and the error cleared, unless that name is all white space, in which case the guard at line 49 leaves loading, error and fetch as they were |
| UserProfile.DefaultUserIsFetched | src/pages/UserProfilePage.jsx:116-119 | with no route name and no typed name, the `github` user is fetched |
| UserProfile.EmptyListNotice | src/pages/UserProfilePage.jsx:169-171 | a notice appears exactly when the filtered list is empty |
| UserProfile.NoSearchNoticeMeansNoRepositories | src/pages/UserProfilePage.jsx:169-171 | with no search at all, "No repositories found." shows exactly when the user has no repositories |
| UserProfile.NoRepositoriesNotice | src/pages/UserProfilePage.jsx:169-171 | "No repositories found." shows exactly when the box is empty and the debounced filter keeps nothing; once the spinner is off, exactly when the box is empty and the user has no repositories |
| UserProfile.ClearedBoxCanHideRepositories | src/pages/UserProfilePage.jsx:169-171 | the list is filtered by the debounced term but the notice's wording follows the box: just after the box is cleared, a user whose only repository the stale term filters out is told "No repositories found." while the spinner is on |
| UserProfile.TopicChips | src/pages/UserProfilePage.jsx:225-239 | a card shows no topic row without topics, and its chips are a prefix of the topics |
| UserProfile.TopicChipsAccountForAll | src/pages/UserProfilePage.jsx:227-238 | the chips are the first min(3, n) topics; the `+(n-3)` badge appears exactly when n > 3; chips plus badge count every topic |

## Left out

- `expandedFolders` is never cleared when another repository is opened: `RepoTree.jsx` never resets it, and `FetchSucceeded` and `FetchFailed` keep it.
- HTTP requests through axios are inputs to the model, not part of it. The file tree's listing arrives as `FetchSucceeded(items)` or `FetchFailed(message)`. The profile page's user and repository responses, `setUser`/`setRepos`, the `'Error fetching data'` path and `navigate` are not modelled.
- The ordering of overlapping asynchronous fetches is not modelled. It is concurrency.
- The `useDebounce` timer is not modelled. It is timer-driven. The debounced term is a parameter, and only the spinner relation and the filter are modelled.
- `localeCompare` is locale collation. Sibling names are compared by code point instead (`NameLess`, a strict total order), and two different names never compare equal.
- `toLowerCase` lowercases ASCII letters only. Unicode case mapping is not modelled.
- Extra fields that `...item` copies into a node (`sha`, `size`, `url`, …) are not modelled. Only path, type, name and children are.
- A JavaScript object's inherited keys are not modelled: the model's path dictionary and `expandedFolders` are maps without prototype keys such as `constructor`.
- RepoTree.TreeRows, and every lemma about rendering, requires every child index to exceed its parent's. `NoEmptyPathGivesTree` proves this whenever no entry has an empty path. An entry with an empty path becomes its own child and is unreachable from the root, so the JavaScript still renders, but the model does not cover such a listing.
- RepoTree.RepoTreeView.View carries the same requirement as RepoTree.TreeRows.
- The `catch` branch of `handleSubmit` (src/components/RepoUrlInput.jsx:35-36) is not modelled. Nothing in its `try` block throws on a string URL, so the branch cannot run.
- Styling, icons, the pixel padding `indent * 16 + 8` and the repository card's other fields (fork badge, stars, forks, update date, `toLocaleDateString`) are presentation. Rows carry the indent level only.
- An absent `topics` field and an empty one render the same, so `Repo.topics` is a plain sequence.
