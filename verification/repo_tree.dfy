/**
 * The file tree of RepoTree.jsx: building a nested tree from the flat
 * `{path, type}` list of a recursive tree listing, the per-folder expansion
 * state, the sibling ordering, and the visible rows the view renders.
 *
 * The JavaScript shares node objects between its path dictionary and the
 * `children` arrays. Here the nodes live in an arena: a sequence whose
 * index 0 is the synthetic root and whose index k + 1 is the node created for
 * entry k; `children` holds arena indices and the dictionary maps paths to
 * indices.
 */
module RepoTree {
  import opened Wrappers
  import opened Text

  /** An entry's `type`: `Blob` stands for every value other than `'tree'`. */
  datatype Kind = Tree | Blob

  /** One element of the listing: `{path, type}`. */
  datatype Entry = Entry(path: string, kind: Kind)

  /**
   * A tree node: the entry's path and type, its `name`, and its `children`
   * (`None` is an absent `children` property).
   */
  datatype Node = Node(path: string, name: string, kind: Kind, children: Option<seq<nat>>)

  /** The arena index of the synthetic root `{path: '', type: 'tree'}`. */
  const RootIndex: nat := 0

  /** `item.children || []`. */
  function ChildIds(n: Node): seq<nat>
  {
    match n.children
    case None => []
    case Some(ids) => ids
  }

  // ---------------------------------------------------------------------------
  // Splitting a path into its name and its parent path
  // ---------------------------------------------------------------------------

  /** The index of the last `/` in `path`, or -1 when there is none. */
  function LastSlash(path: string): (i: int)
    ensures -1 <= i < |path|
    ensures i >= 0 ==> path[i] == '/'
    ensures forall j :: i < j < |path| ==> path[j] != '/'
  {
    if path == [] then -1
    else if path[|path| - 1] == '/' then |path| - 1
    else LastSlash(path[..|path| - 1])
  }

  /** The node's `name`: what follows the last `/`. */
  function BaseName(path: string): string
  {
    path[LastSlash(path) + 1..]
  }

  /** The path the parent is looked up under: what precedes the last `/`, or `""`. */
  function ParentPath(path: string): string
  {
    var i := LastSlash(path);
    if i < 0 then "" else path[..i]
  }

  /**
   * `BaseName` and `ParentPath` are what the JavaScript computes with
   * `parts = path.split('/')`, `name = parts.pop()` and `parts.join('/')`.
   */
  lemma {:induction false} NameAndParentFromSplit(path: string)
    ensures var parts := Split(path, '/');
      && BaseName(path) == parts[|parts| - 1]
      && ParentPath(path) == Join(parts[..|parts| - 1], '/')
  {
    var parts := Split(path, '/');
    var n := |parts|;
    if n == 1 {
      assert parts[0] == path;
      NoSlashMeansNoLastSlash(path);
    } else {
      NameAndParentFromLongSplit(path);
    }
  }

  /** `NameAndParentFromSplit` for a path with at least one `/`. */
  lemma NameAndParentFromLongSplit(path: string)
    requires |Split(path, '/')| > 1
    ensures var parts := Split(path, '/');
      && BaseName(path) == parts[|parts| - 1]
      && ParentPath(path) == Join(parts[..|parts| - 1], '/')
  {
    var parts := Split(path, '/');
    var n := |parts|;
    JoinSnoc(parts, '/');
    assert '/' !in parts[n - 1];
    NameAndParentOfJoin(Join(parts[..n - 1], '/'), parts[n - 1]);
  }

  /** Splitting `a + "/" + b` at its last slash gives back `a` and a `/`-free `b`. */
  lemma NameAndParentOfJoin(a: string, b: string)
    requires '/' !in b
    ensures BaseName(a + "/" + b) == b && ParentPath(a + "/" + b) == a
  {
    LastSlashBeforeSlashFreeTail(a, b);
    assert (a + "/" + b)[|a| + 1..] == b;
    assert (a + "/" + b)[..|a|] == a;
  }

  /** A path without `/` has no last slash. */
  lemma NoSlashMeansNoLastSlash(path: string)
    requires '/' !in path
    ensures LastSlash(path) == -1
  {
  }

  /** In `a + "/" + b` with a `/`-free `b`, the last slash is the one between them. */
  lemma LastSlashBeforeSlashFreeTail(a: string, b: string)
    requires '/' !in b
    ensures LastSlash(a + "/" + b) == |a|
  {
    var s := a + "/" + b;
    var i := LastSlash(s);
    assert s[|a|] == '/';
  }

  /**
   * The name is the part after the last `/` and the parent path the part
   * before it; a path without `/` is its own name and has the root's path `""`
   * as parent path.
   */
  lemma PathSplitsAtLastSlash(path: string)
    ensures '/' !in BaseName(path)
    ensures '/' !in path ==> BaseName(path) == path && ParentPath(path) == ""
    ensures '/' in path ==> path == ParentPath(path) + "/" + BaseName(path)
    ensures path != "" ==> |ParentPath(path)| < |path|
  {
    var i := LastSlash(path);
    if '/' in path {
      var j :| 0 <= j < |path| && path[j] == '/';
      assert i >= 0;
      assert path == path[..i] + "/" + path[i + 1..];
    } else {
      assert path[0..] == path;
    }
  }

  // ---------------------------------------------------------------------------
  // What processTreeData computes, stated entry by entry
  // ---------------------------------------------------------------------------

  /**
   * The dictionary `map` after the first `m` entries were registered: seeded
   * with the root under `""`, each entry overwrites its own path.
   */
  function PathIndex(items: seq<Entry>, m: nat): (index: map<string, nat>)
    requires m <= |items|
    ensures forall p :: p in index ==> index[p] <= m
  {
    if m == 0 then map["" := RootIndex]
    else PathIndex(items, m - 1)[items[m - 1].path := m]
  }

  /**
   * The arena index entry `k` is pushed under: the node registered under its
   * parent path once entry `k` itself is registered, or the root.
   */
  function ParentOf(items: seq<Entry>, k: nat): nat
    requires k < |items|
  {
    var index := PathIndex(items, k + 1);
    var parentPath := ParentPath(items[k].path);
    if parentPath in index then index[parentPath] else RootIndex
  }

  /** The `children` of arena node `i` after the first `m` entries: those pushed under it, in order. */
  function Attached(items: seq<Entry>, m: nat, i: nat): seq<nat>
    requires m <= |items|
  {
    if m == 0 then []
    else Attached(items, m - 1, i) + (if ParentOf(items, m - 1) == i then [m] else [])
  }

  /** The node created for entry `k` with the children it ends up with. */
  function EntryNode(e: Entry, attached: seq<nat>): Node
  {
    Node(e.path, BaseName(e.path), e.kind,
      if e.kind == Tree || attached != [] then Some(attached) else None)
  }

  /** Node `i` of the arena after the first `m` entries. */
  function ArenaNode(items: seq<Entry>, m: nat, i: int): Node
    requires m <= |items|
  {
    if i <= 0 || i > m then Node("", "", Tree, Some(Attached(items, m, 0)))
    else EntryNode(items[i - 1], Attached(items, m, i))
  }

  /** The arena after the first `m` entries: the root, then one node per processed entry. */
  function ArenaAfter(items: seq<Entry>, m: nat): (nodes: seq<Node>)
    requires m <= |items|
    ensures |nodes| == m + 1
  {
    seq(m + 1, i => ArenaNode(items, m, i))
  }

  /** The whole arena after all entries. */
  function Arena(items: seq<Entry>): (nodes: seq<Node>)
  {
    ArenaAfter(items, |items|)
  }

  /** The node `processTreeData` creates for an entry, before anything is pushed under it. */
  function NewNode(e: Entry): Node
  {
    Node(e.path, BaseName(e.path), e.kind, if e.kind == Tree then Some([]) else None)
  }

  /** `parent.children = parent.children || []; parent.children.push(id)`. */
  function PushChild(nodes: seq<Node>, parent: nat, id: nat): (updated: seq<Node>)
    requires parent < |nodes|
  {
    nodes[parent := nodes[parent].(children := Some(ChildIds(nodes[parent]) + [id]))]
  }

  /**
   * `processTreeData`: one pass over the entries. Each entry gets a fresh
   * node, is registered under its path, and is pushed onto the children of
   * the node registered under its parent path (or of the root). The tree the
   * JavaScript returns is the root's children, `ChildIds(nodes[RootIndex])`.
   */
  method ProcessTreeData(items: seq<Entry>) returns (nodes: seq<Node>)
    ensures nodes == Arena(items)
    ensures |nodes| == |items| + 1
    ensures items == [] ==> ChildIds(nodes[RootIndex]) == []
  {
    nodes := [Node("", "", Tree, Some([]))];
    var index: map<string, nat> := map["" := RootIndex];
    var k := 0;
    assert nodes == ArenaAfter(items, 0) by { ArenaAfterAt(items, 0, 0); }
    while k < |items|
      invariant 0 <= k <= |items|
      invariant index == PathIndex(items, k)
      invariant nodes == ArenaAfter(items, k)
    {
      nodes, index := ProcessEntry(items, k, nodes, index);
      k := k + 1;
    }
    ArenaAfterRoot(items, |items|);
  }

  /**
   * The body of the `forEach` callback for entry `k`: create the node,
   * register it under its path, then push it under the node registered
   * under its parent path, or under the root.
   */
  method ProcessEntry(items: seq<Entry>, k: nat, nodes: seq<Node>, index: map<string, nat>)
    returns (nodes': seq<Node>, index': map<string, nat>)
    requires k < |items| && nodes == ArenaAfter(items, k) && index == PathIndex(items, k)
    ensures nodes' == ArenaAfter(items, k + 1) && index' == PathIndex(items, k + 1)
  {
    var item := items[k];
    var grown := nodes + [NewNode(item)];
    index' := index[item.path := k + 1];
    var parentPath := ParentPath(item.path);
    var parent := if parentPath in index' then index'[parentPath] else RootIndex;
    assert parent == ParentOf(items, k);
    ArenaStep(items, k);
    nodes' := PushChild(grown, parent, k + 1);
  }

  /** One iteration of processTreeData's loop turns the arena after `k` entries into the one after `k + 1`. */
  lemma ArenaStep(items: seq<Entry>, k: nat)
    requires k < |items|
    ensures ParentOf(items, k) <= k + 1
    ensures PushChild(ArenaAfter(items, k) + [NewNode(items[k])], ParentOf(items, k), k + 1)
      == ArenaAfter(items, k + 1)
  {
    var grown := ArenaAfter(items, k) + [NewNode(items[k])];
    var updated := PushChild(grown, ParentOf(items, k), k + 1);
    var after := ArenaAfter(items, k + 1);
    forall i | 0 <= i <= k + 1 ensures updated[i] == after[i] {
      ArenaStepAt(items, k, i);
    }
  }

  /** `ArenaStep` at one index. */
  lemma ArenaStepAt(items: seq<Entry>, k: nat, i: nat)
    requires k < |items| && i <= k + 1
    ensures ParentOf(items, k) <= k + 1
    ensures PushChild(ArenaAfter(items, k) + [NewNode(items[k])], ParentOf(items, k), k + 1)[i]
      == ArenaAfter(items, k + 1)[i]
  {
    var p := ParentOf(items, k);
    var grown := ArenaAfter(items, k) + [NewNode(items[k])];
    var was := Attached(items, k, i);
    assert Attached(items, k + 1, i) == was + (if p == i then [k + 1] else []);
    if i == 0 {
      ArenaStepAtRoot(items, k);
    } else {
      GrownAt(items, k, i);
      PushEntryNode(grown, p, k + 1, i, items[i - 1], was);
      ArenaAfterEntry(items, k + 1, i);
    }
  }

  /** `ArenaStep` at the root. */
  lemma ArenaStepAtRoot(items: seq<Entry>, k: nat)
    requires k < |items|
    ensures PushChild(ArenaAfter(items, k) + [NewNode(items[k])], ParentOf(items, k), k + 1)[0]
      == ArenaAfter(items, k + 1)[0]
  {
    var p := ParentOf(items, k);
    var grown := ArenaAfter(items, k) + [NewNode(items[k])];
    var was := Attached(items, k, 0);
    assert Attached(items, k + 1, 0) == was + (if p == 0 then [k + 1] else []);
    PushChildAt(grown, p, k + 1, 0);
    ArenaAfterRoot(items, k);
    ArenaAfterRoot(items, k + 1);
    assert grown[0] == Node("", "", Tree, Some(was));
    if p == 0 {
      assert ChildIds(grown[0]) == was;
    } else {
      assert was + [] == was;
    }
  }

  /** Node `i` of the arena after `m` entries is `ArenaNode(items, m, i)`. */
  lemma ArenaAfterAt(items: seq<Entry>, m: nat, i: nat)
    requires m <= |items| && i <= m
    ensures ArenaAfter(items, m)[i] == ArenaNode(items, m, i)
  {
  }

  /** Node 0 of the arena after `m` entries is the root with what was attached to it. */
  lemma ArenaAfterRoot(items: seq<Entry>, m: nat)
    requires m <= |items|
    ensures ArenaAfter(items, m)[0] == Node("", "", Tree, Some(Attached(items, m, 0)))
  {
    ArenaAfterAt(items, m, 0);
  }

  /** Node `i > 0` of the arena after `m` entries is entry `i - 1`'s node with what was attached to it. */
  lemma ArenaAfterEntry(items: seq<Entry>, m: nat, i: nat)
    requires m <= |items| && 0 < i <= m
    ensures ArenaAfter(items, m)[i] == EntryNode(items[i - 1], Attached(items, m, i))
  {
    ArenaAfterAt(items, m, i);
  }

  /** Pushing onto an entry's node extends its children by exactly the pushed index. */
  lemma PushEntryNode(nodes: seq<Node>, parent: nat, id: nat, i: nat, e: Entry, was: seq<nat>)
    requires parent < |nodes| && i < |nodes| && nodes[i] == EntryNode(e, was)
    ensures PushChild(nodes, parent, id)[i] == EntryNode(e, was + (if parent == i then [id] else []))
  {
    PushChildAt(nodes, parent, id, i);
    if parent == i {
      EntryNodePush(e, was, id);
    } else {
      assert was + [] == was;
    }
  }

  /** The arena after `k` entries with the node for entry `k` appended, before it is pushed anywhere. */
  lemma GrownAt(items: seq<Entry>, k: nat, i: nat)
    requires k < |items| && 0 < i <= k + 1
    ensures (ArenaAfter(items, k) + [NewNode(items[k])])[i] == EntryNode(items[i - 1], Attached(items, k, i))
  {
    var grown := ArenaAfter(items, k) + [NewNode(items[k])];
    if i == k + 1 {
      NothingAttachedYet(items, k, k + 1);
    } else {
      ArenaAfterAt(items, k, i);
    }
  }

  /** Pushing a child onto an entry's node is the same as attaching it from the start. */
  lemma EntryNodePush(e: Entry, was: seq<nat>, id: nat)
    ensures EntryNode(e, was).(children := Some(was + [id])) == EntryNode(e, was + [id])
  {
  }

  /** `PushChild` changes only the parent's `children`. */
  lemma PushChildAt(nodes: seq<Node>, parent: nat, id: nat, i: nat)
    requires parent < |nodes| && i < |nodes|
    ensures PushChild(nodes, parent, id)[i] ==
      if i == parent then nodes[i].(children := Some(ChildIds(nodes[i]) + [id])) else nodes[i]
  {
  }

  /** No entry from the first `m` is pushed under a node created later. */
  lemma NothingAttachedYet(items: seq<Entry>, m: nat, i: nat)
    requires m <= |items| && i > m
    ensures Attached(items, m, i) == []
  {
    if m > 0 {
      NothingAttachedYet(items, m - 1, i);
    }
  }

  // ---------------------------------------------------------------------------
  // Where each entry ends up
  // ---------------------------------------------------------------------------

  /**
   * After `m` entries the dictionary maps a path to the node of the latest
   * entry with that path; a path no entry had is absent, except `""`, which
   * still maps to the root.
   */
  lemma {:induction false} PathIndexHoldsLatest(items: seq<Entry>, m: nat, q: string)
    requires m <= |items|
    ensures var index := PathIndex(items, m);
      && (q == "" ==> q in index)
      && ((q !in index || index[q] == RootIndex) <==> forall j :: 0 <= j < m ==> items[j].path != q)
      && (q in index && index[q] != RootIndex ==>
            items[index[q] - 1].path == q && forall j :: index[q] <= j < m ==> items[j].path != q)
  {
    if m > 0 {
      PathIndexHoldsLatest(items, m - 1, q);
    }
  }

  /**
   * Entry `k` is pushed under the node of the latest entry up to and
   * including `k` whose path is `k`'s parent path, and under the root when
   * there is none.
   */
  lemma AttachedUnderLatestRegistration(items: seq<Entry>, k: nat)
    requires k < |items|
    ensures var parentPath := ParentPath(items[k].path);
      var p := ParentOf(items, k);
      && p <= k + 1
      && (p == RootIndex <==> forall j :: 0 <= j <= k ==> items[j].path != parentPath)
      && (p != RootIndex ==>
            items[p - 1].path == parentPath && forall j :: p <= j <= k ==> items[j].path != parentPath)
  {
    PathIndexHoldsLatest(items, k + 1, ParentPath(items[k].path));
  }

  /**
   * Every entry is pushed under a node created no later than its own, and
   * strictly earlier unless its path is empty: an empty path is its own
   * parent path and is registered before the lookup, so that entry becomes
   * its own child.
   */
  lemma ParentPosition(items: seq<Entry>, k: nat)
    requires k < |items|
    ensures items[k].path != "" ==> ParentOf(items, k) <= k
    ensures items[k].path == "" ==> ParentOf(items, k) == k + 1
  {
    AttachedUnderLatestRegistration(items, k);
    PathSplitsAtLastSlash(items[k].path);
  }

  /** The children of a node after `m` entries: exactly the entries pushed under it, in input order. */
  lemma AttachedInInputOrder(items: seq<Entry>, m: nat, i: nat)
    requires m <= |items|
    ensures var ids := Attached(items, m, i);
      && (forall c :: c in ids ==> 1 <= c <= m)
      && (forall k :: 0 <= k < m ==> (k + 1 in ids <==> ParentOf(items, k) == i))
      && (forall a, b :: 0 <= a < b < |ids| ==> ids[a] < ids[b])
  {
    AttachedMembers(items, m, i);
    AttachedIncreasing(items, m, i);
  }

  /** The children after `m` entries are the entries among the first `m` pushed under the node. */
  lemma {:induction false} AttachedMembers(items: seq<Entry>, m: nat, i: nat)
    requires m <= |items|
    ensures var ids := Attached(items, m, i);
      && (forall c :: c in ids ==> 1 <= c <= m)
      && (forall k :: 0 <= k < m ==> (k + 1 in ids <==> ParentOf(items, k) == i))
  {
    if m > 0 {
      AttachedMembers(items, m - 1, i);
      var prev := Attached(items, m - 1, i);
      var ids := Attached(items, m, i);
      var pushed := ParentOf(items, m - 1) == i;
      assert ids == prev + (if pushed then [m] else []);
      assert m !in prev;
      forall k | 0 <= k < m ensures (k + 1 in ids <==> ParentOf(items, k) == i) {
        if k < m - 1 {
          assert k + 1 in ids <==> k + 1 in prev;
        }
      }
    }
  }

  /** A list of arena indices in strictly increasing order. */
  predicate StrictlyIncreasing(ids: seq<nat>)
  {
    forall a, b :: 0 <= a < b < |ids| ==> ids[a] < ids[b]
  }

  /** Pushing a number above all of a strictly increasing list keeps it strictly increasing. */
  lemma IncreasingAfterPush(prev: seq<nat>, m: nat, pushed: bool)
    requires StrictlyIncreasing(prev)
    requires forall c :: c in prev ==> c < m
    ensures StrictlyIncreasing(prev + (if pushed then [m] else []))
  {
    var ids := prev + (if pushed then [m] else []);
    forall a, b | 0 <= a < b < |ids| ensures ids[a] < ids[b] {
      assert ids[a] == prev[a] && prev[a] in prev;
    }
  }

  /** The children after `m` entries are in strictly increasing arena order. */
  lemma {:induction false} AttachedIncreasing(items: seq<Entry>, m: nat, i: nat)
    requires m <= |items|
    ensures StrictlyIncreasing(Attached(items, m, i))
  {
    if m > 0 {
      var prev := Attached(items, m - 1, i);
      var pushed := ParentOf(items, m - 1) == i;
      AttachedIncreasing(items, m - 1, i);
      AttachedBounded(items, m - 1, i);
      IncreasingAfterPush(prev, m, pushed);
      assert Attached(items, m, i) == prev + (if pushed then [m] else []);
    }
  }

  /** The children after `m` entries are all entries among the first `m`. */
  lemma {:induction false} AttachedBounded(items: seq<Entry>, m: nat, i: nat)
    requires m <= |items|
    ensures forall c :: c in Attached(items, m, i) ==> 1 <= c <= m
  {
    if m > 0 {
      AttachedBounded(items, m - 1, i);
    }
  }

  /** How often `x` occurs once `m` is pushed, or not, onto `prev`. */
  lemma CountAfterPush(prev: seq<nat>, m: nat, pushed: bool, x: nat, expected: nat)
    requires x <= m
    requires x == m ==> x !in prev && expected == (if pushed then 1 else 0)
    requires x < m ==> multiset(prev)[x] == expected
    ensures multiset(prev + (if pushed then [m] else []))[x] == expected
  {
    if x == m {
      assert x !in multiset(prev);
    }
  }

  /** Entry `k` occurs once among the children of the node it is pushed under after `m` entries. */
  lemma {:induction false} PushedOnce(items: seq<Entry>, m: nat, k: nat, i: nat)
    requires k < m <= |items|
    ensures multiset(Attached(items, m, i))[k + 1] == if ParentOf(items, k) == i then 1 else 0
  {
    var prev := Attached(items, m - 1, i);
    var pushed := ParentOf(items, m - 1) == i;
    assert Attached(items, m, i) == prev + (if pushed then [m] else []);
    if m - 1 == k {
      AttachedBounded(items, k, i);
    } else {
      PushedOnce(items, m - 1, k, i);
    }
    CountAfterPush(prev, m, pushed, k + 1, if ParentOf(items, k) == i then 1 else 0);
  }

  /** The children the arena ends up with are the ones attached over the whole pass. */
  lemma ArenaChildren(items: seq<Entry>, i: nat)
    requires i <= |items|
    ensures ChildIds(Arena(items)[i]) == Attached(items, |items|, i)
  {
    if i > 0 {
      ArenaAfterEntry(items, |items|, i);
    } else {
      ArenaAfterRoot(items, |items|);
    }
  }

  /**
   * No de-duplication and nothing lost: the arena has one node per entry
   * besides the root, and every entry occurs exactly once among all the
   * children lists, in the list of the node it was pushed under.
   */
  lemma EachEntryPushedExactlyOnce(items: seq<Entry>, k: nat)
    requires k < |items|
    ensures |Arena(items)| == |items| + 1
    ensures ParentOf(items, k) < |Arena(items)|
    ensures forall i :: 0 <= i < |Arena(items)| ==>
      multiset(ChildIds(Arena(items)[i]))[k + 1] == if i == ParentOf(items, k) then 1 else 0
  {
    AttachedUnderLatestRegistration(items, k);
    forall i | 0 <= i < |Arena(items)|
      ensures multiset(ChildIds(Arena(items)[i]))[k + 1] == if i == ParentOf(items, k) then 1 else 0
    {
      ArenaChildren(items, i);
      PushedOnce(items, |items|, k, i);
    }
  }

  /**
   * The node for entry `k` carries the entry's path and type and the last
   * segment as its name; it has a children list when it is a folder or when
   * some entry was pushed under it (created on demand), and none otherwise.
   */
  lemma EntryNodeShape(items: seq<Entry>, k: nat)
    requires k < |items|
    ensures var n := Arena(items)[k + 1];
      && n.path == items[k].path && n.name == BaseName(items[k].path) && n.kind == items[k].kind
      && (n.children.Some? <==> items[k].kind == Tree || exists j :: 0 <= j < |items| && ParentOf(items, j) == k + 1)
      && (items[k].kind == Blob && n.children.Some? ==> |ChildIds(n)| > 0)
  {
    ArenaAfterEntry(items, |items|, k + 1);
    AttachedInInputOrder(items, |items|, k + 1);
    var ids := Attached(items, |items|, k + 1);
    if ids != [] {
      var c := ids[0];
      assert c in ids;
      assert ParentOf(items, c - 1) == k + 1;
    }
    if exists j :: 0 <= j < |items| && ParentOf(items, j) == k + 1 {
      var j :| 0 <= j < |items| && ParentOf(items, j) == k + 1;
      assert j + 1 in ids;
    }
  }

  /**
   * An entry whose parent path is not registered when it is processed stays
   * under the root, even when an entry with that path comes later: there is
   * no re-parenting.
   */
  lemma OrphanStaysUnderRoot(items: seq<Entry>, k: nat)
    requires k < |items|
    requires forall j :: 0 <= j <= k ==> items[j].path != ParentPath(items[k].path)
    ensures ParentOf(items, k) == RootIndex
    ensures k + 1 in ChildIds(Arena(items)[RootIndex])
  {
    AttachedUnderLatestRegistration(items, k);
    ArenaChildren(items, RootIndex);
    AttachedInInputOrder(items, |items|, RootIndex);
  }

  /**
   * Two entries with the same path both keep their nodes, each pushed under
   * its own parent; the dictionary then points at the later one, so a later
   * entry whose parent path is that path goes under the later node.
   */
  lemma DuplicatePathLaterNodeWins(items: seq<Entry>, a: nat, b: nat, c: nat)
    requires a < b < c < |items|
    requires items[a].path == items[b].path == ParentPath(items[c].path)
    requires forall j :: b < j <= c ==> items[j].path != items[b].path
    ensures a + 1 != b + 1
    ensures a + 1 in ChildIds(Arena(items)[ParentOf(items, a)])
    ensures b + 1 in ChildIds(Arena(items)[ParentOf(items, b)])
    ensures ParentOf(items, c) == b + 1
  {
    AttachedUnderLatestRegistration(items, c);
    EachEntryPushedExactlyOnce(items, a);
    EachEntryPushedExactlyOnce(items, b);
  }

  /**
   * After an entry with an empty path, the dictionary maps `""` to that
   * entry's node, so every later entry without `/` is pushed under it instead
   * of under the root, until another empty path comes.
   */
  lemma EmptyPathAdoptsLaterTopLevelEntries(items: seq<Entry>, e: nat, k: nat)
    requires e < k < |items|
    requires items[e].path == "" && '/' !in items[k].path
    requires forall j :: e < j <= k ==> items[j].path != ""
    ensures ParentOf(items, k) == e + 1
    ensures k + 1 !in ChildIds(Arena(items)[RootIndex])
  {
    PathSplitsAtLastSlash(items[k].path);
    AttachedUnderLatestRegistration(items, k);
    EachEntryPushedExactlyOnce(items, k);
  }

  /**
   * Every child index is a later arena node than its parent: the tree has no
   * cycles and recursion from the root reaches each node at most once.
   */
  predicate ChildrenFollowParents(nodes: seq<Node>)
  {
    forall i, c :: 0 <= i < |nodes| && c in ChildIds(nodes[i]) ==> i < c < |nodes|
  }

  /** Every child index names a node of the arena. */
  lemma ArenaChildrenInRange(items: seq<Entry>)
    ensures forall i, c :: 0 <= i < |Arena(items)| && c in ChildIds(Arena(items)[i]) ==> c < |Arena(items)|
  {
    forall i, c | 0 <= i < |Arena(items)| && c in ChildIds(Arena(items)[i]) ensures c < |Arena(items)| {
      ArenaChildren(items, i);
      AttachedInInputOrder(items, |items|, i);
    }
  }

  /** Without empty paths, the arena is a tree rooted at the synthetic root. */
  lemma NoEmptyPathGivesTree(items: seq<Entry>)
    requires forall k :: 0 <= k < |items| ==> items[k].path != ""
    ensures ChildrenFollowParents(Arena(items))
  {
    var nodes := Arena(items);
    forall i, c | 0 <= i < |nodes| && c in ChildIds(nodes[i]) ensures i < c < |nodes| {
      ArenaChildren(items, i);
      AttachedInInputOrder(items, |items|, i);
      var k: nat := c - 1;
      assert ParentOf(items, k) == i;
      ParentPosition(items, k);
    }
  }

  // ---------------------------------------------------------------------------
  // Sibling order: folders first, then by name
  // ---------------------------------------------------------------------------

  /**
   * The name order that stands for `localeCompare`: code points compared
   * left to right, a proper prefix first.
   */
  predicate NameLess(a: string, b: string)
  {
    if |a| == 0 then |b| > 0
    else if |b| == 0 then false
    else if a[0] != b[0] then a[0] < b[0]
    else NameLess(a[1..], b[1..])
  }

  /** `a.localeCompare(b)` reduced to its sign. */
  function CompareNames(a: string, b: string): int
  {
    if NameLess(a, b) then -1 else if a == b then 0 else 1
  }

  /** The comparator handed to both `sort` calls of the view. */
  function CompareSiblings(a: Node, b: Node): int
  {
    if a.kind == Tree && b.kind != Tree then -1
    else if a.kind != Tree && b.kind == Tree then 1
    else CompareNames(a.name, b.name)
  }

  lemma {:induction false} NameLessIrreflexive(a: string)
    ensures !NameLess(a, a)
  {
    if |a| > 0 { NameLessIrreflexive(a[1..]); }
  }

  lemma {:induction false} NameLessAsymmetric(a: string, b: string)
    requires NameLess(a, b)
    ensures !NameLess(b, a)
  {
    if |a| > 0 && |b| > 0 && a[0] == b[0] { NameLessAsymmetric(a[1..], b[1..]); }
  }

  lemma {:induction false} NameLessTransitive(a: string, b: string, c: string)
    requires NameLess(a, b) && NameLess(b, c)
    ensures NameLess(a, c)
  {
    if |a| > 0 && a[0] == b[0] && b[0] == c[0] { NameLessTransitive(a[1..], b[1..], c[1..]); }
  }

  lemma {:induction false} NameLessTotal(a: string, b: string)
    requires a != b
    ensures NameLess(a, b) || NameLess(b, a)
  {
    if |a| > 0 && |b| > 0 && a[0] == b[0] {
      assert a == [a[0]] + a[1..] && b == [b[0]] + b[1..];
      NameLessTotal(a[1..], b[1..]);
    }
  }

  /**
   * The comparator is consistent, as `sort` requires: antisymmetric, zero
   * exactly on nodes of the same kind and name, and transitive.
   */
  lemma SiblingComparatorIsConsistent(a: Node, b: Node, c: Node)
    ensures CompareSiblings(a, b) == -CompareSiblings(b, a)
    ensures CompareSiblings(a, b) == 0 <==> a.kind == b.kind && a.name == b.name
    ensures CompareSiblings(a, b) < 0 && CompareSiblings(b, c) < 0 ==> CompareSiblings(a, c) < 0
    ensures CompareSiblings(a, b) <= 0 && CompareSiblings(b, c) <= 0 ==> CompareSiblings(a, c) <= 0
  {
    NameLessIrreflexive(a.name);
    if NameLess(a.name, b.name) { NameLessAsymmetric(a.name, b.name); }
    if a.name != b.name { NameLessTotal(a.name, b.name); }
    if NameLess(a.name, b.name) && NameLess(b.name, c.name) { NameLessTransitive(a.name, b.name, c.name); }
    if NameLess(a.name, b.name) && NameLess(b.name, a.name) { NameLessAsymmetric(a.name, b.name); }
    if a.name != c.name { NameLessTotal(a.name, c.name); }
    if NameLess(c.name, a.name) && NameLess(a.name, b.name) { NameLessTransitive(c.name, a.name, b.name); }
    if NameLess(b.name, c.name) && NameLess(c.name, a.name) { NameLessTransitive(b.name, c.name, a.name); }
    if NameLess(c.name, a.name) { NameLessAsymmetric(c.name, a.name); }
  }

  /** Every id names an arena node. */
  predicate InArena(nodes: seq<Node>, ids: seq<nat>)
  {
    forall k :: 0 <= k < |ids| ==> ids[k] < |nodes|
  }

  /** The comparator puts node `x` strictly before node `y`. */
  predicate Before(nodes: seq<Node>, x: nat, y: nat)
    requires x < |nodes| && y < |nodes|
  {
    CompareSiblings(nodes[x], nodes[y]) < 0
  }

  /** The comparator does not put node `x` after node `y`. */
  predicate NotAfter(nodes: seq<Node>, x: nat, y: nat)
    requires x < |nodes| && y < |nodes|
  {
    CompareSiblings(nodes[x], nodes[y]) <= 0
  }

  /** No id is placed after one the comparator puts after it. */
  predicate SiblingsOrdered(nodes: seq<Node>, ids: seq<nat>)
    requires InArena(nodes, ids)
  {
    forall a, b {:trigger NotAfter(nodes, ids[a], ids[b])} :: 0 <= a < b < |ids| ==> NotAfter(nodes, ids[a], ids[b])
  }

  /**
   * One insertion step: `x` goes after every id it is not strictly before,
   * scanning from the right, so equal ids keep their relative order.
   */
  function Insert(nodes: seq<Node>, x: nat, ids: seq<nat>): (r: seq<nat>)
    requires x < |nodes| && InArena(nodes, ids)
    ensures InArena(nodes, r)
    decreases |ids|
  {
    if ids == [] || !Before(nodes, x, ids[|ids| - 1]) then ids + [x]
    else
      assert ids == ids[..|ids| - 1] + [ids[|ids| - 1]];
      Insert(nodes, x, ids[..|ids| - 1]) + [ids[|ids| - 1]]
  }

  /** The stable sort of a children list by the sibling comparator. */
  function SortIds(nodes: seq<Node>, ids: seq<nat>): (r: seq<nat>)
    requires InArena(nodes, ids)
    ensures InArena(nodes, r)
    decreases |ids|
  {
    if ids == [] then []
    else
      assert ids == ids[..|ids| - 1] + [ids[|ids| - 1]];
      Insert(nodes, ids[|ids| - 1], SortIds(nodes, ids[..|ids| - 1]))
  }

  /** Insertion adds exactly the one id. */
  lemma {:induction false} InsertPermutes(nodes: seq<Node>, x: nat, ids: seq<nat>)
    requires x < |nodes| && InArena(nodes, ids)
    ensures multiset(Insert(nodes, x, ids)) == multiset(ids) + multiset{x}
    decreases |ids|
  {
    if ids != [] && Before(nodes, x, ids[|ids| - 1]) {
      InsertPermutes(nodes, x, ids[..|ids| - 1]);
      assert ids == ids[..|ids| - 1] + [ids[|ids| - 1]];
    }
  }

  /** The sort is a permutation of its input. */
  lemma {:induction false} SortIdsPermutes(nodes: seq<Node>, ids: seq<nat>)
    requires InArena(nodes, ids)
    ensures multiset(SortIds(nodes, ids)) == multiset(ids)
    decreases |ids|
  {
    if ids != [] {
      var front := ids[..|ids| - 1];
      SortIdsPermutes(nodes, front);
      InsertPermutes(nodes, ids[|ids| - 1], SortIds(nodes, front));
      assert ids == front + [ids[|ids| - 1]];
    }
  }

  /** An ordered list stays ordered when an id no earlier one follows is appended. */
  lemma OrderedSnoc(nodes: seq<Node>, ids: seq<nat>, y: nat)
    requires InArena(nodes, ids) && y < |nodes| && SiblingsOrdered(nodes, ids)
    requires forall c :: c in ids ==> NotAfter(nodes, c, y)
    ensures InArena(nodes, ids + [y]) && SiblingsOrdered(nodes, ids + [y])
  {
    var r := ids + [y];
    forall a, b | 0 <= a < b < |r| ensures NotAfter(nodes, r[a], r[b]) {
      if b == |ids| { assert r[a] in ids; }
    }
  }

  /** In an ordered list, everything is not after its last element, nor after what that is not before. */
  lemma OrderedBelowLast(nodes: seq<Node>, ids: seq<nat>, x: nat)
    requires x < |nodes| && InArena(nodes, ids) && SiblingsOrdered(nodes, ids) && ids != []
    requires !Before(nodes, x, ids[|ids| - 1])
    ensures forall c :: c in ids ==> NotAfter(nodes, c, x)
  {
    var n := |ids|;
    var last := ids[n - 1];
    forall c | c in ids ensures NotAfter(nodes, c, x) {
      var a :| 0 <= a < n && ids[a] == c;
      if a < n - 1 {
        assert NotAfter(nodes, ids[a], ids[n - 1]);
      }
      SiblingComparatorIsConsistent(nodes[c], nodes[last], nodes[x]);
      SiblingComparatorIsConsistent(nodes[x], nodes[last], nodes[x]);
    }
  }

  /** After inserting `x` into the front of an ordered list, the old last element is not before anything there. */
  lemma InsertedFrontBelowLast(nodes: seq<Node>, x: nat, ids: seq<nat>, r: seq<nat>)
    requires x < |nodes| && InArena(nodes, ids) && SiblingsOrdered(nodes, ids) && ids != []
    requires Before(nodes, x, ids[|ids| - 1])
    requires InArena(nodes, r) && multiset(r) == multiset(ids[..|ids| - 1]) + multiset{x}
    ensures forall c :: c in r ==> NotAfter(nodes, c, ids[|ids| - 1])
  {
    var n := |ids|;
    var front := ids[..n - 1];
    forall c | c in r ensures NotAfter(nodes, c, ids[n - 1]) {
      assert c in multiset(r);
      if c != x {
        assert c in multiset(front);
        var a :| 0 <= a < n - 1 && front[a] == c;
        assert ids[a] == c && NotAfter(nodes, ids[a], ids[n - 1]);
      }
    }
  }

  /** Inserting into an ordered list keeps it ordered. */
  lemma {:induction false} InsertKeepsOrder(nodes: seq<Node>, x: nat, ids: seq<nat>)
    requires x < |nodes| && InArena(nodes, ids) && SiblingsOrdered(nodes, ids)
    ensures InArena(nodes, Insert(nodes, x, ids)) && SiblingsOrdered(nodes, Insert(nodes, x, ids))
    decreases |ids|
  {
    if ids == [] {
    } else {
      var n := |ids|;
      var last := ids[n - 1];
      if !Before(nodes, x, last) {
        OrderedBelowLast(nodes, ids, x);
        OrderedSnoc(nodes, ids, x);
      } else {
        var front := ids[..n - 1];
        InsertKeepsOrder(nodes, x, front);
        var r := Insert(nodes, x, front);
        InsertPermutes(nodes, x, front);
        InsertedFrontBelowLast(nodes, x, ids, r);
        OrderedSnoc(nodes, r, last);
      }
    }
  }

  /** The sort yields an ordered permutation of its input. */
  lemma {:induction false} SortIdsOrders(nodes: seq<Node>, ids: seq<nat>)
    requires InArena(nodes, ids)
    ensures multiset(SortIds(nodes, ids)) == multiset(ids)
    ensures InArena(nodes, SortIds(nodes, ids)) && SiblingsOrdered(nodes, SortIds(nodes, ids))
    decreases |ids|
  {
    SortIdsPermutes(nodes, ids);
    if ids != [] {
      var front := ids[..|ids| - 1];
      SortIdsOrders(nodes, front);
      InsertKeepsOrder(nodes, ids[|ids| - 1], SortIds(nodes, front));
    }
  }

  /**
   * In an ordered children list every folder precedes every non-folder, and
   * within each group names never decrease.
   */
  lemma OrderedMeansFoldersFirstThenByName(nodes: seq<Node>, ids: seq<nat>)
    requires InArena(nodes, ids) && SiblingsOrdered(nodes, ids)
    ensures forall a, b :: 0 <= a < b < |ids| && nodes[ids[b]].kind == Tree ==> nodes[ids[a]].kind == Tree
    ensures forall a, b :: 0 <= a < b < |ids| && nodes[ids[a]].kind == nodes[ids[b]].kind ==>
      !NameLess(nodes[ids[b]].name, nodes[ids[a]].name)
  {
    forall a, b | 0 <= a < b < |ids| && nodes[ids[b]].kind == Tree ensures nodes[ids[a]].kind == Tree {
      assert NotAfter(nodes, ids[a], ids[b]);
    }
    forall a, b | 0 <= a < b < |ids| && nodes[ids[a]].kind == nodes[ids[b]].kind
      ensures !NameLess(nodes[ids[b]].name, nodes[ids[a]].name)
    {
      if NameLess(nodes[ids[b]].name, nodes[ids[a]].name) {
        NameLessAsymmetric(nodes[ids[b]].name, nodes[ids[a]].name);
        assert NotAfter(nodes, ids[a], ids[b]);
        NameLessIrreflexive(nodes[ids[a]].name);
      }
    }
  }

  /** A prefix of an ordered list is ordered. */
  lemma OrderedPrefix(nodes: seq<Node>, ids: seq<nat>, n: nat)
    requires InArena(nodes, ids) && SiblingsOrdered(nodes, ids) && n <= |ids|
    ensures InArena(nodes, ids[..n]) && SiblingsOrdered(nodes, ids[..n])
  {
    var front := ids[..n];
    forall a, b | 0 <= a < b < |front| ensures NotAfter(nodes, front[a], front[b]) {
      assert front[a] == ids[a] && front[b] == ids[b];
      assert NotAfter(nodes, ids[a], ids[b]);
    }
  }

  /** In an ordered list the last id does not go before the one preceding it. */
  lemma LastNotBeforePrevious(nodes: seq<Node>, ids: seq<nat>)
    requires InArena(nodes, ids) && SiblingsOrdered(nodes, ids) && |ids| > 1
    ensures !Before(nodes, ids[|ids| - 1], ids[|ids| - 2])
  {
    var n := |ids|;
    assert NotAfter(nodes, ids[n - 2], ids[n - 1]);
    SiblingComparatorIsConsistent(nodes[ids[n - 2]], nodes[ids[n - 1]], nodes[ids[n - 1]]);
  }

  /** Sorting an ordered list changes nothing. */
  lemma {:induction false} SortingOrderedIsIdentity(nodes: seq<Node>, ids: seq<nat>)
    requires InArena(nodes, ids) && SiblingsOrdered(nodes, ids)
    ensures SortIds(nodes, ids) == ids
    decreases |ids|
  {
    if ids != [] {
      var n := |ids|;
      var x := ids[n - 1];
      var front := ids[..n - 1];
      assert SortIds(nodes, front) == front by {
        OrderedPrefix(nodes, ids, n - 1);
        SortingOrderedIsIdentity(nodes, front);
      }
      assert Insert(nodes, x, front) == front + [x] by {
        if n > 1 {
          LastNotBeforePrevious(nodes, ids);
        }
        assert front[..n - 1] == front;
        InsertLandsAt(nodes, x, front, n - 1);
      }
      assert ids == front + [x];
    }
  }

  /**
   * Sorting twice is sorting once: the view's in-place sort of the same
   * children on every render leaves what is shown unchanged.
   */
  lemma SortIsIdempotent(nodes: seq<Node>, ids: seq<nat>)
    requires InArena(nodes, ids)
    ensures InArena(nodes, SortIds(nodes, ids))
    ensures SortIds(nodes, SortIds(nodes, ids)) == SortIds(nodes, ids)
  {
    SortIdsOrders(nodes, ids);
    SortingOrderedIsIdentity(nodes, SortIds(nodes, ids));
  }

  /** The comparator ties nodes `a` and `b`: same kind, same name. */
  predicate SameKey(nodes: seq<Node>, a: nat, b: nat)
    requires a < |nodes| && b < |nodes|
  {
    nodes[a].kind == nodes[b].kind && nodes[a].name == nodes[b].name
  }

  /** The ids of `ids` that the comparator ties with node `y`, in list order. */
  function Peers(nodes: seq<Node>, ids: seq<nat>, y: nat): seq<nat>
    requires InArena(nodes, ids) && y < |nodes|
    decreases |ids|
  {
    if ids == [] then []
    else Peers(nodes, ids[..|ids| - 1], y) + (if SameKey(nodes, ids[|ids| - 1], y) then [ids[|ids| - 1]] else [])
  }

  /** An insertion step puts `x` after every id it ties with. */
  lemma {:induction false} InsertKeepsPeers(nodes: seq<Node>, x: nat, ids: seq<nat>, y: nat)
    requires x < |nodes| && InArena(nodes, ids) && y < |nodes|
    ensures Peers(nodes, Insert(nodes, x, ids), y) == Peers(nodes, ids, y) + (if SameKey(nodes, x, y) then [x] else [])
    decreases |ids|
  {
    if ids == [] || !Before(nodes, x, ids[|ids| - 1]) {
      var r := ids + [x];
      assert r[..|r| - 1] == ids;
    } else {
      var front := ids[..|ids| - 1];
      var last := ids[|ids| - 1];
      InsertKeepsPeers(nodes, x, front, y);
      var r := Insert(nodes, x, front) + [last];
      assert r[..|r| - 1] == Insert(nodes, x, front);
      SiblingComparatorIsConsistent(nodes[x], nodes[last], nodes[last]);
    }
  }

  /**
   * The sort is stable: the ids the comparator ties with any node `y` (same
   * kind and name, as with a duplicated path or an orphan beside a namesake)
   * come out in the order they went in.
   */
  lemma {:induction false} SortIsStable(nodes: seq<Node>, ids: seq<nat>, y: nat)
    requires InArena(nodes, ids) && y < |nodes|
    ensures Peers(nodes, SortIds(nodes, ids), y) == Peers(nodes, ids, y)
    decreases |ids|
  {
    if ids != [] {
      var front := ids[..|ids| - 1];
      SortIsStable(nodes, front, y);
      InsertKeepsPeers(nodes, ids[|ids| - 1], SortIds(nodes, front), y);
    }
  }

  /** The prefix and each element of an in-arena list are in the arena. */
  lemma InArenaParts(nodes: seq<Node>, ids: seq<nat>, i: nat)
    requires InArena(nodes, ids) && i < |ids|
    ensures InArena(nodes, ids[..i]) && ids[i] < |nodes|
  {
  }

  /** One more input id sorts by inserting it into the sorted prefix. */
  lemma SortIdsPrefix(nodes: seq<Node>, input: seq<nat>, i: nat)
    requires i < |input| && InArena(nodes, input)
    ensures InArena(nodes, input[..i])
    ensures SortIds(nodes, input[..i + 1]) == Insert(nodes, input[i], SortIds(nodes, input[..i]))
  {
    assert input[..i + 1][..i] == input[..i];
  }

  /**
   * Where the insertion scan stops: `x` lands after the prefix `ids[..j]`
   * when it goes strictly before every id from `j` on but not before
   * `ids[j - 1]`.
   */
  lemma {:induction false} InsertLandsAt(nodes: seq<Node>, x: nat, ids: seq<nat>, j: nat)
    requires x < |nodes| && InArena(nodes, ids) && j <= |ids|
    requires j == 0 || !Before(nodes, x, ids[j - 1])
    requires forall k :: j <= k < |ids| ==> Before(nodes, x, ids[k])
    ensures Insert(nodes, x, ids) == ids[..j] + [x] + ids[j..]
    decreases |ids|
  {
    if j < |ids| {
      var front := ids[..|ids| - 1];
      InsertLandsAt(nodes, x, front, j);
      assert front[..j] == ids[..j];
      assert ids[j..] == front[j..] + [ids[|ids| - 1]];
    } else {
      assert ids[..j] == ids;
    }
  }

  /**
   * Where the insertion pass puts `a[i]`: scanning the prefix `a[..i]` from
   * the right, the left end or the first id `a[i]` does not go before.
   */
  method InsertionPoint(nodes: seq<Node>, a: array<nat>, i: nat) returns (j: nat)
    requires i < a.Length && InArena(nodes, a[..])
    ensures j <= i
    ensures j == 0 || !Before(nodes, a[i], a[j - 1])
    ensures forall k :: j <= k < i ==> Before(nodes, a[i], a[k])
  {
    assert forall k :: 0 <= k < a.Length ==> a[k] == a[..][k];
    j := i;
    while j > 0 && Before(nodes, a[i], a[j - 1])
      invariant j <= i
      invariant forall k :: j <= k < i ==> Before(nodes, a[i], a[k])
    {
      j := j - 1;
    }
  }

  /** Moves `a[j..i]` one place right, leaving `a[j]` as it was. */
  method ShiftRight(a: array<nat>, j: nat, i: nat)
    requires j <= i < a.Length
    modifies a
    ensures a[..] == old(a[..])[..j + 1] + old(a[..])[j..i] + old(a[..])[i + 1..]
  {
    ghost var before := a[..];
    var k := i;
    while k > j
      invariant j <= k <= i
      invariant forall t :: 0 <= t <= k ==> a[t] == before[t]
      invariant forall t :: k < t <= i ==> a[t] == before[t - 1]
      invariant forall t :: i < t < a.Length ==> a[t] == before[t]
    {
      a[k] := a[k - 1];
      k := k - 1;
    }
    ghost var shifted := before[..j + 1] + before[j..i] + before[i + 1..];
    forall t | 0 <= t < a.Length ensures a[t] == shifted[t] {
      if t <= j {
        assert shifted[t] == before[..j + 1][t];
      } else if t <= i {
        assert shifted[t] == before[j..i][t - j - 1];
      } else {
        assert shifted[t] == before[i + 1..][t - i - 1];
      }
    }
    assert a[..] == shifted;
  }

  /** Shifting `s[j..i]` right and writing `x` at `j` inserts `x` into the prefix `s[..i]`. */
  lemma ShiftedThenPlaced(s: seq<nat>, i: nat, j: nat, x: nat)
    requires j <= i < |s|
    ensures var r := (s[..j + 1] + s[j..i] + s[i + 1..])[j := x];
      r[..i + 1] == s[..i][..j] + [x] + s[..i][j..] && r[i + 1..] == s[i + 1..]
  {
    var r := (s[..j + 1] + s[j..i] + s[i + 1..])[j := x];
    assert r == s[..j] + [x] + s[j..i] + s[i + 1..];
    assert s[..i][..j] == s[..j] && s[..i][j..] == s[j..i];
  }

  /**
   * One pass of the insertion sort: the id at `a[i]` moves left past every
   * id of the sorted prefix that it goes strictly before.
   */
  method InsertInPlace(nodes: seq<Node>, a: array<nat>, i: nat)
    requires i < a.Length && InArena(nodes, a[..])
    modifies a
    ensures InArena(nodes, old(a[..i]))
    ensures a[..i + 1] == Insert(nodes, old(a[i]), old(a[..i]))
    ensures a[i + 1..] == old(a[i + 1..])
  {
    ghost var before := a[..];
    var x := a[i];
    InArenaParts(nodes, before, i);
    var j := InsertionPoint(nodes, a, i);
    InsertLandsAt(nodes, x, before[..i], j);
    ShiftRight(a, j, i);
    a[j] := x;
    ShiftedThenPlaced(before, i, j, x);
  }

  /** `children.sort(compare)`: insertion sort on the array, in place. */
  method SortInPlace(nodes: seq<Node>, a: array<nat>)
    requires InArena(nodes, a[..])
    modifies a
    ensures a[..] == SortIds(nodes, old(a[..]))
  {
    ghost var input := a[..];
    var i := 0;
    while i < a.Length
      invariant 0 <= i <= a.Length
      invariant a[..i] == SortIds(nodes, input[..i])
      invariant a[i..] == input[i..]
    {
      SortIdsPrefix(nodes, input, i);
      assert InArena(nodes, a[..]) by {
        assert a[..] == a[..i] + a[i..];
      }
      assert a[i + 1..] == a[i..][1..];
      InsertInPlace(nodes, a, i);
      i := i + 1;
    }
    assert input[..a.Length] == input;
  }

  // ---------------------------------------------------------------------------
  // The rows the view renders
  // ---------------------------------------------------------------------------

  /** One rendered line: which node, what it shows, and its nesting depth `indent`. */
  datatype Row = Row(node: nat, path: string, name: string, isFolder: bool, isExpanded: bool, indent: nat)

  /** `expandedFolders[path]` read for truthiness: a missing key is collapsed. */
  predicate IsExpanded(expanded: map<string, bool>, path: string)
  {
    path in expanded && expanded[path]
  }

  /** `isFolder && isExpanded && item.children?.length > 0`. */
  predicate ShowsChildren(nodes: seq<Node>, expanded: map<string, bool>, i: nat)
    requires i < |nodes|
  {
    nodes[i].kind == Tree && IsExpanded(expanded, nodes[i].path) && |ChildIds(nodes[i])| > 0
  }

  /** The line `renderTreeItem` draws for node `i` at depth `indent`. */
  function RowOf(nodes: seq<Node>, expanded: map<string, bool>, i: nat, indent: nat): Row
    requires i < |nodes|
  {
    Row(i, nodes[i].path, nodes[i].name, nodes[i].kind == Tree, IsExpanded(expanded, nodes[i].path), indent)
  }

  /** The children of node `i` in the order the view shows them, all later arena nodes. */
  lemma SortedChildrenFollow(nodes: seq<Node>, i: nat)
    requires ChildrenFollowParents(nodes) && i < |nodes|
    ensures InArena(nodes, ChildIds(nodes[i]))
    ensures forall c :: c in SortIds(nodes, ChildIds(nodes[i])) ==> i < c < |nodes|
  {
    var ids := ChildIds(nodes[i]);
    assert forall k :: 0 <= k < |ids| ==> ids[k] in ids;
    SortIdsPermutes(nodes, ids);
    forall c | c in SortIds(nodes, ids) ensures i < c < |nodes| {
      assert c in multiset(SortIds(nodes, ids));
    }
  }

  /**
   * `renderTreeItem(item, indent)`: the item's own line, then, when it is an
   * expanded folder with children, the sorted children one level deeper.
   */
  function ItemRows(nodes: seq<Node>, expanded: map<string, bool>, i: nat, indent: nat): seq<Row>
    requires ChildrenFollowParents(nodes) && i < |nodes|
    decreases |nodes| - i, 1, 0
  {
    SortedChildrenFollow(nodes, i);
    [RowOf(nodes, expanded, i, indent)]
      + (if ShowsChildren(nodes, expanded, i)
         then ChildRows(nodes, expanded, SortIds(nodes, ChildIds(nodes[i])), i, indent + 1)
         else [])
  }

  /** `ids.map(child => renderTreeItem(child, indent))` for children of `parent`. */
  function ChildRows(nodes: seq<Node>, expanded: map<string, bool>, ids: seq<nat>, parent: nat, indent: nat): seq<Row>
    requires ChildrenFollowParents(nodes) && parent < |nodes|
    requires forall c :: c in ids ==> parent < c < |nodes|
    decreases |nodes| - parent, 0, |ids|
  {
    if ids == [] then []
    else
      assert ids[0] in ids && forall c :: c in ids[1..] ==> c in ids;
      ItemRows(nodes, expanded, ids[0], indent) + ChildRows(nodes, expanded, ids[1..], parent, indent)
  }

  /** The tree panel: the root's children, sorted, each rendered at depth 0. */
  function TreeRows(nodes: seq<Node>, expanded: map<string, bool>): seq<Row>
    requires ChildrenFollowParents(nodes) && |nodes| > 0
  {
    SortedChildrenFollow(nodes, RootIndex);
    ChildRows(nodes, expanded, SortIds(nodes, ChildIds(nodes[RootIndex])), RootIndex, 0)
  }

  /** Row `j` shows its node's path, name, kind and expansion, at depth `indent` or deeper. */
  ghost predicate ShowsNodeAt(nodes: seq<Node>, expanded: map<string, bool>, rows: seq<Row>, indent: nat, j: int)
  {
    0 <= j < |rows| ==>
      rows[j].node < |nodes| && rows[j].indent >= indent
      && rows[j] == RowOf(nodes, expanded, rows[j].node, rows[j].indent)
  }

  /**
   * If row `j` is deeper than the row above it, it is exactly one level
   * deeper and is a child of that row's node, an expanded folder with children.
   */
  ghost predicate NestsAt(nodes: seq<Node>, expanded: map<string, bool>, rows: seq<Row>, j: int)
  {
    0 < j < |rows| && rows[j].indent > rows[j - 1].indent ==>
      && rows[j].indent == rows[j - 1].indent + 1
      && rows[j - 1].node < |nodes|
      && ShowsChildren(nodes, expanded, rows[j - 1].node)
      && rows[j].node in ChildIds(nodes[rows[j - 1].node])
  }

  /** A block of rows drawn at depth `indent` or deeper, nested as the tree is. */
  ghost predicate Block(nodes: seq<Node>, expanded: map<string, bool>, rows: seq<Row>, indent: nat)
  {
    && (forall j :: ShowsNodeAt(nodes, expanded, rows, indent, j))
    && (forall j :: NestsAt(nodes, expanded, rows, j))
  }

  /** Two blocks at the same depth, the second starting at that depth, form one block. */
  lemma BlockAppend(nodes: seq<Node>, expanded: map<string, bool>, r1: seq<Row>, r2: seq<Row>, indent: nat)
    requires Block(nodes, expanded, r1, indent) && Block(nodes, expanded, r2, indent)
    requires r2 != [] ==> r2[0].indent == indent
    ensures Block(nodes, expanded, r1 + r2, indent)
  {
    var rows := r1 + r2;
    forall j ensures ShowsNodeAt(nodes, expanded, rows, indent, j) && NestsAt(nodes, expanded, rows, j) {
      if 0 <= j < |r1| {
        assert ShowsNodeAt(nodes, expanded, r1, indent, j) && NestsAt(nodes, expanded, r1, j);
        assert rows[j] == r1[j];
        if j > 0 { assert rows[j - 1] == r1[j - 1]; }
      } else if |r1| <= j < |rows| {
        var k := j - |r1|;
        assert ShowsNodeAt(nodes, expanded, r2, indent, k) && NestsAt(nodes, expanded, r2, k);
        assert rows[j] == r2[k];
        if k > 0 {
          assert rows[j - 1] == r2[k - 1];
        } else if j > 0 {
          assert ShowsNodeAt(nodes, expanded, r1, indent, j - 1);
          assert rows[j - 1] == r1[j - 1];
        }
      }
    }
  }

  /**
   * A folder's line followed by a block one level deeper that starts with
   * one of its children is a block at the folder's depth.
   */
  lemma BlockNest(nodes: seq<Node>, expanded: map<string, bool>, i: nat, r: seq<Row>, indent: nat)
    requires i < |nodes| && Block(nodes, expanded, r, indent + 1)
    requires r != [] ==>
      ShowsChildren(nodes, expanded, i) && r[0].indent == indent + 1 && r[0].node in ChildIds(nodes[i])
    ensures Block(nodes, expanded, [RowOf(nodes, expanded, i, indent)] + r, indent)
  {
    var rows := [RowOf(nodes, expanded, i, indent)] + r;
    forall j ensures ShowsNodeAt(nodes, expanded, rows, indent, j) && NestsAt(nodes, expanded, rows, j) {
      if 0 < j < |rows| {
        assert ShowsNodeAt(nodes, expanded, r, indent + 1, j - 1) && NestsAt(nodes, expanded, r, j - 1);
        assert rows[j] == r[j - 1];
        if j > 1 { assert rows[j - 1] == r[j - 2]; }
      }
    }
  }

  /** The rows of one item form a block at its depth that starts with its own line. */
  lemma {:induction false} ItemRowsAreBlock(nodes: seq<Node>, expanded: map<string, bool>, i: nat, indent: nat)
    requires ChildrenFollowParents(nodes) && i < |nodes|
    ensures var rows := ItemRows(nodes, expanded, i, indent);
      rows != [] && rows[0] == RowOf(nodes, expanded, i, indent) && Block(nodes, expanded, rows, indent)
    decreases |nodes| - i, 1
  {
    SortedChildrenFollow(nodes, i);
    if ShowsChildren(nodes, expanded, i) {
      var ids := SortIds(nodes, ChildIds(nodes[i]));
      ChildRowsAreBlock(nodes, expanded, ids, i, indent + 1);
      var r := ChildRows(nodes, expanded, ids, i, indent + 1);
      if r != [] {
        SortIdsPermutes(nodes, ChildIds(nodes[i]));
        assert ids[0] in multiset(ChildIds(nodes[i]));
      }
      BlockNest(nodes, expanded, i, r, indent);
    } else {
      BlockNest(nodes, expanded, i, [], indent);
    }
  }

  /** The rows of a children list form a block at their depth that starts with the first child. */
  lemma {:induction false} ChildRowsAreBlock(nodes: seq<Node>, expanded: map<string, bool>, ids: seq<nat>, parent: nat, indent: nat)
    requires ChildrenFollowParents(nodes) && parent < |nodes|
    requires forall c :: c in ids ==> parent < c < |nodes|
    ensures var rows := ChildRows(nodes, expanded, ids, parent, indent);
      && (ids == [] <==> rows == [])
      && (ids != [] ==> ids[0] < |nodes| && rows[0] == RowOf(nodes, expanded, ids[0], indent))
      && Block(nodes, expanded, rows, indent)
    decreases |nodes| - parent, 0, |ids|
  {
    if ids != [] {
      assert ids[0] in ids && forall c :: c in ids[1..] ==> c in ids;
      ItemRowsAreBlock(nodes, expanded, ids[0], indent);
      ChildRowsAreBlock(nodes, expanded, ids[1..], parent, indent);
      BlockAppend(nodes, expanded, ItemRows(nodes, expanded, ids[0], indent),
        ChildRows(nodes, expanded, ids[1..], parent, indent), indent);
    }
  }

  /** The nodes of the rows drawn at exactly depth `indent`, top to bottom. */
  function NodesAt(rows: seq<Row>, indent: nat): seq<nat>
  {
    if rows == [] then []
    else (if rows[0].indent == indent then [rows[0].node] else []) + NodesAt(rows[1..], indent)
  }

  lemma {:induction false} NodesAtAppend(r1: seq<Row>, r2: seq<Row>, indent: nat)
    ensures NodesAt(r1 + r2, indent) == NodesAt(r1, indent) + NodesAt(r2, indent)
  {
    if r1 != [] {
      NodesAtAppend(r1[1..], r2, indent);
      assert (r1 + r2)[0] == r1[0] && (r1 + r2)[1..] == r1[1..] + r2;
    } else {
      assert r1 + r2 == r2;
    }
  }

  lemma NodesAtSingle(row: Row, indent: nat)
    ensures NodesAt([row], indent) == if row.indent == indent then [row.node] else []
  {
    assert [row][1..] == [];
  }

  /** A block one level deeper than `indent` has no row at depth `indent`. */
  lemma {:induction false} NodesAtAboveBlock(nodes: seq<Node>, expanded: map<string, bool>, rows: seq<Row>, indent: nat)
    requires Block(nodes, expanded, rows, indent + 1)
    ensures NodesAt(rows, indent) == []
  {
    if rows != [] {
      var deeper := indent + 1;
      assert ShowsNodeAt(nodes, expanded, rows, deeper, 0);
      var rest := rows[1..];
      assert Block(nodes, expanded, rest, deeper) by {
        forall j ensures ShowsNodeAt(nodes, expanded, rest, deeper, j) && NestsAt(nodes, expanded, rest, j) {
          assert ShowsNodeAt(nodes, expanded, rows, deeper, j + 1) && NestsAt(nodes, expanded, rows, j + 1);
          if 0 <= j < |rest| {
            assert rest[j] == rows[j + 1];
            if j > 0 { assert rest[j - 1] == rows[j]; }
          }
        }
      }
      NodesAtAboveBlock(nodes, expanded, rest, indent);
    }
  }

  /**
   * An item's rows hold the item itself at its own depth and, one level
   * deeper, exactly its children in sorted order when it is an expanded
   * folder with children, and nothing otherwise.
   */
  lemma {:induction false} ItemRowsLevels(nodes: seq<Node>, expanded: map<string, bool>, i: nat, indent: nat)
    requires ChildrenFollowParents(nodes) && i < |nodes|
    ensures InArena(nodes, ChildIds(nodes[i]))
    ensures var rows := ItemRows(nodes, expanded, i, indent);
      && NodesAt(rows, indent) == [i]
      && NodesAt(rows, indent + 1) ==
         if ShowsChildren(nodes, expanded, i) then SortIds(nodes, ChildIds(nodes[i])) else []
    decreases |nodes| - i, 1
  {
    SortedChildrenFollow(nodes, i);
    var own := [RowOf(nodes, expanded, i, indent)];
    NodesAtSingle(own[0], indent);
    NodesAtSingle(own[0], indent + 1);
    if ShowsChildren(nodes, expanded, i) {
      var ids := SortIds(nodes, ChildIds(nodes[i]));
      var r := ChildRows(nodes, expanded, ids, i, indent + 1);
      ChildRowsAreBlock(nodes, expanded, ids, i, indent + 1);
      NodesAtAboveBlock(nodes, expanded, r, indent);
      ChildRowsLevels(nodes, expanded, ids, i, indent + 1);
      NodesAtAppend(own, r, indent);
      NodesAtAppend(own, r, indent + 1);
    } else {
      assert ItemRows(nodes, expanded, i, indent) == own;
    }
  }

  /** The rows of a children list hold, at their depth, exactly that list in order. */
  lemma {:induction false} ChildRowsLevels(nodes: seq<Node>, expanded: map<string, bool>, ids: seq<nat>, parent: nat, indent: nat)
    requires ChildrenFollowParents(nodes) && parent < |nodes|
    requires forall c :: c in ids ==> parent < c < |nodes|
    ensures NodesAt(ChildRows(nodes, expanded, ids, parent, indent), indent) == ids
    decreases |nodes| - parent, 0, |ids|
  {
    if ids != [] {
      assert ids[0] in ids && forall c :: c in ids[1..] ==> c in ids;
      ItemRowsLevels(nodes, expanded, ids[0], indent);
      ChildRowsLevels(nodes, expanded, ids[1..], parent, indent);
      NodesAtAppend(ItemRows(nodes, expanded, ids[0], indent), ChildRows(nodes, expanded, ids[1..], parent, indent), indent);
      assert [ids[0]] + ids[1..] == ids;
    }
  }

  /**
   * The panel: rows nested as the tree is, the top level being the root's
   * children sorted folders first and by name; it is empty (the view then
   * says no files were found) exactly when the root has no children.
   */
  lemma TreeRowsShowSortedTree(nodes: seq<Node>, expanded: map<string, bool>)
    requires ChildrenFollowParents(nodes) && |nodes| > 0
    ensures InArena(nodes, ChildIds(nodes[RootIndex]))
    ensures Block(nodes, expanded, TreeRows(nodes, expanded), 0)
    ensures NodesAt(TreeRows(nodes, expanded), 0) == SortIds(nodes, ChildIds(nodes[RootIndex]))
    ensures TreeRows(nodes, expanded) == [] <==> ChildIds(nodes[RootIndex]) == []
  {
    SortedChildrenFollow(nodes, RootIndex);
    var ids := SortIds(nodes, ChildIds(nodes[RootIndex]));
    ChildRowsAreBlock(nodes, expanded, ids, RootIndex, 0);
    ChildRowsLevels(nodes, expanded, ids, RootIndex, 0);
    SortIdsPermutes(nodes, ChildIds(nodes[RootIndex]));
    if ids == [] {
      assert |multiset(ChildIds(nodes[RootIndex]))| == 0;
    }
  }

  // ---------------------------------------------------------------------------
  // The sort inside the render writes back to the state
  // ---------------------------------------------------------------------------

  /** Two arenas that agree on every node's path, name and kind. */
  predicate SameLabels(nodes: seq<Node>, other: seq<Node>)
  {
    |nodes| == |other| &&
    forall k :: 0 <= k < |nodes| ==>
      nodes[k].path == other[k].path && nodes[k].name == other[k].name && nodes[k].kind == other[k].kind
  }

  /** Insertion only looks at names and kinds. */
  lemma {:induction false} InsertSameLabels(nodes: seq<Node>, other: seq<Node>, x: nat, ids: seq<nat>)
    requires SameLabels(nodes, other) && x < |nodes| && InArena(nodes, ids)
    ensures InArena(other, ids) && Insert(other, x, ids) == Insert(nodes, x, ids)
    decreases |ids|
  {
    if ids != [] {
      InsertSameLabels(nodes, other, x, ids[..|ids| - 1]);
    }
  }

  /** Sorting only looks at names and kinds. */
  lemma {:induction false} SortIdsSameLabels(nodes: seq<Node>, other: seq<Node>, ids: seq<nat>)
    requires SameLabels(nodes, other) && InArena(nodes, ids)
    ensures InArena(other, ids) && SortIds(other, ids) == SortIds(nodes, ids)
    decreases |ids|
  {
    if ids != [] {
      var front := ids[..|ids| - 1];
      SortIdsSameLabels(nodes, other, front);
      InsertSameLabels(nodes, other, ids[|ids| - 1], SortIds(nodes, front));
    }
  }

  /** The arena after `item.children.sort(...)` wrote node `i`'s sorted children back. */
  function Resorted(nodes: seq<Node>, i: nat): (sorted: seq<Node>)
    requires i < |nodes| && InArena(nodes, ChildIds(nodes[i])) && nodes[i].children.Some?
    ensures |sorted| == |nodes|
  {
    nodes[i := nodes[i].(children := Some(SortIds(nodes, ChildIds(nodes[i]))))]
  }

  /** Writing a node's sorted children back keeps the arena a tree with the same labels. */
  lemma ResortedIsTree(nodes: seq<Node>, i: nat)
    requires ChildrenFollowParents(nodes) && i < |nodes| && nodes[i].children.Some?
    ensures InArena(nodes, ChildIds(nodes[i]))
    ensures SameLabels(nodes, Resorted(nodes, i)) && ChildrenFollowParents(Resorted(nodes, i))
    ensures |ChildIds(Resorted(nodes, i)[i])| == |ChildIds(nodes[i])|
  {
    SortedChildrenFollow(nodes, i);
    var ids := ChildIds(nodes[i]);
    SortIdsPermutes(nodes, ids);
    assert |multiset(SortIds(nodes, ids))| == |multiset(ids)|;
  }

  /** Rendering an item after a node's children were sorted in place draws the same rows. */
  lemma {:induction false} ItemRowsResorted(nodes: seq<Node>, expanded: map<string, bool>, i: nat, j: nat, indent: nat)
    requires ChildrenFollowParents(nodes) && i < |nodes| && nodes[i].children.Some? && j < |nodes|
    ensures InArena(nodes, ChildIds(nodes[i])) && ChildrenFollowParents(Resorted(nodes, i))
    ensures ItemRows(Resorted(nodes, i), expanded, j, indent) == ItemRows(nodes, expanded, j, indent)
    decreases |nodes| - j, 1
  {
    ResortedIsTree(nodes, i);
    var other := Resorted(nodes, i);
    SortedChildrenFollow(nodes, j);
    SortedChildrenFollow(other, j);
    assert RowOf(other, expanded, j, indent) == RowOf(nodes, expanded, j, indent);
    assert ShowsChildren(other, expanded, j) == ShowsChildren(nodes, expanded, j);
    if ShowsChildren(nodes, expanded, j) {
      var ids := SortIds(nodes, ChildIds(nodes[j]));
      assert SortIds(other, ChildIds(other[j])) == ids by {
        if j == i {
          SortIsIdempotent(nodes, ChildIds(nodes[i]));
          SortIdsSameLabels(nodes, other, ids);
        } else {
          SortIdsSameLabels(nodes, other, ChildIds(nodes[j]));
        }
      }
      ChildRowsResorted(nodes, expanded, i, ids, j, indent + 1);
    }
  }

  /** Rendering a children list after a node's children were sorted in place draws the same rows. */
  lemma {:induction false} ChildRowsResorted(nodes: seq<Node>, expanded: map<string, bool>, i: nat, ids: seq<nat>, parent: nat, indent: nat)
    requires ChildrenFollowParents(nodes) && i < |nodes| && nodes[i].children.Some? && parent < |nodes|
    requires forall c :: c in ids ==> parent < c < |nodes|
    ensures InArena(nodes, ChildIds(nodes[i])) && ChildrenFollowParents(Resorted(nodes, i))
    ensures ChildRows(Resorted(nodes, i), expanded, ids, parent, indent) == ChildRows(nodes, expanded, ids, parent, indent)
    decreases |nodes| - parent, 0, |ids|
  {
    ResortedIsTree(nodes, i);
    if ids != [] {
      assert ids[0] in ids && forall c :: c in ids[1..] ==> c in ids;
      ItemRowsResorted(nodes, expanded, i, ids[0], indent);
      ChildRowsResorted(nodes, expanded, i, ids[1..], parent, indent);
    }
  }

  /**
   * The JavaScript sorts `children` arrays and the top-level list in place
   * while rendering; writing the sorted order back changes nothing that is
   * drawn, on this render or any later one.
   */
  lemma ResortingKeepsTreeRows(nodes: seq<Node>, expanded: map<string, bool>, i: nat)
    requires ChildrenFollowParents(nodes) && i < |nodes| && nodes[i].children.Some?
    ensures InArena(nodes, ChildIds(nodes[i])) && ChildrenFollowParents(Resorted(nodes, i))
    ensures TreeRows(Resorted(nodes, i), expanded) == TreeRows(nodes, expanded)
  {
    ResortedIsTree(nodes, i);
    var other := Resorted(nodes, i);
    SortedChildrenFollow(nodes, RootIndex);
    SortedChildrenFollow(other, RootIndex);
    var ids := SortIds(nodes, ChildIds(nodes[RootIndex]));
    assert SortIds(other, ChildIds(other[RootIndex])) == ids by {
      if i == RootIndex {
        SortIsIdempotent(nodes, ChildIds(nodes[RootIndex]));
        SortIdsSameLabels(nodes, other, ids);
      } else {
        SortIdsSameLabels(nodes, other, ChildIds(nodes[RootIndex]));
      }
    }
    ChildRowsResorted(nodes, expanded, i, ids, RootIndex, 0);
  }

  // ---------------------------------------------------------------------------
  // The component's state
  // ---------------------------------------------------------------------------

  /** The message shown when a failed request carries none. */
  const FetchErrorFallback: string := "Error fetching repository tree"

  /** `err.response?.data?.message || 'Error fetching repository tree'`. */
  function FetchErrorText(message: Option<string>): (text: string)
    ensures text != ""
    ensures message.Some? && message.value != "" ==> text == message.value
    ensures message.None? || message.value == "" ==> text == FetchErrorFallback
  {
    if message.Some? && message.value != "" then message.value else FetchErrorFallback
  }

  /** What the panel body shows: spinner, error box, the empty-tree notice, the tree rows. */
  datatype Panel = Panel(spinner: bool, errorText: Option<string>, noFiles: bool, rows: seq<Row>)

  /** `error && ...`: the error box needs a message that is present and nonempty. */
  predicate ErrorShown(error: Option<string>)
  {
    error.Some? && error.value != ""
  }

  /** The panel body for a state. */
  function PanelOf(loading: bool, error: Option<string>, nodes: seq<Node>, expanded: map<string, bool>): Panel
    requires ChildrenFollowParents(nodes) && |nodes| > 0
  {
    var settled := !loading && !ErrorShown(error);
    Panel(loading, if ErrorShown(error) then error else None,
      settled && |ChildIds(nodes[RootIndex])| == 0,
      if settled && |ChildIds(nodes[RootIndex])| > 0 then TreeRows(nodes, expanded) else [])
  }

  /**
   * Once loading is over without an error, the panel shows exactly one of
   * the empty-tree notice and a nonempty tree; before that it shows neither.
   */
  lemma PanelShowsOneOutcome(loading: bool, error: Option<string>, nodes: seq<Node>, expanded: map<string, bool>)
    requires ChildrenFollowParents(nodes) && |nodes| > 0
    ensures var panel := PanelOf(loading, error, nodes, expanded);
      && (!loading && !ErrorShown(error) ==> (panel.noFiles <==> panel.rows == []))
      && (loading || ErrorShown(error) ==> !panel.noFiles && panel.rows == [])
      && panel.spinner == loading
      && (panel.errorText.Some? <==> ErrorShown(error))
      && (ErrorShown(error) ==> panel.errorText == error)
  {
    TreeRowsShowSortedTree(nodes, expanded);
  }

  /** The state of one mounted file-tree panel. */
  class RepoTreeView {
    var treeData: seq<Node>
    var loading: bool
    var error: Option<string>
    var expandedFolders: map<string, bool>

    /**
     * The arena always has its root, every child index names a node, and a
     * stored error always has a message to show.
     */
    ghost predicate Valid()
      reads this
    {
      && |treeData| > 0
      && (forall i :: 0 <= i < |treeData| ==> InArena(treeData, ChildIds(treeData[i])))
      && (error.Some? ==> ErrorShown(error))
    }

    /** `useState([])`, `useState(true)`, `useState(null)`, `useState({})`. */
    constructor ()
      ensures Valid() && treeData == Arena([]) && loading && error.None? && expandedFolders == map[]
    {
      treeData := [Node("", "", Tree, Some([]))];
      loading := true;
      error := None;
      expandedFolders := map[];
      ArenaAfterRoot([], 0);
    }

    /** The effect on `[owner, repo]`: a fetch starts, with the spinner on, only when both are nonempty. */
    method BeginFetch(owner: string, repo: string)
      modifies this
      ensures loading == (if owner != "" && repo != "" then true else old(loading))
      ensures treeData == old(treeData) && error == old(error) && expandedFolders == old(expandedFolders)
    {
      if owner != "" && repo != "" {
        loading := true;
      }
    }

    /** A successful fetch: the listing becomes the tree, the error clears, loading ends. */
    method FetchSucceeded(items: seq<Entry>)
      modifies this
      ensures Valid() && treeData == Arena(items)
      ensures !loading && error.None? && expandedFolders == old(expandedFolders)
    {
      treeData := ProcessTreeData(items);
      ArenaChildrenInRange(items);
      error := None;
      loading := false;
      forall i | 0 <= i < |treeData| ensures InArena(treeData, ChildIds(treeData[i])) {
        var ids := ChildIds(treeData[i]);
        assert forall k :: 0 <= k < |ids| ==> ids[k] in ids;
      }
    }

    /** A failed fetch: the error text is set, the tree emptied, loading ends. */
    method FetchFailed(message: Option<string>)
      modifies this
      ensures Valid() && treeData == Arena([]) && ChildIds(treeData[RootIndex]) == []
      ensures !loading && error == Some(FetchErrorText(message)) && expandedFolders == old(expandedFolders)
    {
      error := Some(FetchErrorText(message));
      treeData := [Node("", "", Tree, Some([]))];
      ArenaAfterRoot([], 0);
      loading := false;
    }

    /** `toggleFolder(path)`: flips that one folder's expansion. */
    method ToggleFolder(path: string)
      modifies this
      ensures expandedFolders == old(expandedFolders)[path := !IsExpanded(old(expandedFolders), path)]
      ensures IsExpanded(expandedFolders, path) == !IsExpanded(old(expandedFolders), path)
      ensures forall q :: q != path ==> IsExpanded(expandedFolders, q) == IsExpanded(old(expandedFolders), q)
      ensures treeData == old(treeData) && loading == old(loading) && error == old(error)
    {
      var wasOpen := path in expandedFolders && expandedFolders[path];
      expandedFolders := expandedFolders[path := !wasOpen];
    }

    /** A click on a row: folders toggle, files do nothing. */
    method Click(row: Row)
      modifies this
      ensures row.isFolder ==> expandedFolders == old(expandedFolders)[row.path := !IsExpanded(old(expandedFolders), row.path)]
      ensures !row.isFolder ==> expandedFolders == old(expandedFolders)
      ensures treeData == old(treeData) && loading == old(loading) && error == old(error)
    {
      if row.isFolder {
        ToggleFolder(row.path);
      }
    }

    /**
     * `item.children.sort(...)` during a render: node `i`'s children array
     * is sorted in place, and the sorted order stays in the state.
     */
    method SortChildren(i: nat)
      requires Valid() && i < |treeData| && treeData[i].children.Some?
      modifies this
      ensures InArena(old(treeData), ChildIds(old(treeData)[i]))
      ensures Valid() && treeData == Resorted(old(treeData), i)
      ensures loading == old(loading) && error == old(error) && expandedFolders == old(expandedFolders)
    {
      var ids := ChildIds(treeData[i]);
      var a := new nat[|ids|](k requires 0 <= k < |ids| => ids[k]);
      assert a[..] == ids;
      SortInPlace(treeData, a);
      ghost var was := treeData;
      SortIdsPermutes(was, ids);
      treeData := treeData[i := treeData[i].(children := Some(a[..]))];
      forall n | 0 <= n < |treeData| ensures InArena(treeData, ChildIds(treeData[n])) {
        if n == i {
          var sorted := a[..];
          forall k | 0 <= k < |sorted| ensures sorted[k] < |treeData| {
            assert sorted[k] in multiset(ids);
          }
        } else {
          assert treeData[n] == was[n];
        }
      }
    }

    /** What the panel shows for the current state. */
    function View(): (panel: Panel)
      reads this
      requires ChildrenFollowParents(treeData) && |treeData| > 0
      ensures Valid() ==> panel.errorText == error
    {
      PanelOf(loading, error, treeData, expandedFolders)
    }
  }
}
