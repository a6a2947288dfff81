/** The mutators of the graph cache as functions on the cache memory, and what two of them in a row leave behind. */
module CacheMutators {
  import opened Wrappers
  import opened GraphModel
  import opened StableSort
  import opened CacheMemory
  import FF = FileFold
  import FO = FileOwnership
  import KL = KeyedList
  import NF = NewestFirst

  function DateOf(c: Commit): int { c.date }
  function StampOf(r: Record): int { r.stamp }

  // ---- What each mutator makes of a graph -------------------------------------------------------------------------

  /** upsertRepository: an existing graph keeps everything but its times and version, also against the ref. */
  function Upserted(existing: Option<Graph>, ref: RepoRef, now: int): Graph {
    match existing
    case Some(g) =>
      g.(lastUpdated := now, metadata := g.metadata.(lastIndexedAt := now, indexVersion := g.metadata.indexVersion + 1))
    case None =>
      Graph(ref.repoId, ref.owner, ref.repo, now, [], [], [], [], [], [], [], [],
            if ref.defaultBranch.Some? then [ref.defaultBranch.value] else [], ref.defaultBranch,
            Metadata("unknown", None, now, 1, None, None))
  }

  function Stamped(g: Graph, now: int): Graph {
    g.(lastUpdated := now, metadata := g.metadata.(lastIndexedAt := now, indexVersion := g.metadata.indexVersion + 1))
  }

  function Paths(files: seq<FileNode>): set<string> { set i | 0 <= i < |files| :: files[i].path }

  function WithFiles(leq: (string, string) -> bool, g: Graph, changes: seq<FF.ChangedFile>, now: int): Graph {
    var tree := FF.UpdatedTree(g.fileTree, changes, now, leq);
    Stamped(g.(fileTree := tree,
               dependencies := FF.Within(g.dependencies, Paths(tree)),
               owners := FO.Owners(tree, g.recentCommits)), now)
  }

  function MergedCommits(l: Limits, stored: seq<Commit>, commits: seq<Commit>): seq<Commit> {
    NF.MergeNewest(stored, MapSeq(SanitizeCommit, commits), ShaOf, DateOf, l.maxCommits)
  }

  function WithCommits(l: Limits, g: Graph, commits: seq<Commit>, now: int): Graph {
    var merged := MergedCommits(l, g.recentCommits, commits);
    Stamped(g.(recentCommits := merged, owners := FO.Owners(g.fileTree, merged)), now)
  }

  function WithDependencies(g: Graph, deps: seq<Edge>, now: int): Graph {
    Stamped(g.(dependencies := Dedupe(deps)), now)
  }

  datatype RecordKind = PullRequest | Issue | Review | SlackDecision

  function RecordsOf(g: Graph, k: RecordKind): seq<Record> {
    match k case PullRequest => g.pullRequests case Issue => g.issues case Review => g.reviews case SlackDecision => g.slackDecisions
  }

  function WithRecord(l: Limits, g: Graph, k: RecordKind, r: Record, now: int): Graph {
    var next := if k.PullRequest? || k.Issue? then SanitizeTitled(r) else r;
    var merged := NF.MergeNewest(RecordsOf(g, k), [next], IdOf, StampOf, l.maxMetadata);
    Stamped(match k
            case PullRequest => g.(pullRequests := merged)
            case Issue => g.(issues := merged)
            case Review => g.(reviews := merged)
            case SlackDecision => g.(slackDecisions := merged), now)
  }

  // ---- The mutators on the memory ---------------------------------------------------------------------------------

  type Change = Graph -> Graph

  function FilesChange(leq: (string, string) -> bool, changes: seq<FF.ChangedFile>, now: int): Change {
    g => WithFiles(leq, g, changes, now)
  }

  function CommitsChange(l: Limits, commits: seq<Commit>, now: int): Change { g => WithCommits(l, g, commits, now) }

  function RecordChange(l: Limits, k: RecordKind, r: Record, now: int): Change { g => WithRecord(l, g, k, r, now) }

  /** The graph a mutator starts from: the resident one, expired or not, or a blank one. */
  function Base(m: Mem, org: string, ref: RepoRef, now: int): Graph {
    Upserted(GraphAt(m, CacheKey(org, ref.repoId)), ref, now)
  }

  /** A mutator stores the upserted graph first and then its own change of it. */
  function Mutated(l: Limits, m: Mem, org: string, ref: RepoRef, change: Change, now: int): Mem {
    var g := Base(m, org, ref, now);
    Stored(l, Stored(l, m, org, g, now), org, change(g), now)
  }

  // ---- What stays true ---------------------------------------------------------------------------------------------

  /** Entries stand under the key of a NUL-free org and their own repository. */
  ghost predicate Keyed(m: Mem) {
    forall s :: s in m ==> exists org :: NulFree(org) && s.key == CacheKey(org, s.entry.graph.repoId)
  }

  /** Keyed entries, accessed no later than now. */
  ghost predicate Owned(m: Mem, now: int) {
    Keyed(m) && forall s :: s in m ==> s.entry.lastAccessedAt <= now
  }

  lemma StoredKeyed(l: Limits, m: Mem, org: string, g: Graph, now: int)
    requires MemOk(l, m) && Keyed(m) && NulFree(org)
    ensures Keyed(Stored(l, m, org, g, now))
  {
    StoredKeeps(l, m, org, g, now);
    hide Stored, Coherent, CacheKey;
  }

  lemma StoredOwned(l: Limits, m: Mem, org: string, g: Graph, now: int)
    requires MemOk(l, m) && Owned(m, now) && NulFree(org)
    ensures Owned(Stored(l, m, org, g, now), now)
  {
    StoredKeyed(l, m, org, g, now);
    StoredKeeps(l, m, org, g, now);
    hide Stored, Coherent, CacheKey, Keyed;
  }

  lemma OwnRepo(m: Mem, org: string, repo: string)
    requires Keyed(m) && NulFree(org)
    ensures var g := GraphAt(m, CacheKey(org, repo)); g.Some? ==> g.value.repoId == repo
  {
    var s := KL.Find(m, KeyOf, CacheKey(org, repo));
    if s.Some? {
      var o :| NulFree(o) && s.value.key == CacheKey(o, s.value.entry.graph.repoId);
      CacheKeyInjective(org, repo, o, s.value.entry.graph.repoId);
    }
  }

  ghost predicate Holds(l: Limits) { l.ttlMs >= 0 && l.maxRepos >= 1 }

  /** What setGraph stores is what the next call finds, for a cache that can hold an entry. */
  lemma StoredFound(l: Limits, m: Mem, org: string, g: Graph, now: int)
    requires MemOk(l, m) && Owned(m, now) && NulFree(org) && Holds(l)
    ensures GraphAt(Stored(l, m, org, g, now), CacheKey(org, g.repoId)) == Some(Sanitize(l, g))
    ensures MemOk(l, Stored(l, m, org, g, now)) && Owned(Stored(l, m, org, g, now), now)
  {
    StoredSurvives(l, m, org, g, now);
    StoredKeeps(l, m, org, g, now);
    StoredOwned(l, m, org, g, now);
  }

  /** After a mutator the cache holds the sanitized result of its change to the base graph. */
  lemma MutatedFound(l: Limits, m: Mem, org: string, ref: RepoRef, change: Change, now: int)
    requires MemOk(l, m) && Owned(m, now) && NulFree(org) && Holds(l)
    requires forall g :: change(g).repoId == g.repoId
    ensures var r := Mutated(l, m, org, ref, change, now);
      && GraphAt(r, CacheKey(org, ref.repoId)) == Some(Sanitize(l, change(Base(m, org, ref, now))))
      && MemOk(l, r) && Owned(r, now)
  {
    var g := Base(m, org, ref, now);
    OwnRepo(m, org, ref.repoId);
    StoredFound(l, m, org, g, now);
    StoredFound(l, Stored(l, m, org, g, now), org, change(g), now);
  }

  lemma OwnedLater(m: Mem, now: int, later: int)
    requires Owned(m, now) && now <= later
    ensures Owned(m, later)
  {
  }

  // ---- updateFiles ------------------------------------------------------------------------------------------------

  lemma PathsOfTree(files: seq<FileNode>, t: FF.Tree)
    requires FF.Represents(files, t)
    ensures Paths(files) == t.Keys
  {
    forall p ensures p in Paths(files) <==> p in t {
      assert KL.Find(files, PathOf, p) == FF.Lookup(t, p);
      if p in Paths(files) {
        var i :| 0 <= i < |files| && files[i].path == p;
        assert PathOf(files[i]) == p;
      }
    }
  }

  /**
   After updateFiles the stored tree is the changes folded over the old tree, in path order without repetition; every
   stored dependency has both ends in it, and none that has was lost; the owners list the tree's files one to one.
   */
  lemma UpdateFilesStored(l: Limits, leq: (string, string) -> bool, m: Mem, org: string, ref: RepoRef, changes: seq<FF.ChangedFile>, now: int)
    requires MemOk(l, m) && Owned(m, now) && NulFree(org) && Holds(l) && FF.TotalOrder(leq)
    ensures var before := Base(m, org, ref, now);
      var stored := GraphAt(Mutated(l, m, org, ref, FilesChange(leq, changes, now), now), CacheKey(org, ref.repoId));
      && stored.Some?
      && var g := stored.value;
      && FF.TreeOf(g.fileTree) == FF.FoldTree(FF.TreeOf(before.fileTree), changes, now)
      && KL.UniqueKeys(g.fileTree, PathOf)
      && (forall i, j :: 0 <= i < j < |g.fileTree| ==> leq(g.fileTree[i].path, g.fileTree[j].path))
      && (forall e :: e in g.dependencies <==> e in before.dependencies && e.from in FF.TreeOf(g.fileTree) && e.to in FF.TreeOf(g.fileTree))
      && |g.owners| == |g.fileTree| && (forall i :: 0 <= i < |g.owners| ==> g.owners[i].file == g.fileTree[i].path)
      && g.owners == FO.Owners(g.fileTree, g.recentCommits)
  {
    var before := Base(m, org, ref, now);
    var change := FilesChange(leq, changes, now);
    var g := WithFiles(leq, before, changes, now);
    MutatedFound(l, m, org, ref, change, now);
    FF.UpdatedTreeIsFold(before.fileTree, changes, now, leq);
    FF.TreeOfRepresents(g.fileTree);
    PathsOfTree(g.fileTree, FF.TreeOf(g.fileTree));
    FF.WithinMembers(before.dependencies, Paths(g.fileTree));
    BaseSanitized(l, m, org, ref, now);
    WithinUnique(before.dependencies, Paths(g.fileTree));
    KL.KeepFirstOfUnique(g.dependencies, EdgeKey);
    CommitsStay(l, before);
    assert g.fileTree == FF.UpdatedTree(before.fileTree, changes, now, leq);
    assert Sanitize(l, g).dependencies == g.dependencies;
  }

  lemma BaseSanitized(l: Limits, m: Mem, org: string, ref: RepoRef, now: int)
    requires MemOk(l, m)
    ensures Sanitize(l, Base(m, org, ref, now)) == Base(m, org, ref, now)
    ensures KL.UniqueKeys(Base(m, org, ref, now).dependencies, EdgeKey)
  {
    var g := GraphAt(m, CacheKey(org, ref.repoId));
    if g.Some? {
      var s := KL.Find(m, KeyOf, CacheKey(org, ref.repoId));
      assert Coherent(l, s.value.entry);
      DedupeUnique(g.value.dependencies);
      assert Dedupe(g.value.dependencies) == g.value.dependencies;
    }
  }

  lemma {:induction false} WithinUnique(deps: seq<Edge>, paths: set<string>)
    requires KL.UniqueKeys(deps, EdgeKey)
    ensures KL.UniqueKeys(FF.Within(deps, paths), EdgeKey)
  {
    if deps != [] {
      var n := |deps| - 1;
      WithinUnique(deps[..n], paths);
      FF.WithinMembers(deps[..n], paths);
      var r := FF.Within(deps[..n], paths);
      forall j | 0 <= j < |r| ensures EdgeKey(r[j]) != EdgeKey(deps[n]) {
        assert r[j] in r;
        var i :| 0 <= i < n && deps[..n][i] == r[j];
        assert deps[i] == r[j];
      }
    }
  }

  lemma CommitsStay(l: Limits, g: Graph)
    requires Sanitize(l, g) == g
    ensures Take(MapSeq(SanitizeCommit, g.recentCommits), l.maxCommits) == g.recentCommits
    ensures forall c :: c in g.recentCommits ==> SanitizeCommit(c) == c && KL.UniqueKeys(c.files, Same)
  {
    var cs := Take(MapSeq(SanitizeCommit, g.recentCommits), l.maxCommits);
    assert g.recentCommits == cs by { assert Sanitize(l, g).recentCommits == cs; }
    forall c | c in g.recentCommits ensures SanitizeCommit(c) == c && KL.UniqueKeys(c.files, Same) {
      var i :| 0 <= i < |cs| && cs[i] == c;
      SanitizeCommitTwice(g.recentCommits[i]);
    }
  }

  lemma PathsUpdated(leq: (string, string) -> bool, tree: seq<FileNode>, changes: seq<FF.ChangedFile>, now: int)
    requires FF.TotalOrder(leq)
    ensures Paths(FF.UpdatedTree(tree, changes, now, leq)) == FF.FoldTree(FF.TreeOf(tree), changes, now).Keys
  {
    FF.UpdatedTreeIsFold(tree, changes, now, leq);
    PathsOfTree(FF.UpdatedTree(tree, changes, now, leq), FF.FoldTree(FF.TreeOf(tree), changes, now));
  }

  /** Files with the same shapes have the same paths and, for the same commits, the same owners. */
  lemma SameShapesSameOwners(files: seq<FileNode>, others: seq<FileNode>, commits: seq<Commit>)
    requires MapSeq(FF.ShapeOf, files) == MapSeq(FF.ShapeOf, others)
    ensures FO.Owners(files, commits) == FO.Owners(others, commits) && Paths(files) == Paths(others)
  {
    var s, t := MapSeq(FF.ShapeOf, files), MapSeq(FF.ShapeOf, others);
    assert |files| == |others|;
    forall i | 0 <= i < |files|
      ensures files[i].path == others[i].path && FO.OwnerOf(files[i], FO.Mentions(commits)) == FO.OwnerOf(others[i], FO.Mentions(commits))
    {
      assert s[i] == FF.ShapeOf(files[i]) && t[i] == FF.ShapeOf(others[i]);
    }
  }

  /** An edge of the graph has both ends in the tree the changes leave. */
  ghost predicate InTree(e: Edge, g: Graph, changes: seq<FF.ChangedFile>, now: int) {
    var tree := FF.FoldTree(FF.TreeOf(g.fileTree), changes, now);
    e.from in tree && e.to in tree
  }

  /** No edge that ends inside the final tree had an end outside the tree that the first batch leaves. */
  ghost predicate NoEdgeLeft(g: Graph, cs: seq<FF.ChangedFile>, ds: seq<FF.ChangedFile>, n1: int, n: int) {
    forall e :: e in g.dependencies && InTree(e, g, cs + ds, n) ==> InTree(e, g, cs, n1)
  }

  /**
   Two batches of file changes in turn leave the paths, sizes, authors and shas of one batch with both, and the same
   owners; they leave the same edges exactly when no edge left the tree in between.
   */
  lemma FilesTwice(leq: (string, string) -> bool, g: Graph, cs: seq<FF.ChangedFile>, ds: seq<FF.ChangedFile>, n1: int, n2: int, n: int)
    requires FF.TotalOrder(leq)
    ensures var two, one := WithFiles(leq, WithFiles(leq, g, cs, n1), ds, n2), WithFiles(leq, g, cs + ds, n);
      && MapSeq(FF.ShapeOf, two.fileTree) == MapSeq(FF.ShapeOf, one.fileTree)
      && two.owners == one.owners
      && (two.dependencies == one.dependencies <==> NoEdgeLeft(g, cs, ds, n1, n))
  {
    var first := FF.UpdatedTree(g.fileTree, cs, n1, leq);
    var two, one := FF.UpdatedTree(first, ds, n2, leq), FF.UpdatedTree(g.fileTree, cs + ds, n, leq);
    FF.FileBatchesCompose(g.fileTree, cs, ds, n1, n2, n, leq);
    SameShapesSameOwners(two, one, g.recentCommits);
    PathsUpdated(leq, g.fileTree, cs, n1);
    PathsUpdated(leq, g.fileTree, cs + ds, n);
    FF.BatchesDropDependencies(g.dependencies, Paths(first), Paths(one));
  }

  /** Removing a file and adding it again loses an edge to it in two batches, and keeps it in one. */
  lemma ReaddedFileLosesEdge(leq: (string, string) -> bool, g: Graph, now: int)
    requires FF.TotalOrder(leq)
    requires g.fileTree == [FileNode("a", 1, 0, "", ""), FileNode("b", 1, 0, "", "")] && g.dependencies == [Edge("a", "b", Import)]
    ensures var cs := [FF.ChangedFile("b", None, FF.Removed, None, None, None, None)];
      var ds := [FF.ChangedFile("b", None, FF.Added, None, None, None, None)];
      && WithFiles(leq, WithFiles(leq, g, cs, now), ds, now).dependencies == []
      && WithFiles(leq, g, cs + ds, now).dependencies == g.dependencies
  {
    TwoPaths(g.fileTree);
    ReaddedEnd(leq, g, Edge("a", "b", Import), FF.ChangedFile("b", None, FF.Removed, None, None, None, None),
      FF.ChangedFile("b", None, FF.Added, None, None, None, None), now);
  }

  /** The end of a graph's one edge is removed and added again. */
  lemma ReaddedEnd(leq: (string, string) -> bool, g: Graph, e: Edge, c: FF.ChangedFile, d: FF.ChangedFile, now: int)
    requires FF.TotalOrder(leq) && g.dependencies == [e] && FF.TreeOf(g.fileTree).Keys == {e.from, e.to} && e.from != e.to
    requires c.path == e.to == d.path && c.status.Removed? && d.status.Added? && c.previousPath == None && d.previousPath == None
    ensures WithFiles(leq, WithFiles(leq, g, [c], now), [d], now).dependencies == []
    ensures WithFiles(leq, g, [c] + [d], now).dependencies == [e]
  {
    hide FF.TotalOrder, WithFiles, InTree;
    ReaddedPaths(g, e, c, d, now);
    EdgeStays(leq, g, e, [c], now);
    EdgeStays(leq, g, e, [c] + [d], now);
    NoEdgeAppears(leq, WithFiles(leq, g, [c], now), [d], now);
  }

  lemma EdgeStays(leq: (string, string) -> bool, g: Graph, e: Edge, changes: seq<FF.ChangedFile>, now: int)
    requires FF.TotalOrder(leq) && g.dependencies == [e]
    ensures WithFiles(leq, g, changes, now).dependencies == if InTree(e, g, changes, now) then [e] else []
  {
    PathsUpdated(leq, g.fileTree, changes, now);
    FF.WithinSnoc([], e, Paths(FF.UpdatedTree(g.fileTree, changes, now, leq)));
    assert [] + [e] == [e];
  }

  lemma NoEdgeAppears(leq: (string, string) -> bool, g: Graph, changes: seq<FF.ChangedFile>, now: int)
    requires g.dependencies == []
    ensures WithFiles(leq, g, changes, now).dependencies == []
  {
  }

  lemma TwoPaths(files: seq<FileNode>)
    requires |files| == 2 && files[0].path == "a" && files[1].path == "b"
    ensures FF.TreeOf(files).Keys == {"a", "b"}
  {
    FF.TreeOfRepresents(files);
    assert KL.UniqueKeys(files, PathOf) by { assert PathOf(files[0]) != PathOf(files[1]); }
    PathsOfTree(files, FF.TreeOf(files));
    assert Paths(files) == {files[0].path, files[1].path};
  }

  lemma ReaddedPaths(g: Graph, e: Edge, c: FF.ChangedFile, d: FF.ChangedFile, now: int)
    requires FF.TreeOf(g.fileTree).Keys == {e.from, e.to} && e.from != e.to
    requires c.path == e.to == d.path && c.status.Removed? && d.status.Added? && c.previousPath == None && d.previousPath == None
    ensures !InTree(e, g, [c], now) && InTree(e, g, [c] + [d], now)
  {
    var t := FF.TreeOf(g.fileTree);
    var u := FF.ApplyTree(t, c, now);
    assert u.Keys == {e.from};
    FF.FoldTreeConcat(t, [c], [d], now);
    assert FF.FoldTree(t, [c], now) == u && FF.FoldTree(u, [d], now) == FF.ApplyTree(u, d, now);
  }

  lemma FilesStay(l: Limits, leq: (string, string) -> bool, g: Graph, changes: seq<FF.ChangedFile>, now: int)
    requires KL.UniqueKeys(g.dependencies, EdgeKey) && Sanitize(l, g) == g
    ensures Sanitize(l, WithFiles(leq, g, changes, now)) == WithFiles(leq, g, changes, now)
  {
    var h := WithFiles(leq, g, changes, now);
    WithinUnique(g.dependencies, Paths(h.fileTree));
    KL.KeepFirstOfUnique(h.dependencies, EdgeKey);
  }

  /**
   Two updateFiles calls in turn store what one call with both batches stores: the same paths, sizes, authors, shas
   and owners, and the same edges exactly when no edge left the tree in between.
   */
  lemma UpdateFilesTwice(l: Limits, leq: (string, string) -> bool, m: Mem, org: string, ref: RepoRef,
                         cs: seq<FF.ChangedFile>, ds: seq<FF.ChangedFile>, n1: int, n2: int, n: int)
    requires MemOk(l, m) && Owned(m, n1) && n1 <= n2 && n1 <= n && NulFree(org) && Holds(l) && FF.TotalOrder(leq)
    ensures var key := CacheKey(org, ref.repoId);
      var two := GraphAt(Mutated(l, Mutated(l, m, org, ref, FilesChange(leq, cs, n1), n1), org, ref, FilesChange(leq, ds, n2), n2), key);
      var one := GraphAt(Mutated(l, m, org, ref, FilesChange(leq, cs + ds, n), n), key);
      && two.Some? && one.Some?
      && MapSeq(FF.ShapeOf, two.value.fileTree) == MapSeq(FF.ShapeOf, one.value.fileTree)
      && two.value.owners == one.value.owners
      && (two.value.dependencies == one.value.dependencies <==> NoEdgeLeft(Base(m, org, ref, n1), cs, ds, n1, n))
  {
    var m1 := Mutated(l, m, org, ref, FilesChange(leq, cs, n1), n1);
    OwnedLater(m, n1, n);
    MutatedFound(l, m, org, ref, FilesChange(leq, cs, n1), n1);
    OwnedLater(m1, n1, n2);
    MutatedFound(l, m1, org, ref, FilesChange(leq, ds, n2), n2);
    MutatedFound(l, m, org, ref, FilesChange(leq, cs + ds, n), n);
    var g, later, between := Base(m, org, ref, n1), Base(m, org, ref, n), Base(m1, org, ref, n2);
    BaseSanitized(l, m, org, ref, n1);
    BaseSanitized(l, m, org, ref, n);
    BaseSanitized(l, m1, org, ref, n2);
    hide Mutated;
    FilesStay(l, leq, g, cs, n1);
    FilesStay(l, leq, between, ds, n2);
    FilesStay(l, leq, later, cs + ds, n);
    SameFields(leq, g, later, cs + ds, n);
    SameFields(leq, WithFiles(leq, g, cs, n1), between, ds, n2);
    FilesTwice(leq, g, cs, ds, n1, n2, n);
  }

  /** updateFiles reads the tree, the edges and the commits of a graph and nothing else of what it stores there. */
  lemma SameFields(leq: (string, string) -> bool, g: Graph, h: Graph, changes: seq<FF.ChangedFile>, now: int)
    requires g.fileTree == h.fileTree && g.dependencies == h.dependencies && g.recentCommits == h.recentCommits
    ensures var r, s := WithFiles(leq, g, changes, now), WithFiles(leq, h, changes, now);
      r.fileTree == s.fileTree && r.dependencies == s.dependencies && r.owners == s.owners
  {
  }

  // ---- addCommits -------------------------------------------------------------------------------------------------

  lemma MergedSanitized(l: Limits, stored: seq<Commit>, commits: seq<Commit>)
    requires forall c :: c in stored ==> SanitizeCommit(c) == c
    ensures var r := MergedCommits(l, stored, commits); Take(MapSeq(SanitizeCommit, r), l.maxCommits) == r
  {
    var batch, r := MapSeq(SanitizeCommit, commits), MergedCommits(l, stored, commits);
    NF.MergeNewestKeeps(stored, batch, ShaOf, DateOf, l.maxCommits);
    KL.PutAllUnique([], ShaOf, stored);
    KL.PutAllUnique(KL.PutAll([], ShaOf, stored), ShaOf, batch);
    forall i | 0 <= i < |r| ensures SanitizeCommit(r[i]) == r[i] {
      assert r[i] in r;
      if r[i] in batch {
        var j :| 0 <= j < |batch| && batch[j] == r[i];
        SanitizeCommitTwice(commits[j]);
      }
    }
    assert MapSeq(SanitizeCommit, r) == r;
  }

  /** After addCommits the stored commits are the bounded newest-first merge, and the owners count exactly them. */
  lemma AddCommitsStored(l: Limits, m: Mem, org: string, ref: RepoRef, commits: seq<Commit>, now: int)
    requires MemOk(l, m) && Owned(m, now) && NulFree(org) && Holds(l)
    ensures var before := Base(m, org, ref, now);
      var stored := GraphAt(Mutated(l, m, org, ref, CommitsChange(l, commits, now), now), CacheKey(org, ref.repoId));
      && stored.Some?
      && stored.value.recentCommits == MergedCommits(l, before.recentCommits, commits)
      && stored.value.owners == FO.Owners(stored.value.fileTree, stored.value.recentCommits)
      && stored.value.fileTree == before.fileTree && stored.value.dependencies == before.dependencies
  {
    var before := Base(m, org, ref, now);
    MutatedFound(l, m, org, ref, CommitsChange(l, commits, now), now);
    BaseSanitized(l, m, org, ref, now);
    CommitsStay(l, before);
    MergedSanitized(l, before.recentCommits, commits);
    KL.KeepFirstOfUnique(before.dependencies, EdgeKey);
  }

  /**
   After addCommits the stored commits have distinct shas, run newest first, and are as many of the newest of the merge
   as the bound allows; under each sha stands the last commit given, sanitized, or else the stored one.
   */
  lemma AddCommitsNewest(l: Limits, m: Mem, org: string, ref: RepoRef, commits: seq<Commit>, now: int)
    requires MemOk(l, m) && Owned(m, now) && NulFree(org) && Holds(l)
    ensures var before := Base(m, org, ref, now).recentCommits;
      var stored := GraphAt(Mutated(l, m, org, ref, CommitsChange(l, commits, now), now), CacheKey(org, ref.repoId));
      && stored.Some?
      && var r, all := stored.value.recentCommits, MergeOf(before, commits);
      && (forall i, j :: 0 <= i < j < |r| ==> r[i].sha != r[j].sha && r[i].date >= r[j].date)
      && |r| == (if |all| <= l.maxCommits then |all| else l.maxCommits)
      && (forall c :: c in r ==> c in all)
      && (forall c, d :: c in r && d in all && d !in r ==> c.date >= d.date)
      && (forall c :: c in all <==>
            if KL.Latest(MapSeq(SanitizeCommit, commits), ShaOf, c.sha).Some?
            then KL.Latest(MapSeq(SanitizeCommit, commits), ShaOf, c.sha) == Some(c)
            else KL.Latest(before, ShaOf, c.sha) == Some(c))
  {
    AddCommitsStored(l, m, org, ref, commits, now);
    var before, batch := Base(m, org, ref, now).recentCommits, MapSeq(SanitizeCommit, commits);
    var r, all := MergedCommits(l, before, commits), MergeOf(before, commits);
    hide Mutated, Base, SanitizeCommit, MapSeq;
    NF.MergeNewestKeeps(before, batch, ShaOf, DateOf, l.maxCommits);
    forall i, j | 0 <= i < j < |r| ensures r[i].sha != r[j].sha && r[i].date >= r[j].date {
      assert ShaOf(r[i]) != ShaOf(r[j]) && DateOf(r[i]) >= DateOf(r[j]);
    }
    forall c, d | c in r && d in all && d !in r ensures c.date >= d.date { assert DateOf(c) >= DateOf(d); }
    forall c ensures c in all <==>
      if KL.Latest(batch, ShaOf, c.sha).Some? then KL.Latest(batch, ShaOf, c.sha) == Some(c) else KL.Latest(before, ShaOf, c.sha) == Some(c)
    {
      NF.MergedFinds(before, batch, ShaOf, c.sha);
      if c in all { KL.FindIn(all, ShaOf, c); }
    }
  }

  /** The merge, before it is cut, of the commits stored before a call with the batches of the call. */
  ghost function MergeOf(stored: seq<Commit>, commits: seq<Commit>): seq<Commit> {
    NF.Merged(stored, MapSeq(SanitizeCommit, commits), ShaOf)
  }

  // ---- Ownership of what is stored ----------------------------------------------------------------------------------

  /** The owners are one entry a file, in tree order, each counting the stored commits. */
  ghost predicate OwnersCount(g: Graph) {
    && |g.owners| == |g.fileTree|
    && forall i :: 0 <= i < |g.owners| ==> FO.OwnerCounts(g.owners[i], g.fileTree[i], g.recentCommits)
  }

  /** In a sanitized graph the mentions of a file are the commits naming it: stored commits name no file twice. */
  lemma StoredCountsAreCommits(l: Limits, g: Graph, f: string)
    requires Sanitize(l, g) == g
    ensures forall c :: c in g.recentCommits ==> FO.NamedOnce(c.files, f)
    ensures FO.CountFile(FO.Mentions(g.recentCommits), f) == FO.CommitsNaming(g.recentCommits, f)
  {
    CommitsStay(l, g);
    forall c | c in g.recentCommits ensures FO.NamedOnce(c.files, f) {
      assert forall i, j :: 0 <= i < j < |c.files| ==> Same(c.files[i]) != Same(c.files[j]);
    }
    FO.MentionsAreCommits(g.recentCommits, f);
  }

  lemma SanitizedOwnersCount(l: Limits, g: Graph)
    requires Sanitize(l, g) == g && g.owners == FO.Owners(g.fileTree, g.recentCommits)
    ensures OwnersCount(g)
  {
    forall i | 0 <= i < |g.owners| ensures FO.OwnerCounts(g.owners[i], g.fileTree[i], g.recentCommits) {
      StoredCountsAreCommits(l, g, g.fileTree[i].path);
      FO.OwnerOfCommits(g.fileTree[i], g.recentCommits);
    }
  }

  /** After addCommits every file's counts add up to the number of stored commits naming it. */
  lemma AddCommitsOwners(l: Limits, m: Mem, org: string, ref: RepoRef, commits: seq<Commit>, now: int)
    requires MemOk(l, m) && Owned(m, now) && NulFree(org) && Holds(l)
    ensures var stored := GraphAt(Mutated(l, m, org, ref, CommitsChange(l, commits, now), now), CacheKey(org, ref.repoId));
      stored.Some? && OwnersCount(stored.value)
  {
    AddCommitsStored(l, m, org, ref, commits, now);
    MutatedFound(l, m, org, ref, CommitsChange(l, commits, now), now);
    SanitizeTwice(l, WithCommits(l, Base(m, org, ref, now), commits, now));
    SanitizedOwnersCount(l, Sanitize(l, WithCommits(l, Base(m, org, ref, now), commits, now)));
  }

  /** After updateFiles too. */
  lemma UpdateFilesOwners(l: Limits, leq: (string, string) -> bool, m: Mem, org: string, ref: RepoRef, changes: seq<FF.ChangedFile>, now: int)
    requires MemOk(l, m) && Owned(m, now) && NulFree(org) && Holds(l) && FF.TotalOrder(leq)
    ensures var stored := GraphAt(Mutated(l, m, org, ref, FilesChange(leq, changes, now), now), CacheKey(org, ref.repoId));
      stored.Some? && OwnersCount(stored.value)
  {
    UpdateFilesStored(l, leq, m, org, ref, changes, now);
    MutatedFound(l, m, org, ref, FilesChange(leq, changes, now), now);
    SanitizeTwice(l, WithFiles(leq, Base(m, org, ref, now), changes, now));
    SanitizedOwnersCount(l, Sanitize(l, WithFiles(leq, Base(m, org, ref, now), changes, now)));
  }

  // ---- addCommits, twice ----------------------------------------------------------------------------------------------

  /** Adding a batch of commits again changes no stored commit. */
  lemma AddCommitsAgain(l: Limits, m: Mem, org: string, ref: RepoRef, commits: seq<Commit>, n1: int, n2: int)
    requires MemOk(l, m) && Owned(m, n1) && n1 <= n2 && NulFree(org) && Holds(l)
    ensures var key := CacheKey(org, ref.repoId);
      var once := Mutated(l, m, org, ref, CommitsChange(l, commits, n1), n1);
      var again := GraphAt(Mutated(l, once, org, ref, CommitsChange(l, commits, n2), n2), key);
      again.Some? && GraphAt(once, key).Some? && again.value.recentCommits == GraphAt(once, key).value.recentCommits
  {
    var once := Mutated(l, m, org, ref, CommitsChange(l, commits, n1), n1);
    AddCommitsStored(l, m, org, ref, commits, n1);
    MutatedFound(l, m, org, ref, CommitsChange(l, commits, n1), n1);
    OwnedLater(once, n1, n2);
    AddCommitsStored(l, once, org, ref, commits, n2);
    NF.BatchTwice(Base(m, org, ref, n1).recentCommits, MapSeq(SanitizeCommit, commits), ShaOf, DateOf, l.maxCommits);
  }

  lemma SanitizeConcat(b: seq<Commit>, c: seq<Commit>)
    ensures MapSeq(SanitizeCommit, b + c) == MapSeq(SanitizeCommit, b) + MapSeq(SanitizeCommit, c)
  {
  }

  lemma FreshStaysFresh(base: seq<Commit>, b: seq<Commit>, c: seq<Commit>)
    requires forall x :: x in c ==> !KL.HasKey(base, ShaOf, x.sha) && !KL.HasKey(b, ShaOf, x.sha)
    ensures var sb, sc := MapSeq(SanitizeCommit, b), MapSeq(SanitizeCommit, c);
      forall x :: x in sc ==> !KL.HasKey(base, ShaOf, ShaOf(x)) && !KL.HasKey(sb, ShaOf, ShaOf(x))
  {
    var sb, sc := MapSeq(SanitizeCommit, b), MapSeq(SanitizeCommit, c);
    forall x | x in sc ensures !KL.HasKey(base, ShaOf, ShaOf(x)) && !KL.HasKey(sb, ShaOf, ShaOf(x)) {
      var j :| 0 <= j < |sc| && sc[j] == x;
      assert x == SanitizeCommit(c[j]) && c[j] in c;
      assert ShaOf(x) == c[j].sha && !KL.HasKey(b, ShaOf, c[j].sha);
      forall i | 0 <= i < |sb| ensures ShaOf(sb[i]) != ShaOf(x) {
        assert sb[i] == SanitizeCommit(b[i]) && ShaOf(b[i]) != c[j].sha;
      }
    }
  }

  /** What two addCommits calls in turn and one with both batches store, as merges of what was stored before. */
  lemma AddCommitsMerges(l: Limits, m: Mem, org: string, ref: RepoRef, b: seq<Commit>, c: seq<Commit>, n1: int, n2: int, n: int)
    requires MemOk(l, m) && Owned(m, n1) && n1 <= n2 && n1 <= n && NulFree(org) && Holds(l)
    ensures var base, key := Base(m, org, ref, n1).recentCommits, CacheKey(org, ref.repoId);
      var two := GraphAt(Mutated(l, Mutated(l, m, org, ref, CommitsChange(l, b, n1), n1), org, ref, CommitsChange(l, c, n2), n2), key);
      var one := GraphAt(Mutated(l, m, org, ref, CommitsChange(l, b + c, n), n), key);
      && two.Some? && two.value.recentCommits == MergedCommits(l, MergedCommits(l, base, b), c)
      && one.Some? && one.value.recentCommits == MergedCommits(l, base, b + c)
  {
    var first := Mutated(l, m, org, ref, CommitsChange(l, b, n1), n1);
    AddCommitsStored(l, m, org, ref, b, n1);
    MutatedFound(l, m, org, ref, CommitsChange(l, b, n1), n1);
    OwnedLater(first, n1, n2);
    AddCommitsStored(l, first, org, ref, c, n2);
    OwnedLater(m, n1, n);
    AddCommitsStored(l, m, org, ref, b + c, n);
  }

  /** Two batches in turn store what one batch with both does, when the second brings no sha already seen. */
  lemma AddCommitsTwice(l: Limits, m: Mem, org: string, ref: RepoRef, b: seq<Commit>, c: seq<Commit>, n1: int, n2: int, n: int)
    requires MemOk(l, m) && Owned(m, n1) && n1 <= n2 && n1 <= n && NulFree(org) && Holds(l)
    requires forall x :: x in c ==> !KL.HasKey(Base(m, org, ref, n1).recentCommits, ShaOf, x.sha) && !KL.HasKey(b, ShaOf, x.sha)
    ensures var key := CacheKey(org, ref.repoId);
      var first := Mutated(l, m, org, ref, CommitsChange(l, b, n1), n1);
      var two := GraphAt(Mutated(l, first, org, ref, CommitsChange(l, c, n2), n2), key);
      var one := GraphAt(Mutated(l, m, org, ref, CommitsChange(l, b + c, n), n), key);
      two.Some? && one.Some? && two.value.recentCommits == one.value.recentCommits
  {
    AddCommitsMerges(l, m, org, ref, b, c, n1, n2, n);
    var base := Base(m, org, ref, n1).recentCommits;
    hide Mutated, Base;
    FreshStaysFresh(base, b, c);
    SanitizeConcat(b, c);
    NF.BatchesCompose(base, MapSeq(SanitizeCommit, b), MapSeq(SanitizeCommit, c), ShaOf, DateOf, l.maxCommits);
  }

  /** A commit the first of two calls cut off, and the second does not bring again. */
  ghost predicate LostCommit(l: Limits, stored: seq<Commit>, b: seq<Commit>, c: seq<Commit>, x: Commit) {
    NF.Lost(stored, MapSeq(SanitizeCommit, b), MapSeq(SanitizeCommit, c), ShaOf, DateOf, l.maxCommits, x)
  }

  /**
   With distinct dates, two batches in turn store what one batch with both does exactly when no commit that the first
   call cut off, and the second does not bring again, is among the newest of the merge.
   */
  lemma AddCommitsTwiceExactly(l: Limits, m: Mem, org: string, ref: RepoRef, b: seq<Commit>, c: seq<Commit>, n1: int, n2: int, n: int)
    requires MemOk(l, m) && Owned(m, n1) && n1 <= n2 && n1 <= n && NulFree(org) && Holds(l)
    requires NF.DistinctStamps(MergeOf(Base(m, org, ref, n1).recentCommits, b + c), DateOf)
    ensures var base, key := Base(m, org, ref, n1).recentCommits, CacheKey(org, ref.repoId);
      var two := GraphAt(Mutated(l, Mutated(l, m, org, ref, CommitsChange(l, b, n1), n1), org, ref, CommitsChange(l, c, n2), n2), key);
      var one := GraphAt(Mutated(l, m, org, ref, CommitsChange(l, b + c, n), n), key);
      && two.Some? && one.Some?
      && (two.value.recentCommits == one.value.recentCommits
          <==> forall x :: LostCommit(l, base, b, c, x) ==> !NF.AmongNewest(MergeOf(base, b + c), DateOf, l.maxCommits, x))
      && (|MergeOf(base, b)| <= l.maxCommits ==> two.value.recentCommits == one.value.recentCommits)
  {
    AddCommitsMerges(l, m, org, ref, b, c, n1, n2, n);
    var base := Base(m, org, ref, n1).recentCommits;
    var sb, sc := MapSeq(SanitizeCommit, b), MapSeq(SanitizeCommit, c);
    hide Mutated, Base, NF.Lost, NF.AmongNewest, NF.MergeNewest;
    SanitizeConcat(b, c);
    NF.BatchesComposeExactly(base, sb, sc, ShaOf, DateOf, l.maxCommits);
    if |MergeOf(base, b)| <= l.maxCommits { NF.BatchesComposeWithoutCut(base, sb, sc, ShaOf, DateOf, l.maxCommits); }
  }

  /** When the second batch rewrites a sha, two batches in turn can store what one batch with both does not. */
  lemma RewrittenShaBreaksBatches()
    ensures var l := Limits(0, 1, 1, 1);
      var b := [Commit("a", "", "", 5, []), Commit("b", "", "", 3, [])];
      var c := [Commit("a", "", "", 1, [])];
      MergedCommits(l, MergedCommits(l, [], b), c) != MergedCommits(l, [], b + c)
  {
    var l := Limits(0, 1, 1, 1);
    var a5, b3, a1 := Commit("a", "", "", 5, []), Commit("b", "", "", 3, []), Commit("a", "", "", 1, []);
    assert SanitizeCommit(a5) == a5 && SanitizeCommit(b3) == b3 && SanitizeCommit(a1) == a1;
    assert MapSeq(SanitizeCommit, [a5, b3]) == [a5, b3] && MapSeq(SanitizeCommit, [a1]) == [a1];
    assert [a5, b3] + [a1] == [a5, b3, a1] && MapSeq(SanitizeCommit, [a5, b3, a1]) == [a5, b3, a1];
    hide SanitizeCommit, MapSeq, NF.MergeNewest;
    assert NF.Merged([], [a5, b3], ShaOf) == [a5, b3] by { PutTwo([], a5, b3); }
    NF.TopOne([], [a5, b3], ShaOf, DateOf, a5);
    assert NF.Merged([a5], [a1], ShaOf) == [a1] by { PutOne([], a5); PutOne([a5], a1); }
    NF.TopOne([a5], [a1], ShaOf, DateOf, a1);
    assert NF.Merged([], [a5, b3, a1], ShaOf) == [a1, b3] by {
      PutTwo([], a5, b3);
      KL.PutAllConcat([], ShaOf, [a5, b3], [a1]);
      PutOne([a5, b3], a1);
    }
    NF.TopOne([], [a5, b3, a1], ShaOf, DateOf, b3);
  }

  lemma PutOne(s: seq<Commit>, x: Commit)
    ensures KL.PutAll(s, ShaOf, [x]) == KL.Put(s, ShaOf, x)
  {
  }

  lemma PutTwo(s: seq<Commit>, x: Commit, y: Commit)
    ensures KL.PutAll(s, ShaOf, [x, y]) == KL.Put(KL.Put(s, ShaOf, x), ShaOf, y)
  {
    assert [x, y][1..] == [y];
    PutOne(KL.Put(s, ShaOf, x), y);
  }

  // ---- Audit records ------------------------------------------------------------------------------------------------

  /** A merge of records whose titles are short enough keeps them so. */
  lemma MergedTitles(stored: seq<Record>, next: Record, cap: nat)
    requires SanitizeTitled(next) == next && forall r :: r in stored ==> SanitizeTitled(r) == r
    ensures var r := NF.MergeNewest(stored, [next], IdOf, StampOf, cap); MapSeq(SanitizeTitled, r) == r
  {
    var merged := NF.MergeNewest(stored, [next], IdOf, StampOf, cap);
    NF.MergeNewestKeeps(stored, [next], IdOf, StampOf, cap);
    KL.PutAllUnique([], IdOf, stored);
    KL.PutAllUnique(KL.PutAll([], IdOf, stored), IdOf, [next]);
    hide SanitizeTitled, NF.MergeNewest;
    forall i | 0 <= i < |merged| ensures SanitizeTitled(merged[i]) == merged[i] { assert merged[i] in merged; }
  }

  /** Sanitizing changes nothing of a sanitized graph that a record was merged into. */
  lemma RecordStays(l: Limits, g: Graph, k: RecordKind, r: Record, now: int)
    requires Sanitize(l, g) == g
    ensures Sanitize(l, WithRecord(l, g, k, r, now)) == WithRecord(l, g, k, r, now)
  {
    hide Dedupe;
    var stored := RecordsOf(g, k);
    var next := if k.PullRequest? || k.Issue? then SanitizeTitled(r) else r;
    NF.MergeNewestKeeps(stored, [next], IdOf, StampOf, l.maxMetadata);
    if k.PullRequest? || k.Issue? {
      TitlesStay(l, stored);
      MergedTitles(stored, next, l.maxMetadata);
    }
  }

  lemma TitlesStay(l: Limits, stored: seq<Record>)
    requires Take(MapSeq(SanitizeTitled, stored), l.maxMetadata) == stored
    ensures forall r :: r in stored ==> SanitizeTitled(r) == r
  {
    forall i | 0 <= i < |stored| ensures SanitizeTitled(stored[i]) == stored[i] {
      assert stored[i] == SanitizeTitled(stored[i]);
    }
  }

  /** What merging a record changes: the list of its kind becomes the bounded newest-first merge, and no other list. */
  ghost predicate RecordMerged(l: Limits, before: Graph, after: Graph, k: RecordKind, r: Record) {
    var next := if k.PullRequest? || k.Issue? then SanitizeTitled(r) else r;
    && RecordsOf(after, k) == NF.MergeNewest(RecordsOf(before, k), [next], IdOf, StampOf, l.maxMetadata)
    && (forall j :: j != k ==> RecordsOf(after, j) == RecordsOf(before, j))
    && after.fileTree == before.fileTree && after.dependencies == before.dependencies
    && after.recentCommits == before.recentCommits && after.owners == before.owners
  }

  /** After an upsert of a pull request, an issue or a review the merge is what is stored. */
  lemma UpsertRecordStored(l: Limits, m: Mem, org: string, ref: RepoRef, k: RecordKind, r: Record, now: int)
    requires MemOk(l, m) && Owned(m, now) && NulFree(org) && Holds(l)
    ensures var stored := GraphAt(Mutated(l, m, org, ref, RecordChange(l, k, r, now), now), CacheKey(org, ref.repoId));
      && stored.Some? && RecordMerged(l, Base(m, org, ref, now), stored.value, k, r)
      && Restamped(Base(m, org, ref, now), stored.value, now)
  {
    var before := Base(m, org, ref, now);
    hide Mutated, Base, Sanitize, WithRecord, RecordMerged, Restamped;
    RecordFound(l, m, org, ref, k, r, now);
    BaseSanitized(l, m, org, ref, now);
    RecordStays(l, before, k, r, now);
    RecordMergedHere(l, before, k, r, now);
  }

  lemma RecordFound(l: Limits, m: Mem, org: string, ref: RepoRef, k: RecordKind, r: Record, now: int)
    requires MemOk(l, m) && Owned(m, now) && NulFree(org) && Holds(l)
    ensures GraphAt(Mutated(l, m, org, ref, RecordChange(l, k, r, now), now), CacheKey(org, ref.repoId))
      == Some(Sanitize(l, WithRecord(l, Base(m, org, ref, now), k, r, now)))
  {
    hide Mutated, Base;
    MutatedFound(l, m, org, ref, RecordChange(l, k, r, now), now);
  }

  lemma RecordMergedHere(l: Limits, g: Graph, k: RecordKind, r: Record, now: int)
    ensures RecordMerged(l, g, WithRecord(l, g, k, r, now), k, r) && Restamped(g, WithRecord(l, g, k, r, now), now)
  {
  }

  lemma TouchedOwned(l: Limits, m: Mem, key: string, now: int)
    requires MemOk(l, m) && Owned(m, now)
    ensures MemOk(l, Touched(m, key, now)) && Owned(Touched(m, key, now), now)
  {
    TouchedKeeps(l, m, key, now);
    var s := KL.Find(m, KeyOf, key);
    if s.Some? {
      KL.RemoveMembers(m, KeyOf, key);
      KL.PutUnique(m, KeyOf, s.value.(entry := s.value.entry.(lastAccessedAt := now)));
    }
  }

  /** After a Slack decision for a live repository it is too. */
  lemma SlackDecisionStored(l: Limits, m: Mem, org: string, repo: string, r: Record, now: int)
    requires MemOk(l, m) && Owned(m, now) && NulFree(org) && Holds(l)
    requires Fetched(m, CacheKey(org, repo), now).Some?
    ensures var g := Fetched(m, CacheKey(org, repo), now).value.graph;
      var after := Stored(l, Touched(m, CacheKey(org, repo), now), org, WithRecord(l, g, SlackDecision, r, now), now);
      var stored := GraphAt(after, CacheKey(org, repo));
      stored.Some? && RecordMerged(l, g, stored.value, SlackDecision, r) && Restamped(g, stored.value, now)
  {
    var key := CacheKey(org, repo);
    var g := Fetched(m, key, now).value.graph;
    TouchedKeeps(l, m, key, now);
    TouchedOwned(l, m, key, now);
    OwnRepo(m, org, repo);
    StoredFound(l, Touched(m, key, now), org, WithRecord(l, g, SlackDecision, r, now), now);
    RecordStays(l, g, SlackDecision, r, now);
  }

  /** After setDependencies on a live repository the given edges are stored, each once, and nothing else changes. */
  lemma DependenciesStored(l: Limits, m: Mem, org: string, repo: string, deps: seq<Edge>, now: int)
    requires MemOk(l, m) && Owned(m, now) && NulFree(org) && Holds(l)
    requires Fetched(m, CacheKey(org, repo), now).Some?
    ensures var g := Fetched(m, CacheKey(org, repo), now).value.graph;
      var stored := GraphAt(Stored(l, Touched(m, CacheKey(org, repo), now), org, WithDependencies(g, deps, now), now), CacheKey(org, repo));
      && stored.Some?
      && stored.value.dependencies == Dedupe(deps)
      && stored.value == g.(dependencies := Dedupe(deps), lastUpdated := now, metadata := stored.value.metadata)
      && Restamped(g, stored.value, now)
  {
    var key := CacheKey(org, repo);
    var g := Fetched(m, key, now).value.graph;
    var h := WithDependencies(g, deps, now);
    TouchedKeeps(l, m, key, now);
    TouchedOwned(l, m, key, now);
    OwnRepo(m, org, repo);
    StoredFound(l, Touched(m, key, now), org, h, now);
    DedupeUnique(deps);
    assert Sanitize(l, g) == g;
    assert Sanitize(l, h) == h;
  }

  // ---- What every mutator leaves alone ------------------------------------------------------------------------------

  /** One version on, indexed and updated now, and otherwise the same repository. */
  ghost predicate Restamped(before: Graph, after: Graph, now: int) {
    && after.lastUpdated == now && after.metadata.lastIndexedAt == now
    && after.metadata.indexVersion == before.metadata.indexVersion + 1
    && after.metadata == before.metadata.(lastIndexedAt := now, indexVersion := after.metadata.indexVersion)
    && after.repoId == before.repoId && after.owner == before.owner && after.repo == before.repo
    && after.branches == before.branches && after.defaultBranch == before.defaultBranch
  }

  ghost predicate SameRecords(before: Graph, after: Graph) { forall k :: RecordsOf(after, k) == RecordsOf(before, k) }

  /**
   An upsert of an existing graph keeps all its files, edges, owners, commits and records and restamps it; one of a new
   repository gives an empty graph on the default branch.
   */
  ghost predicate UpsertOf(before: Option<Graph>, ref: RepoRef, now: int, g: Graph) {
    match before
    case Some(h) =>
      && Restamped(h, g, now) && SameRecords(h, g)
      && g.fileTree == h.fileTree && g.dependencies == h.dependencies && g.owners == h.owners && g.recentCommits == h.recentCommits
    case None =>
      && g.repoId == ref.repoId && g.owner == ref.owner && g.repo == ref.repo && g.lastUpdated == now
      && g.fileTree == [] && g.dependencies == [] && g.owners == [] && g.recentCommits == []
      && (forall k :: RecordsOf(g, k) == [])
      && g.defaultBranch == ref.defaultBranch && g.branches == (if ref.defaultBranch.Some? then [ref.defaultBranch.value] else [])
      && g.metadata == Metadata("unknown", None, now, 1, None, None)
  }

  lemma UpsertedIsUpsert(before: Option<Graph>, ref: RepoRef, now: int)
    ensures UpsertOf(before, ref, now, Upserted(before, ref, now))
  {
  }

  /** After upsertRepository the upserted graph is what is stored. */
  lemma UpsertStored(l: Limits, m: Mem, org: string, ref: RepoRef, now: int)
    requires MemOk(l, m) && Owned(m, now) && NulFree(org) && Holds(l)
    ensures var before := GraphAt(m, CacheKey(org, ref.repoId));
      var stored := GraphAt(Stored(l, m, org, Base(m, org, ref, now), now), CacheKey(org, ref.repoId));
      stored.Some? && UpsertOf(before, ref, now, stored.value)
  {
    hide Sanitize, Stored, UpsertOf;
    var g := Base(m, org, ref, now);
    OwnRepo(m, org, ref.repoId);
    StoredFound(l, m, org, g, now);
    BaseSanitized(l, m, org, ref, now);
    UpsertedIsUpsert(GraphAt(m, CacheKey(org, ref.repoId)), ref, now);
  }

  lemma FilesKeepRest(leq: (string, string) -> bool, g: Graph, changes: seq<FF.ChangedFile>, now: int)
    ensures var h := WithFiles(leq, g, changes, now);
      Restamped(g, h, now) && SameRecords(g, h) && h.recentCommits == g.recentCommits
  {
  }

  /** updateFiles restamps the graph and leaves its commits and records alone. */
  lemma UpdateFilesKeepsRest(l: Limits, leq: (string, string) -> bool, m: Mem, org: string, ref: RepoRef, changes: seq<FF.ChangedFile>, now: int)
    requires MemOk(l, m) && Owned(m, now) && NulFree(org) && Holds(l)
    ensures var before := Base(m, org, ref, now);
      var stored := GraphAt(Mutated(l, m, org, ref, FilesChange(leq, changes, now), now), CacheKey(org, ref.repoId));
      && stored.Some? && Restamped(before, stored.value, now) && SameRecords(before, stored.value)
      && stored.value.recentCommits == before.recentCommits
  {
    var before := Base(m, org, ref, now);
    BaseSanitized(l, m, org, ref, now);
    FilesStay(l, leq, before, changes, now);
    FilesKeepRest(leq, before, changes, now);
    MutatedFound(l, m, org, ref, FilesChange(leq, changes, now), now);
    hide Mutated, Base, Sanitize, Restamped, SameRecords;
  }

  lemma CommitsKeepRest(l: Limits, g: Graph, commits: seq<Commit>, now: int)
    ensures var h := WithCommits(l, g, commits, now); Restamped(g, h, now) && SameRecords(g, h)
  {
    hide MergedCommits, FO.Owners;
  }

  lemma CommitsStaySanitized(l: Limits, g: Graph, commits: seq<Commit>, now: int)
    requires Sanitize(l, g) == g && KL.UniqueKeys(g.dependencies, EdgeKey)
    ensures Sanitize(l, WithCommits(l, g, commits, now)) == WithCommits(l, g, commits, now)
  {
    CommitsStay(l, g);
    MergedSanitized(l, g.recentCommits, commits);
    KL.KeepFirstOfUnique(g.dependencies, EdgeKey);
    hide MergedCommits, FO.Owners;
    var h := WithCommits(l, g, commits, now);
    var r := Sanitize(l, h);
    assert r.recentCommits == h.recentCommits && r.dependencies == h.dependencies;
    SameTitles(l, g, h);
  }

  /** Sanitizing cuts the records of two graphs with the same records alike. */
  lemma SameTitles(l: Limits, g: Graph, h: Graph)
    requires Sanitize(l, g) == g
    requires h.pullRequests == g.pullRequests && h.issues == g.issues && h.reviews == g.reviews && h.slackDecisions == g.slackDecisions
    ensures var r := Sanitize(l, h);
      r.pullRequests == h.pullRequests && r.issues == h.issues && r.reviews == h.reviews && r.slackDecisions == h.slackDecisions
  {
    hide Dedupe;
  }

  /** addCommits restamps the graph and leaves the records alone. */
  lemma AddCommitsKeepsRest(l: Limits, m: Mem, org: string, ref: RepoRef, commits: seq<Commit>, now: int)
    requires MemOk(l, m) && Owned(m, now) && NulFree(org) && Holds(l)
    ensures var before := Base(m, org, ref, now);
      var stored := GraphAt(Mutated(l, m, org, ref, CommitsChange(l, commits, now), now), CacheKey(org, ref.repoId));
      stored.Some? && Restamped(before, stored.value, now) && SameRecords(before, stored.value)
  {
    var before := Base(m, org, ref, now);
    BaseSanitized(l, m, org, ref, now);
    CommitsKeepRest(l, before, commits, now);
    CommitsStaySanitized(l, before, commits, now);
    MutatedFound(l, m, org, ref, CommitsChange(l, commits, now), now);
    hide Mutated, Base, Sanitize, Restamped, SameRecords;
  }

  /**
   Every file of the stored tree is there because the last change at its path left it, or it was there and none took it
   away; and each of its fields is the one the last change that gives it gives, else the old one, else the default.
   */
  lemma UpdateFilesFields(l: Limits, leq: (string, string) -> bool, m: Mem, org: string, ref: RepoRef, changes: seq<FF.ChangedFile>, now: int, p: string)
    requires MemOk(l, m) && Owned(m, now) && NulFree(org) && Holds(l) && FF.TotalOrder(leq)
    ensures var before := FF.TreeOf(Base(m, org, ref, now).fileTree);
      var stored := GraphAt(Mutated(l, m, org, ref, FilesChange(leq, changes, now), now), CacheKey(org, ref.repoId));
      stored.Some? && FF.FileFollows(before, changes, now, FF.TreeOf(stored.value.fileTree), p)
  {
    var files := Base(m, org, ref, now).fileTree;
    hide Mutated, Base, FF.FileFollows, FF.FoldTree, FF.TreeOf;
    UpdateFilesStored(l, leq, m, org, ref, changes, now);
    if p in FF.TreeOf(files) { FF.TreeOfPaths(files, p); }
    FF.FoldFollows(FF.TreeOf(files), changes, now, p);
  }
}
