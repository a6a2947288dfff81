/**
 The in-memory graph cache (class GraphCache of src/cache/graphCache.ts). Every method takes its one reading of the
 clock as a parameter. Methods that reject an empty org id leave the cache as it was.
 */
module GraphCacheModel {
  import opened Wrappers
  import opened GraphModel
  import opened GraphIndexes
  import opened StableSort
  import opened CacheMemory
  import opened CacheMutators
  import FF = FileFold
  import FO = FileOwnership
  import FS = FileSearch
  import KL = KeyedList
  import NF = NewestFirst

  datatype CacheError = MissingOrg

  function OwnedFile(o: Ownership): string { o.file }

  lemma {:induction false} RemoveAt(m: Mem, i: nat)
    requires KL.UniqueKeys(m, KeyOf) && i < |m|
    ensures KL.Remove(m, KeyOf, m[i].key) == m[..i] + m[i + 1..]
  {
    var t := m[1..];
    assert m == [m[0]] + t;
    assert KL.UniqueKeys(t, KeyOf) by {
      forall a, b | 0 <= a < b < |t| ensures KeyOf(t[a]) != KeyOf(t[b]) { assert t[a] == m[a + 1] && t[b] == m[b + 1]; }
    }
    if i == 0 {
      forall j | 0 <= j < |t| ensures KeyOf(t[j]) != m[0].key { assert KeyOf(m[0]) != KeyOf(m[j + 1]); }
      RemoveAbsent(t, m[0].key);
    } else {
      assert KeyOf(m[0]) != KeyOf(m[i]);
      RemoveAt(t, i - 1);
      assert m[..i] == [m[0]] + t[..i - 1] && m[i + 1..] == t[i..];
    }
  }

  lemma Splice<T>(d: seq<T>, x: T, rest: seq<T>)
    ensures var m := d + ([x] + rest); m[|d|] == x && m[..|d|] == d && m[|d| + 1..] == rest
  {
  }

  /** The walk over the Map after j of its entries: those are filtered, the rest still stand. */
  ghost function Walked(start: Mem, j: nat, now: int): Mem
    requires j <= |start|
  {
    DropExpired(start[..j], now) + start[j..]
  }

  lemma DropStep(start: Mem, j: nat, now: int)
    requires j < |start| && KL.UniqueKeys(Walked(start, j, now), KeyOf)
    ensures var m, i := Walked(start, j, now), |DropExpired(start[..j], now)|;
      && m[i] == start[j]
      && |DropExpired(start[..j + 1], now)| == (if Expired(start[j], now) then i else i + 1)
      && KL.UniqueKeys(Walked(start, j + 1, now), KeyOf)
      && Walked(start, j + 1, now) == (if Expired(start[j], now) then KL.Remove(m, KeyOf, m[i].key) else m)
  {
    var d, x, rest := DropExpired(start[..j], now), start[j], start[j + 1..];
    var m := d + ([x] + rest);
    WalkedNext(start, j, now);
    hide KL.UniqueKeys, KeyOf, Walked, DropExpired, Expired;
    Splice(d, x, rest);
    RemoveAt(m, |d|);
    KL.RemoveMembers(m, KeyOf, m[|d|].key);
  }

  lemma WalkedNext(start: Mem, j: nat, now: int)
    requires j < |start|
    ensures var d, x, rest := DropExpired(start[..j], now), start[j], start[j + 1..];
      && Walked(start, j, now) == d + ([x] + rest)
      && Walked(start, j + 1, now) == (if Expired(x, now) then d + rest else d + ([x] + rest))
      && |DropExpired(start[..j + 1], now)| == (if Expired(x, now) then |d| else |d| + 1)
  {
    assert start[..j + 1][..j] == start[..j] && start[j..] == [start[j]] + start[j + 1..];
  }

  class GraphCache {
    const limits: Limits
    const leq: (string, string) -> bool  // the path order of localeCompare
    const lower: string -> string        // toLowerCase
    const trim: string -> string
    var entries: Mem

    ghost predicate Valid()
      reads this
    {
      MemOk(limits, entries)
    }

    constructor (limits: Limits, leq: (string, string) -> bool, lower: string -> string, trim: string -> string)
      ensures Valid() && entries == []
      ensures this.limits == limits && this.leq == leq && this.lower == lower && this.trim == trim
    {
      this.limits, this.leq, this.lower, this.trim := limits, leq, lower, trim;
      entries := [];
    }

    // ---- Eviction ---------------------------------------------------------------------------------------------

    /** Deletes expired entries while walking over the Map. */
    method EvictExpired(now: int)
      requires KL.UniqueKeys(entries, KeyOf)
      modifies this`entries
      ensures entries == DropExpired(old(entries), now)
    {
      var i := 0;
      ghost var start, j: nat := entries, 0;
      assert start[0..] == start && start[..|start|] == start;
      while i < |entries|
        invariant 0 <= j <= |start| && KL.UniqueKeys(entries, KeyOf)
        invariant entries == Walked(start, j, now) && i == |DropExpired(start[..j], now)|
        decreases |start| - j
      {
        assert |Walked(start, j, now)| == i + (|start| - j);
        DropStep(start, j, now);
        hide Walked, DropExpired;
        if now > entries[i].entry.expiresAt {
          entries := KL.Remove(entries, KeyOf, entries[i].key);
        } else {
          i := i + 1;
        }
        j := j + 1;
      }
    }

    /** Deletes the first entry of the list sorted by access time until the Map fits. */
    method EvictLeastRecent()
      modifies this`entries
      ensures entries == EvictLru(old(entries), limits.maxRepos)
    {
      while |entries| > limits.maxRepos
        invariant EvictLru(entries, limits.maxRepos) == EvictLru(old(entries), limits.maxRepos)
        decreases |entries|
      {
        OldestShrinks(entries);
        SortPermutes(entries, LessRecent);
        var oldest := Sort(entries, LessRecent)[0];
        entries := KL.Remove(entries, KeyOf, oldest.key);
      }
    }

    // ---- Writing ----------------------------------------------------------------------------------------------

    /** sanitizeGraph and buildEntry. */
    method BuildSlot(org: string, graph: Graph, now: int) returns (slot: Slot)
      ensures slot == Written(limits, org, graph, now)
    {
      var deps := DedupeDependencies(graph.dependencies);
      hide Dedupe, MapSeq, CacheKey, BuildIndexes;
      var clean := graph.(
        dependencies := deps,
        recentCommits := Take(MapSeq(SanitizeCommit, graph.recentCommits), limits.maxCommits),
        pullRequests := Take(MapSeq(SanitizeTitled, graph.pullRequests), limits.maxMetadata),
        issues := Take(MapSeq(SanitizeTitled, graph.issues), limits.maxMetadata),
        reviews := Take(graph.reviews, limits.maxMetadata),
        slackDecisions := Take(graph.slackDecisions, limits.maxMetadata));
      var indexes := BuildEntryIndexes(clean);
      slot := Slot(CacheKey(org, graph.repoId), CacheEntry(clean, now + limits.ttlMs, now, indexes));
    }

    method SetGraph(org: string, graph: Graph, now: int) returns (r: Result<(), CacheError>)
      requires Valid()
      modifies this`entries
      ensures Valid()
      ensures r == (if org == "" then Err(MissingOrg) else Ok(()))
      ensures entries == if org == "" then old(entries) else Stored(limits, old(entries), org, graph, now)
    {
      if org == "" { return Err(MissingOrg); }
      StoredKeeps(limits, entries, org, graph, now);
      var slot := BuildSlot(org, graph, now);
      hide Written, Expired, Coherent;
      KL.PutUnique(entries, KeyOf, slot);
      entries := KL.Put(entries, KeyOf, slot);
      EvictExpired(now);
      EvictLeastRecent();
      return Ok(());
    }

    method UpsertRepository(org: string, ref: RepoRef, now: int) returns (r: Result<Graph, CacheError>)
      requires Valid()
      modifies this`entries
      ensures Valid()
      ensures r == (if org == "" then Err(MissingOrg) else Ok(Base(old(entries), org, ref, now)))
      ensures entries == if org == "" then old(entries) else Stored(limits, old(entries), org, Base(old(entries), org, ref, now), now)
    {
      if org == "" { return Err(MissingOrg); }
      var existing := GraphAt(entries, CacheKey(org, ref.repoId));
      var graph := Upserted(existing, ref, now);
      var s := SetGraph(org, graph, now);
      return Ok(graph);
    }

    method UpdateFiles(org: string, ref: RepoRef, changes: seq<FF.ChangedFile>, now: int) returns (r: Result<Graph, CacheError>)
      requires Valid()
      modifies this`entries
      ensures Valid()
      ensures org == "" ==> r == Err(MissingOrg) && entries == old(entries)
      ensures org != "" ==>
        && entries == Mutated(limits, old(entries), org, ref, FilesChange(leq, changes, now), now)
        && r == Ok(CloneGraph(WithFiles(leq, Base(old(entries), org, ref, now), changes, now)))
    {
      var u := UpsertRepository(org, ref, now);
      if u.Err? { return u; }
      var graph := u.value;
      ghost var base := graph;
      var files := FF.FoldChanges(graph.fileTree, changes, now);
      SortedPaths(files, FF.ByPath(leq));
      var dependencies := FF.Within(graph.dependencies, Paths(files));
      var fileTree := Sort(files, FF.ByPath(leq));
      var owners := FO.RecomputeOwnership(fileTree, graph.recentCommits);
      graph := graph.(fileTree := fileTree, dependencies := dependencies, owners := owners, lastUpdated := now,
                      metadata := graph.metadata.(lastIndexedAt := now, indexVersion := graph.metadata.indexVersion + 1));
      assert graph == WithFiles(leq, base, changes, now);
      var s := SetGraph(org, graph, now);
      return Ok(CloneGraph(graph));
    }

    method MergeCommits(stored: seq<Commit>, commits: seq<Commit>) returns (recent: seq<Commit>)
      ensures recent == MergedCommits(limits, stored, commits)
    {
      var bySha := KL.PutAll([], ShaOf, stored);
      ghost var start := bySha;
      for i := 0 to |commits|
        invariant bySha == KL.PutAll(start, ShaOf, MapSeq(SanitizeCommit, commits[..i]))
      {
        var c := SanitizeCommit(commits[i]);
        ghost var done := MapSeq(SanitizeCommit, commits[..i]);
        assert MapSeq(SanitizeCommit, commits[..i + 1]) == done + [c];
        KL.PutAllConcat(start, ShaOf, done, [c]);
        PutOne(bySha, c);
        bySha := KL.Put(bySha, ShaOf, c);
      }
      assert commits[..|commits|] == commits;
      recent := Take(Sort(bySha, NF.ByStamp(DateOf)), limits.maxCommits);
    }

    method AddCommits(org: string, ref: RepoRef, commits: seq<Commit>, now: int) returns (r: Result<Graph, CacheError>)
      requires Valid()
      modifies this`entries
      ensures Valid()
      ensures org == "" ==> r == Err(MissingOrg) && entries == old(entries)
      ensures org != "" ==>
        && entries == Mutated(limits, old(entries), org, ref, CommitsChange(limits, commits, now), now)
        && r == Ok(CloneGraph(WithCommits(limits, Base(old(entries), org, ref, now), commits, now)))
    {
      var u := UpsertRepository(org, ref, now);
      if u.Err? { return u; }
      var graph := u.value;
      ghost var base := graph;
      var recent := MergeCommits(graph.recentCommits, commits);
      var owners := FO.RecomputeOwnership(graph.fileTree, recent);
      graph := graph.(recentCommits := recent, owners := owners, lastUpdated := now,
                      metadata := graph.metadata.(lastIndexedAt := now, indexVersion := graph.metadata.indexVersion + 1));
      assert graph == WithCommits(limits, base, commits, now);
      var s := SetGraph(org, graph, now);
      return Ok(CloneGraph(graph));
    }

    /** upsertPullRequest, upsertIssue and upsertReview. */
    method UpsertRecord(org: string, ref: RepoRef, kind: RecordKind, record: Record, now: int) returns (r: Result<Graph, CacheError>)
      requires Valid() && !kind.SlackDecision?
      modifies this`entries
      ensures Valid()
      ensures org == "" ==> r == Err(MissingOrg) && entries == old(entries)
      ensures org != "" ==>
        && entries == Mutated(limits, old(entries), org, ref, RecordChange(limits, kind, record, now), now)
        && r == Ok(CloneGraph(WithRecord(limits, Base(old(entries), org, ref, now), kind, record, now)))
    {
      var u := UpsertRepository(org, ref, now);
      if u.Err? { return u; }
      var graph := WithRecord(limits, u.value, kind, record, now);
      var s := SetGraph(org, graph, now);
      return Ok(CloneGraph(graph));
    }

    /** addSlackDecision: only for a resident, unexpired repository. */
    method AddSlackDecision(org: string, repo: string, decision: Record, now: int) returns (r: Result<Option<Graph>, CacheError>)
      requires Valid()
      modifies this`entries
      ensures Valid()
      ensures org == "" ==> r == Err(MissingOrg) && entries == old(entries)
      ensures org != "" ==>
        var seen := Touched(old(entries), CacheKey(org, repo), now);
        match Fetched(old(entries), CacheKey(org, repo), now)
        case None => r == Ok(None) && entries == seen
        case Some(e) =>
          var g := WithRecord(limits, e.graph, SlackDecision, decision, now);
          r == Ok(Some(CloneGraph(g))) && entries == Stored(limits, seen, org, g, now)
    {
      var q := GetGraph(org, repo, now);
      if q.Err? { return Err(q.error); }
      if q.value.None? { return Ok(None); }
      var graph := WithRecord(limits, q.value.value, SlackDecision, decision, now);
      var s := SetGraph(org, graph, now);
      return Ok(Some(CloneGraph(graph)));
    }

    /** setDependencies: replaces the edges of a resident, unexpired repository. */
    method SetDependencies(org: string, repo: string, deps: seq<Edge>, now: int) returns (r: Result<Option<Graph>, CacheError>)
      requires Valid()
      modifies this`entries
      ensures Valid()
      ensures org == "" ==> r == Err(MissingOrg) && entries == old(entries)
      ensures org != "" ==>
        var seen := Touched(old(entries), CacheKey(org, repo), now);
        match Fetched(old(entries), CacheKey(org, repo), now)
        case None => r == Ok(None) && entries == seen
        case Some(e) =>
          var g := WithDependencies(e.graph, deps, now);
          r == Ok(Some(CloneGraph(g))) && entries == Stored(limits, seen, org, g, now)
    {
      var q := GetGraph(org, repo, now);
      if q.Err? { return Err(q.error); }
      if q.value.None? { return Ok(None); }
      var unique := DedupeDependencies(deps);
      var graph := Stamped(q.value.value.(dependencies := unique), now);
      var s := SetGraph(org, graph, now);
      return Ok(Some(CloneGraph(graph)));
    }

    method DeleteGraph(org: string, repo: string) returns (r: Result<bool, CacheError>)
      requires Valid()
      modifies this`entries
      ensures Valid()
      ensures org == "" ==> r == Err(MissingOrg) && entries == old(entries)
      ensures org != "" ==>
        && entries == KL.Remove(old(entries), KeyOf, CacheKey(org, repo))
        && r == Ok(GraphAt(old(entries), CacheKey(org, repo)).Some?)
    {
      if org == "" { return Err(MissingOrg); }
      var present := GraphAt(entries, CacheKey(org, repo)).Some?;
      RemovedKeeps(limits, entries, CacheKey(org, repo));
      entries := KL.Remove(entries, KeyOf, CacheKey(org, repo));
      return Ok(present);
    }

    method Size(now: int) returns (n: nat)
      requires Valid()
      modifies this`entries
      ensures Valid()
      ensures entries == DropExpired(old(entries), now) && n == |entries| <= limits.maxRepos
      ensures forall s :: s in entries ==> !Expired(s, now)
    {
      DroppedKeeps(limits, entries, now);
      DropExpiredMembers(entries, now);
      EvictExpired(now);
      return |entries|;
    }

    // ---- Reading ----------------------------------------------------------------------------------------------

    method GetEntry(org: string, repo: string, now: int) returns (r: Result<Option<CacheEntry>, CacheError>)
      requires Valid()
      modifies this`entries
      ensures Valid()
      ensures org == "" ==> r == Err(MissingOrg) && entries == old(entries)
      ensures org != "" ==> entries == Touched(old(entries), CacheKey(org, repo), now) && r == Ok(Fetched(old(entries), CacheKey(org, repo), now))
      ensures r.Ok? && r.value.Some? ==> Coherent(limits, r.value.value)
    {
      if org == "" { return Err(MissingOrg); }
      var key := CacheKey(org, repo);
      TouchedKeeps(limits, entries, key, now);
      var found := KL.Find(entries, KeyOf, key);
      if found.None? { return Ok(None); }
      if now > found.value.entry.expiresAt {
        entries := KL.Remove(entries, KeyOf, key);
        return Ok(None);
      }
      var entry := found.value.entry.(lastAccessedAt := now);
      entries := KL.Put(entries, KeyOf, found.value.(entry := entry));
      return Ok(Some(entry));
    }

    /** The graph handed out is the graph stored. */
    method GetGraph(org: string, repo: string, now: int) returns (r: Result<Option<Graph>, CacheError>)
      requires Valid()
      modifies this`entries
      ensures Valid()
      ensures org == "" ==> r == Err(MissingOrg) && entries == old(entries)
      ensures org != "" ==>
        && entries == Touched(old(entries), CacheKey(org, repo), now)
        && r == Ok(match Fetched(old(entries), CacheKey(org, repo), now) case None => None case Some(e) => Some(e.graph))
    {
      var q := GetEntry(org, repo, now);
      if q.Err? { return Err(q.error); }
      if q.value.None? { return Ok(None); }
      SanitizeTwice(limits, q.value.value.graph);
      return Ok(Some(CloneGraph(q.value.value.graph)));
    }

    method GetDependents(org: string, repo: string, file: string, now: int) returns (r: Result<Option<seq<Edge>>, CacheError>)
      requires Valid()
      modifies this`entries
      ensures Valid()
      ensures org == "" ==> r == Err(MissingOrg) && entries == old(entries)
      ensures org != "" ==>
        && entries == Touched(old(entries), CacheKey(org, repo), now)
        && r == Ok(match Fetched(old(entries), CacheKey(org, repo), now) case None => None case Some(e) => Some(Scan(e.graph.dependencies, ToOf, file)))
    {
      var q := GetEntry(org, repo, now);
      if q.Err? { return Err(q.error); }
      if q.value.None? { return Ok(None); }
      CoherentAnswersScan(limits, q.value.value, file);
      return Ok(Some(At(q.value.value.indexes.dependents, file)));
    }

    method GetImports(org: string, repo: string, file: string, now: int) returns (r: Result<Option<seq<Edge>>, CacheError>)
      requires Valid()
      modifies this`entries
      ensures Valid()
      ensures org == "" ==> r == Err(MissingOrg) && entries == old(entries)
      ensures org != "" ==>
        && entries == Touched(old(entries), CacheKey(org, repo), now)
        && r == Ok(match Fetched(old(entries), CacheKey(org, repo), now) case None => None case Some(e) => Some(Scan(e.graph.dependencies, FromOf, file)))
    {
      var q := GetEntry(org, repo, now);
      if q.Err? { return Err(q.error); }
      if q.value.None? { return Ok(None); }
      CoherentAnswersScan(limits, q.value.value, file);
      return Ok(Some(At(q.value.value.indexes.imports, file)));
    }

    method GetTransitiveDependents(org: string, repo: string, file: string, now: int) returns (r: Result<Option<seq<string>>, CacheError>)
      requires Valid()
      modifies this`entries
      ensures Valid()
      ensures org == "" ==> r == Err(MissingOrg) && entries == old(entries)
      ensures org != "" ==>
        && entries == Touched(old(entries), CacheKey(org, repo), now)
        && r == Ok(match Fetched(old(entries), CacheKey(org, repo), now)
                   case None => None
                   case Some(e) => Some(TransitiveDependents(Index(e.graph.dependencies, ToOf), file)))
    {
      var q := GetEntry(org, repo, now);
      if q.Err? { return Err(q.error); }
      if q.value.None? { return Ok(None); }
      CoherentAnswersSearch(limits, q.value.value, file);
      return Ok(Some(TransitiveAt(q.value.value, file)));
    }

    /** The first owner entry of a file that is in the tree. */
    method GetOwnership(org: string, repo: string, file: string, now: int) returns (r: Result<Option<Option<Ownership>>, CacheError>)
      requires Valid()
      modifies this`entries
      ensures Valid()
      ensures org == "" ==> r == Err(MissingOrg) && entries == old(entries)
      ensures org != "" ==>
        && entries == Touched(old(entries), CacheKey(org, repo), now)
        && r == Ok(match Fetched(old(entries), CacheKey(org, repo), now)
                   case None => None
                   case Some(e) => Some(if file in Paths(e.graph.fileTree) then KL.Find(e.graph.owners, OwnedFile, file) else None))
    {
      var q := GetEntry(org, repo, now);
      if q.Err? { return Err(q.error); }
      if q.value.None? { return Ok(None); }
      var e := q.value.value;
      FileIndexHolds(e.graph.fileTree, file);
      PathsHaveKeys(e.graph.fileTree, file);
      return Ok(Some(if file in e.indexes.files then KL.Find(e.graph.owners, OwnedFile, file) else None));
    }

    method SearchFiles(org: string, repo: string, pattern: string, limit: nat, now: int) returns (r: Result<Option<seq<FileNode>>, CacheError>)
      requires Valid()
      modifies this`entries
      ensures Valid()
      ensures org == "" ==> r == Err(MissingOrg) && entries == old(entries)
      ensures org != "" ==>
        && entries == Touched(old(entries), CacheKey(org, repo), now)
        && r == Ok(match Fetched(old(entries), CacheKey(org, repo), now)
                   case None => None
                   case Some(e) => Some(FS.Search(e.graph.fileTree, lower(trim(pattern)), lower, leq, limit)))
    {
      var q := GetEntry(org, repo, now);
      if q.Err? { return Err(q.error); }
      if q.value.None? { return Ok(None); }
      var matches := FS.SearchFiles(q.value.value.graph.fileTree, lower(trim(pattern)), lower, leq, limit);
      return Ok(Some(matches));
    }
  }

  lemma SortedPaths(files: seq<FileNode>, leq: (FileNode, FileNode) -> bool)
    ensures Paths(Sort(files, leq)) == Paths(files)
  {
    var s := Sort(files, leq);
    SortMembers(files, leq);
    forall p | p in Paths(files) ensures p in Paths(s) {
      var i :| 0 <= i < |files| && files[i].path == p;
      assert files[i] in s;
      var j :| 0 <= j < |s| && s[j] == files[i];
      assert s[j].path == p;
    }
    forall p | p in Paths(s) ensures p in Paths(files) {
      var i :| 0 <= i < |s| && s[i].path == p;
      assert s[i] in files;
      var j :| 0 <= j < |files| && files[j] == s[i];
      assert files[j].path == p;
    }
  }

  lemma PathsHaveKeys(files: seq<FileNode>, p: string)
    ensures p in Paths(files) <==> KL.HasKey(files, PathOf, p)
  {
    if p in Paths(files) { var i :| 0 <= i < |files| && files[i].path == p; assert PathOf(files[i]) == p; }
    if KL.HasKey(files, PathOf, p) { var i :| 0 <= i < |files| && PathOf(files[i]) == p; assert files[i].path == p; }
  }
}
