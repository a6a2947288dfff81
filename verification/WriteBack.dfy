/**
 The write-back protocol of PersistingGraphCache (src/cache/graphCachePostgres.ts) as a transition system.
 Assumed of the environment: statements take effect in the order they are issued and none fails, a load reads and
 stores in one step, and the rows in the table were written by a cache with the same limits.
 */
module WriteBack {
  import opened Wrappers
  import opened GraphModel
  import opened CacheMemory
  import opened CacheMutators
  import KL = KeyedList

  // The primary key (org_id, repo_id) of a row.
  datatype RowKey = RowKey(org: string, repo: string)

  type Table = map<RowKey, Graph>

  datatype Statement = UpsertRow(key: RowKey, graph: Graph) | DeleteRow(key: RowKey)

  // flushes holds, for each running flush, the items it has yet to persist; issued holds the statements sent to the
  // database that have not taken effect.
  datatype State = State(
    mem: Mem, pending: seq<RowKey>, timer: bool, flushes: seq<seq<RowKey>>, issued: seq<Statement>, table: Table)

  function MemKey(k: RowKey): string { CacheKey(k.org, k.repo) }

  function Row(t: Table, k: RowKey): Option<Graph> { if k in t then Some(t[k]) else None }

  function Execute(t: Table, s: Statement): Table {
    match s case UpsertRow(k, g) => t[k := g] case DeleteRow(k) => t - {k}
  }

  function ExecuteAll(t: Table, ss: seq<Statement>): Table {
    if ss == [] then t else Execute(ExecuteAll(t, ss[..|ss| - 1]), ss[|ss| - 1])
  }

  /** The table once every issued statement has taken effect. */
  function Eventual(s: State): Table { ExecuteAll(s.table, s.issued) }

  // ---- Steps ------------------------------------------------------------------------------------------------------

  datatype Event =
    | Write(org: string, graph: Graph, now: int)
    | Erase(org: string, repo: string)
    | Read(org: string, repo: string, now: int)
    | Sweep(now: int)
    | BeginFlush
    | PersistNext(flush: nat, now: int)
    | StatementDone
    | Load(org: string, repo: string, now: int)
    | Hydrate(org: string, repos: seq<string>, now: int)

  ghost predicate Defined(s: State, e: Event) {
    match e
    case PersistNext(i, _) => i < |s.flushes| && s.flushes[i] != []
    case StatementDone => s.issued != []
    case _ => true
  }

  // Postgres text holds no NUL, so a query with such an org id would fail; reads and deletes reject an empty org.
  ghost predicate Enabled(s: State, e: Event) {
    && Defined(s, e)
    && match e
       case Write(org, _, _) => NulFree(org)
       case Erase(org, _) => NulFree(org) && org != ""
       case Read(org, _, _) => NulFree(org) && org != ""
       case Load(org, _, _) => NulFree(org)
       case Hydrate(org, repos, _) => NulFree(org) && forall r :: r in repos ==> RowKey(org, r) in Eventual(s)
       case _ => true
  }

  function StoreRow(l: Limits, m: Mem, t: Table, k: RowKey, now: int): Mem {
    if k in t then Stored(l, m, k.org, t[k], now) else m
  }

  function StoreRows(l: Limits, m: Mem, t: Table, org: string, repos: seq<string>, now: int): Mem
    decreases |repos|
  {
    if repos == [] then m else StoreRows(l, StoreRow(l, m, t, RowKey(org, repos[0]), now), t, org, repos[1..], now)
  }

  function Scheduled(s: State, k: RowKey): State { s.(pending := KL.Put(s.pending, MemKey, k), timer := true) }

  function Next(l: Limits, s: State, e: Event): State
    requires Defined(s, e)
  {
    match e
    // setGraph, which every mutator ends in: an empty org is skipped.
    case Write(org, g, now) =>
      if org == "" then s else Scheduled(s.(mem := Stored(l, s.mem, org, g, now)), RowKey(org, g.repoId))
    case Erase(org, repo) =>
      s.(mem := KL.Remove(s.mem, KeyOf, CacheKey(org, repo)),
         pending := KL.Remove(s.pending, MemKey, CacheKey(org, repo)),
         issued := s.issued + [DeleteRow(RowKey(org, repo))])
    case Read(org, repo, now) => s.(mem := Touched(s.mem, CacheKey(org, repo), now))
    case Sweep(now) => s.(mem := DropExpired(s.mem, now))
    // flush up to its first await: take over the pending items.
    case BeginFlush => s.(timer := false, pending := [], flushes := s.flushes + [s.pending])
    // One iteration of the loop of a running flush; an item without an org would be skipped.
    case PersistNext(i, now) =>
      var k := s.flushes[i][0];
      var found := Fetched(s.mem, MemKey(k), now);
      if k.org == "" then s.(flushes := s.flushes[i := s.flushes[i][1..]])
      else s.(mem := Touched(s.mem, MemKey(k), now),
         flushes := s.flushes[i := s.flushes[i][1..]],
         issued := if found.Some? then s.issued + [UpsertRow(k, CloneGraph(found.value.graph))] else s.issued)
    case StatementDone => s.(table := Execute(s.table, s.issued[0]), issued := s.issued[1..])
    // ensureLoaded: the SELECT sees every statement issued before it.
    case Load(org, repo, now) =>
      if org == "" then s
      else
        var seen := Touched(s.mem, CacheKey(org, repo), now);
        if Fetched(s.mem, CacheKey(org, repo), now).Some? then s.(mem := seen)
        else s.(mem := StoreRow(l, seen, Eventual(s), RowKey(org, repo), now))
    case Hydrate(org, repos, now) => s.(mem := StoreRows(l, s.mem, Eventual(s), org, repos, now))
  }

  // ---- The invariant ----------------------------------------------------------------------------------------------

  ghost predicate RowOk(l: Limits, k: RowKey, g: Graph) { NulFree(k.org) && g.repoId == k.repo && Sanitize(l, g) == g }

  ghost predicate RowsOk(l: Limits, t: Table) { forall k :: k in t ==> RowOk(l, k, t[k]) }

  ghost predicate StatementsOk(l: Limits, ss: seq<Statement>) {
    forall i :: 0 <= i < |ss| && ss[i].UpsertRow? ==> RowOk(l, ss[i].key, ss[i].graph)
  }

  /** A write of k still waits: in the pending set or in the queue of a running flush. */
  ghost predicate Queued(s: State, k: RowKey) { k in s.pending || InSome(s.flushes, k) }

  ghost predicate InSome(queues: seq<seq<RowKey>>, k: RowKey) { exists i :: 0 <= i < |queues| && k in queues[i] }

  /** A resident graph is the row the database will hold, or its write still waits. */
  ghost predicate InStep(s: State, k: RowKey) {
    var g := GraphAt(s.mem, MemKey(k));
    g.Some? ==> Row(Eventual(s), k) == g || Queued(s, k)
  }

  ghost predicate CoherentState(s: State) { forall k: RowKey :: NulFree(k.org) ==> InStep(s, k) }

  ghost predicate KeysOk(keys: seq<RowKey>) { forall k :: k in keys ==> NulFree(k.org) && k.org != "" }

  ghost predicate QueuesOk(s: State) {
    KeysOk(s.pending) && forall i :: 0 <= i < |s.flushes| ==> KeysOk(s.flushes[i])
  }

  ghost predicate Inv(l: Limits, s: State) {
    && MemOk(l, s.mem) && Keyed(s.mem) && QueuesOk(s)
    && RowsOk(l, s.table) && StatementsOk(l, s.issued)
    && CoherentState(s)
  }

  lemma {:induction false} ExecuteAllOk(l: Limits, t: Table, ss: seq<Statement>)
    requires RowsOk(l, t) && StatementsOk(l, ss)
    ensures RowsOk(l, ExecuteAll(t, ss))
  {
    if ss != [] { ExecuteAllOk(l, t, ss[..|ss| - 1]); }
  }

  lemma ExecuteAppend(t: Table, ss: seq<Statement>, s: Statement)
    ensures ExecuteAll(t, ss + [s]) == Execute(ExecuteAll(t, ss), s)
  {
    assert (ss + [s])[..|ss|] == ss;
  }

  lemma {:induction false} ExecuteFirst(t: Table, ss: seq<Statement>)
    requires ss != []
    ensures ExecuteAll(Execute(t, ss[0]), ss[1..]) == ExecuteAll(t, ss)
    decreases |ss|
  {
    if |ss| > 1 {
      var n := |ss| - 1;
      assert ss[..n][0] == ss[0] && ss[..n][1..] == ss[1..][..n - 1];
      ExecuteFirst(t, ss[..n]);
    } else {
      assert ss[..0] == [];
    }
  }

  // ---- Memory steps as seen from one row --------------------------------------------------------------------------

  /** A memory step that leaves every resident graph as it was or drops it. */
  ghost predicate Shrinks(m: Mem, r: Mem) {
    forall key :: GraphAt(r, key) == None || GraphAt(r, key) == GraphAt(m, key)
  }

  /** A memory step that in addition may put g under k. */
  ghost predicate Puts(m: Mem, r: Mem, k: RowKey, g: Graph) {
    forall j: RowKey :: NulFree(j.org) ==>
      GraphAt(r, MemKey(j)) == None || GraphAt(r, MemKey(j)) == GraphAt(m, MemKey(j)) || (j == k && GraphAt(r, MemKey(j)) == Some(g))
  }

  lemma TouchedShrinks(l: Limits, m: Mem, key: string, now: int)
    requires MemOk(l, m) && Keyed(m)
    ensures var r := Touched(m, key, now); MemOk(l, r) && Keyed(r) && Shrinks(m, r)
  {
    TouchedKeeps(l, m, key, now);
    var s := KL.Find(m, KeyOf, key);
    if s.Some? {
      KL.RemoveMembers(m, KeyOf, key);
      KL.PutUnique(m, KeyOf, s.value.(entry := s.value.entry.(lastAccessedAt := now)));
    }
    var r := Touched(m, key, now);
    assert forall k :: GraphAt(r, k) == None || GraphAt(r, k) == GraphAt(m, k);
  }

  lemma DropShrinks(l: Limits, m: Mem, now: int)
    requires MemOk(l, m) && Keyed(m)
    ensures var r := DropExpired(m, now); MemOk(l, r) && Keyed(r) && Shrinks(m, r)
  {
    DroppedKeeps(l, m, now);
    DropExpiredMembers(m, now);
    var r := DropExpired(m, now);
    forall key ensures GraphAt(r, key) == None || GraphAt(r, key) == GraphAt(m, key) {
      var s := KL.Find(r, KeyOf, key);
      if s.Some? { KL.FindIn(m, KeyOf, s.value); }
    }
  }

  lemma StoredPuts(l: Limits, m: Mem, org: string, g: Graph, now: int)
    requires MemOk(l, m) && Keyed(m) && NulFree(org)
    ensures var r := Stored(l, m, org, g, now);
      MemOk(l, r) && Keyed(r) && Puts(m, r, RowKey(org, g.repoId), Sanitize(l, g))
  {
    var r := Stored(l, m, org, g, now);
    StoredKeeps(l, m, org, g, now);
    StoredKeyed(l, m, org, g, now);
    forall j: RowKey | NulFree(j.org)
      ensures GraphAt(r, MemKey(j)) == None || GraphAt(r, MemKey(j)) == GraphAt(m, MemKey(j))
        || (j == RowKey(org, g.repoId) && GraphAt(r, MemKey(j)) == Some(Sanitize(l, g)))
    {
      if j != RowKey(org, g.repoId) {
        StoredIsolates(l, m, org, g, now, j.org, j.repo);
      } else {
        hide Stored, Sanitize, CacheKey;
        var s := KL.Find(r, KeyOf, MemKey(j));
      }
    }
  }

  // ---- Every step keeps the invariant ----------------------------------------------------------------------------

  lemma ShrinkKeeps(l: Limits, s: State, m: Mem)
    requires Inv(l, s) && MemOk(l, m) && Keyed(m) && Shrinks(s.mem, m)
    ensures Inv(l, s.(mem := m))
  {
    hide Eventual, MemOk, Keyed, GraphAt;
    var t := s.(mem := m);
    assert Eventual(t) == Eventual(s) by { assert t.table == s.table && t.issued == s.issued; SameEventual(s, t); }
    forall k: RowKey | NulFree(k.org) ensures InStep(t, k) {
      assert InStep(s, k);
      assert GraphAt(m, MemKey(k)) == None || GraphAt(m, MemKey(k)) == GraphAt(s.mem, MemKey(k));
    }
  }

  lemma SameEventual(s: State, t: State)
    requires s.table == t.table && s.issued == t.issued
    ensures Eventual(s) == Eventual(t)
  {
  }

  /** A key stays in step when its graph stays or goes, its row stays, and its waiting writes wait on. */
  lemma StaysInStep(s: State, t: State, j: RowKey)
    requires InStep(s, j)
    requires GraphAt(t.mem, MemKey(j)) == None || GraphAt(t.mem, MemKey(j)) == GraphAt(s.mem, MemKey(j))
    requires Row(Eventual(t), j) == Row(Eventual(s), j)
    requires Queued(s, j) ==> Queued(t, j)
    ensures InStep(t, j)
  {
    hide GraphAt, Eventual, Queued;
  }

  lemma WriteKeeps(l: Limits, s: State, org: string, g: Graph, now: int)
    requires Inv(l, s) && NulFree(org) && org != ""
    ensures Inv(l, Next(l, s, Write(org, g, now)))
  {
    var k := RowKey(org, g.repoId);
    var t := Next(l, s, Write(org, g, now));
    StoredPuts(l, s.mem, org, g, now);
    PendingPut(s.pending, k);
    SameEventual(s, t);
    hide Eventual, Stored, MemOk, Keyed, GraphAt, CacheKey, Sanitize;
    forall j: RowKey | NulFree(j.org) ensures InStep(t, j) {
      assert InStep(s, j);
      if Queued(s, j) { assert Queued(t, j); }
    }
  }

  lemma PendingPut(pending: seq<RowKey>, k: RowKey)
    requires NulFree(k.org) && forall j :: j in pending ==> NulFree(j.org)
    ensures forall j :: j in KL.Put(pending, MemKey, k) <==> j == k || j in pending
  {
    forall j: RowKey | NulFree(j.org) && MemKey(j) == MemKey(k) ensures j == k { CacheKeyInjective(j.org, j.repo, k.org, k.repo); }
    PutMembers(pending, k);
  }

  lemma {:induction false} PutMembers(pending: seq<RowKey>, k: RowKey)
    requires forall j :: j in pending && MemKey(j) == MemKey(k) ==> j == k
    ensures forall j :: j in KL.Put(pending, MemKey, k) <==> j == k || j in pending
  {
    if pending != [] {
      assert pending == [pending[0]] + pending[1..];
      if MemKey(pending[0]) != MemKey(k) { PutMembers(pending[1..], k); }
    }
  }

  lemma EraseKeeps(l: Limits, s: State, org: string, repo: string)
    requires Inv(l, s) && NulFree(org) && org != ""
    ensures Inv(l, Next(l, s, Erase(org, repo)))
  {
    var k := RowKey(org, repo);
    var t := Next(l, s, Erase(org, repo));
    RemovedKeeps(l, s.mem, CacheKey(org, repo));
    KL.RemoveMembers(s.mem, KeyOf, CacheKey(org, repo));
    KL.RemoveMembers(s.pending, MemKey, CacheKey(org, repo));
    ExecuteAppend(s.table, s.issued, DeleteRow(k));
    assert StatementsOk(l, t.issued);
    forall j: RowKey | NulFree(j.org) ensures InStep(t, j) {
      assert InStep(s, j);
      EraseOne(s, t, org, repo, j);
    }
  }

  lemma RemovedGraph(m: Mem, key: string, k: string)
    ensures GraphAt(KL.Remove(m, KeyOf, key), k) == if k == key then None else GraphAt(m, k)
  {
    KL.FindRemove(m, KeyOf, key, k);
  }

  lemma EraseOne(s: State, t: State, org: string, repo: string, j: RowKey)
    requires NulFree(org) && NulFree(j.org) && InStep(s, j)
    requires t.mem == KL.Remove(s.mem, KeyOf, CacheKey(org, repo)) && t.pending == KL.Remove(s.pending, MemKey, CacheKey(org, repo))
    requires t.flushes == s.flushes && t.table == s.table && t.issued == s.issued + [DeleteRow(RowKey(org, repo))]
    ensures InStep(t, j)
  {
    CacheKeyInjective(org, repo, j.org, j.repo);
    RemovedGraph(s.mem, CacheKey(org, repo), MemKey(j));
    if j != RowKey(org, repo) {
      KL.RemoveMembers(s.pending, MemKey, CacheKey(org, repo));
      ExecuteAppend(s.table, s.issued, DeleteRow(RowKey(org, repo)));
      hide InStep, ExecuteAll, GraphAt, CacheKey;
      StaysInStep(s, t, j);
    }
  }

  lemma BeginFlushKeeps(l: Limits, s: State)
    requires Inv(l, s)
    ensures Inv(l, Next(l, s, BeginFlush))
  {
    var t := Next(l, s, BeginFlush);
    SameEventual(s, t);
    hide Eventual, MemOk, Keyed, GraphAt;
    forall j: RowKey | NulFree(j.org) ensures InStep(t, j) {
      assert InStep(s, j);
      if j in s.pending {
        assert j in t.flushes[|s.flushes|];
      } else if Queued(s, j) {
        var i :| 0 <= i < |s.flushes| && j in s.flushes[i];
        assert j in t.flushes[i];
      }
    }
  }

  /** Which write a flush step makes durable: the resident graph, or none if the entry has gone or expired. */
  lemma PersistNextWrites(l: Limits, s: State, i: nat, now: int)
    requires Inv(l, s) && Enabled(s, PersistNext(i, now))
    ensures var k, t := s.flushes[i][0], Next(l, s, PersistNext(i, now));
      && Eventual(t) == (match Fetched(s.mem, MemKey(k), now) case None => Eventual(s) case Some(e) => Eventual(s)[k := e.graph])
      && GraphAt(t.mem, MemKey(k)) == (match Fetched(s.mem, MemKey(k), now) case None => None case Some(e) => Some(e.graph))
  {
    var k := s.flushes[i][0];
    var found := Fetched(s.mem, MemKey(k), now);
    TouchedKeeps(l, s.mem, MemKey(k), now);
    if found.Some? {
      SanitizeTwice(l, found.value.graph);
      assert CloneGraph(found.value.graph) == found.value.graph;
      ExecuteAppend(s.table, s.issued, UpsertRow(k, found.value.graph));
    } else {
      assert GraphAt(s.mem, MemKey(k)) == None || GraphAt(Touched(s.mem, MemKey(k), now), MemKey(k)) == None;
    }
  }

  lemma StillQueued(s: State, i: nat, j: RowKey)
    requires i < |s.flushes| && s.flushes[i] != [] && j != s.flushes[i][0] && Queued(s, j)
    ensures j in s.pending || InSome(s.flushes[i := s.flushes[i][1..]], j)
  {
    var rest := s.flushes[i := s.flushes[i][1..]];
    if j !in s.pending {
      var n :| 0 <= n < |s.flushes| && j in s.flushes[n];
      assert j in rest[n];
    }
  }

  lemma ShorterQueue(keys: seq<RowKey>)
    requires KeysOk(keys) && keys != []
    ensures KeysOk(keys[1..]) && NulFree(keys[0].org) && keys[0].org != ""
  {
  }

  lemma StatementAppend(l: Limits, ss: seq<Statement>, s: Statement)
    requires StatementsOk(l, ss) && (s.UpsertRow? ==> RowOk(l, s.key, s.graph))
    ensures StatementsOk(l, ss + [s])
  {
    hide RowOk;
  }

  /** What a persist step would write is a row of its own key, sanitized. */
  lemma FetchedRow(l: Limits, m: Mem, k: RowKey, now: int)
    requires MemOk(l, m) && Keyed(m) && NulFree(k.org)
    ensures var found := Fetched(m, MemKey(k), now); found.Some? ==> RowOk(l, k, CloneGraph(found.value.graph))
  {
    var found := Fetched(m, MemKey(k), now);
    if found.Some? {
      TouchedKeeps(l, m, MemKey(k), now);
      OwnRepo(m, k.org, k.repo);
      SanitizeTwice(l, found.value.graph);
    }
  }

  lemma PersistNextRows(l: Limits, s: State, i: nat, now: int)
    requires Inv(l, s) && Enabled(s, PersistNext(i, now))
    ensures var t := Next(l, s, PersistNext(i, now)); QueuesOk(t) && StatementsOk(l, t.issued)
  {
    ShorterQueue(s.flushes[i]);
    var k := s.flushes[i][0];
    FetchedRow(l, s.mem, k, now);
    var found := Fetched(s.mem, MemKey(k), now);
    if found.Some? { StatementAppend(l, s.issued, UpsertRow(k, CloneGraph(found.value.graph))); }
    hide RowOk, MemOk, Keyed, CoherentState, RowsOk, Fetched, Touched, CloneGraph, MemKey, KeysOk, StatementsOk, NulFree;
  }

  lemma PersistNextKeeps(l: Limits, s: State, i: nat, now: int)
    requires Inv(l, s) && Enabled(s, PersistNext(i, now))
    ensures Inv(l, Next(l, s, PersistNext(i, now)))
  {
    var k, t := s.flushes[i][0], Next(l, s, PersistNext(i, now));
    PersistNextRows(l, s, i, now);
    PersistNextWrites(l, s, i, now);
    TouchedShrinks(l, s.mem, MemKey(k), now);
    hide Eventual, MemOk, Keyed, GraphAt, Fetched, Touched, CloneGraph, QueuesOk, StatementsOk, RowsOk;
    forall j: RowKey | NulFree(j.org) ensures InStep(t, j) {
      assert InStep(s, j);
      if j != k {
        hide InStep;
        if Queued(s, j) { StillQueued(s, i, j); }
        StaysInStep(s, t, j);
      }
    }
  }

  lemma StatementDoneKeeps(l: Limits, s: State)
    requires Inv(l, s) && s.issued != []
    ensures Inv(l, Next(l, s, StatementDone)) && Eventual(Next(l, s, StatementDone)) == Eventual(s)
  {
    var t := Next(l, s, StatementDone);
    ExecuteFirst(s.table, s.issued);
    hide MemOk, Keyed, GraphAt;
    assert RowsOk(l, t.table);
    assert Eventual(t) == Eventual(s);
    hide Eventual;
    forall j: RowKey | NulFree(j.org) ensures InStep(t, j) {
      assert InStep(s, j);
      if Queued(s, j) { assert Queued(t, j); }
    }
  }

  /** Storing a row of the table keeps memory and table in step. */
  lemma StoreRowKeeps(l: Limits, s: State, k: RowKey, now: int)
    requires Inv(l, s) && NulFree(k.org)
    ensures Inv(l, s.(mem := StoreRow(l, s.mem, Eventual(s), k, now)))
  {
    if k in Eventual(s) {
      ExecuteAllOk(l, s.table, s.issued);
      assert RowOk(l, k, Eventual(s)[k]);
      StoredPuts(l, s.mem, k.org, Eventual(s)[k], now);
      PutRowKeeps(l, s, k, Stored(l, s.mem, k.org, Eventual(s)[k], now));
    }
  }

  lemma PutRowKeeps(l: Limits, s: State, k: RowKey, m: Mem)
    requires Inv(l, s) && MemOk(l, m) && Keyed(m)
    requires k in Eventual(s) && Puts(s.mem, m, k, Eventual(s)[k])
    ensures Inv(l, s.(mem := m))
  {
    var t := s.(mem := m);
    SameEventual(s, t);
    hide Eventual, MemOk, Keyed, GraphAt;
    forall j: RowKey | NulFree(j.org) ensures InStep(t, j) {
      assert InStep(s, j);
      if GraphAt(m, MemKey(j)) == None || GraphAt(m, MemKey(j)) == GraphAt(s.mem, MemKey(j)) {
        hide InStep;
        StaysInStep(s, t, j);
      }
    }
  }

  lemma LoadKeeps(l: Limits, s: State, org: string, repo: string, now: int)
    requires Inv(l, s) && NulFree(org)
    ensures Inv(l, Next(l, s, Load(org, repo, now)))
  {
    if org != "" {
      var key := CacheKey(org, repo);
      var seen := s.(mem := Touched(s.mem, key, now));
      TouchedShrinks(l, s.mem, key, now);
      ShrinkKeeps(l, s, seen.mem);
      SameEventual(s, seen);
      StoreRowKeeps(l, seen, RowKey(org, repo), now);
    }
  }

  lemma {:induction false} StoreRowsKeeps(l: Limits, s: State, org: string, repos: seq<string>, now: int)
    requires Inv(l, s) && NulFree(org)
    ensures Inv(l, s.(mem := StoreRows(l, s.mem, Eventual(s), org, repos, now)))
    decreases |repos|
  {
    if repos == [] {
      assert s.(mem := StoreRows(l, s.mem, Eventual(s), org, repos, now)) == s;
    } else {
      var t := s.(mem := StoreRow(l, s.mem, Eventual(s), RowKey(org, repos[0]), now));
      StoreRowKeeps(l, s, RowKey(org, repos[0]), now);
      SameEventual(s, t);
      StoreRowsKeeps(l, t, org, repos[1..], now);
    }
  }

  lemma NextKeeps(l: Limits, s: State, e: Event)
    requires Inv(l, s) && Enabled(s, e)
    ensures Inv(l, Next(l, s, e))
  {
    match e
    case Write(org, g, now) => if org != "" { WriteKeeps(l, s, org, g, now); }
    case Erase(org, repo) => EraseKeeps(l, s, org, repo);
    case Read(org, repo, now) =>
      TouchedShrinks(l, s.mem, CacheKey(org, repo), now);
      ShrinkKeeps(l, s, Touched(s.mem, CacheKey(org, repo), now));
    case Sweep(now) =>
      DropShrinks(l, s.mem, now);
      ShrinkKeeps(l, s, DropExpired(s.mem, now));
    case BeginFlush => BeginFlushKeeps(l, s);
    case PersistNext(i, now) => PersistNextKeeps(l, s, i, now);
    case StatementDone => StatementDoneKeeps(l, s);
    case Load(org, repo, now) => LoadKeeps(l, s, org, repo, now);
    case Hydrate(org, repos, now) => StoreRowsKeeps(l, s, org, repos, now);
  }

  // ---- Whole runs -------------------------------------------------------------------------------------------------

  ghost predicate IsRun(l: Limits, states: seq<State>, events: seq<Event>) {
    && |states| == |events| + 1
    && forall i :: 0 <= i < |events| ==> Enabled(states[i], events[i]) && states[i + 1] == Next(l, states[i], events[i])
  }

  /** A fresh cache over a table of sanitized rows. */
  ghost predicate Initial(l: Limits, s: State) {
    s.mem == [] && s.pending == [] && s.flushes == [] && s.issued == [] && RowsOk(l, s.table)
  }

  /** In every reachable state each resident graph equals its durable row, once issued statements settle, or waits. */
  lemma {:induction false} RunKeeps(l: Limits, states: seq<State>, events: seq<Event>, n: nat)
    requires IsRun(l, states, events) && Initial(l, states[0]) && n < |states|
    ensures Inv(l, states[n])
  {
    if n > 0 {
      RunKeeps(l, states, events, n - 1);
      NextKeeps(l, states[n - 1], events[n - 1]);
    }
  }

  /** In every run a pending write has its flush timer armed: nothing waits for good. */
  lemma {:induction false} PendingHasTimer(l: Limits, states: seq<State>, events: seq<Event>, n: nat)
    requires IsRun(l, states, events) && Initial(l, states[0]) && n < |states|
    ensures states[n].pending != [] ==> states[n].timer
  {
    if n > 0 {
      PendingHasTimer(l, states, events, n - 1);
      var s, e := states[n - 1], events[n - 1];
      if e.Erase? { KL.RemoveMembers(s.pending, MemKey, CacheKey(e.org, e.repo)); }
    }
  }

  /** With nothing pending, no flush running and every statement done, memory and table agree on resident graphs. */
  lemma RunSettles(l: Limits, states: seq<State>, events: seq<Event>, n: nat, k: RowKey)
    requires IsRun(l, states, events) && Initial(l, states[0]) && n < |states| && NulFree(k.org)
    requires var s := states[n]; s.pending == [] && s.issued == [] && forall i :: 0 <= i < |s.flushes| ==> s.flushes[i] == []
    ensures var g := GraphAt(states[n].mem, MemKey(k)); g.Some? ==> Row(states[n].table, k) == g
  {
    RunKeeps(l, states, events, n);
    assert InStep(states[n], k);
  }

  // ---- Where the protocol loses or reverts a write -----------------------------------------------------------------

  /** A load that reads the row in one step and stores it in another. */
  function FinishLoad(l: Limits, s: State, k: RowKey, row: Graph, now: int): State {
    s.(mem := Stored(l, s.mem, k.org, row, now))
  }

  /**
   A load that does not read and store in one step stays coherent exactly when the row it read is still the row the
   database will hold, or a write of the same key still waits.
   */
  lemma LateLoadCoherent(l: Limits, s: State, k: RowKey, row: Graph, now: int)
    requires Inv(l, s) && RowOk(l, k, row) && Holds(l) && Owned(s.mem, now)
    ensures CoherentState(FinishLoad(l, s, k, row, now)) <==> Row(Eventual(s), k) == Some(row) || Queued(s, k)
  {
    var t := FinishLoad(l, s, k, row, now);
    SameEventual(s, t);
    StoredPuts(l, s.mem, k.org, row, now);
    StoredFound(l, s.mem, k.org, row, now);
    assert GraphAt(t.mem, MemKey(k)) == Some(row);
    hide Eventual, MemOk, Keyed, GraphAt, Stored, Sanitize;
    assert Queued(t, k) <==> Queued(s, k);
    assert InStep(t, k) <==> Row(Eventual(s), k) == Some(row) || Queued(s, k);
    if InStep(t, k) {
      forall j: RowKey | NulFree(j.org) ensures InStep(t, j) {
        assert InStep(s, j);
        if Queued(s, j) { assert Queued(t, j); }
      }
    }
  }

  /** ensureLoaded never replaces a live resident graph. */
  lemma LoadSparesResident(l: Limits, s: State, org: string, repo: string, now: int)
    requires Inv(l, s) && NulFree(org) && Fetched(s.mem, CacheKey(org, repo), now).Some?
    ensures GraphAt(Next(l, s, Load(org, repo, now)).mem, CacheKey(org, repo)) == GraphAt(s.mem, CacheKey(org, repo))
  {
    TouchedKeeps(l, s.mem, CacheKey(org, repo), now);
  }

  /** hydrateOrg does: the row replaces a resident graph even while that graph's own write still waits. */
  lemma HydrateReplacesPending(l: Limits, s: State, k: RowKey, now: int)
    requires Inv(l, s) && Holds(l) && Owned(s.mem, now) && k in Eventual(s)
    requires Enabled(s, Hydrate(k.org, [k.repo], now))
    ensures var t := Next(l, s, Hydrate(k.org, [k.repo], now));
      GraphAt(t.mem, MemKey(k)) == Some(Eventual(s)[k]) && (Queued(t, k) <==> Queued(s, k))
  {
    StoreRowFound(l, s, k, now);
    OneRow(l, s.mem, Eventual(s), k, now);
    hide Eventual, GraphAt, Stored, Inv, MemOk, Owned, StoreRows, StoreRow, RowOk;
  }

  lemma StoreRowFound(l: Limits, s: State, k: RowKey, now: int)
    requires Inv(l, s) && Holds(l) && Owned(s.mem, now) && k in Eventual(s)
    ensures GraphAt(StoreRow(l, s.mem, Eventual(s), k, now), MemKey(k)) == Some(Eventual(s)[k])
  {
    ExecuteAllOk(l, s.table, s.issued);
    assert RowOk(l, k, Eventual(s)[k]);
    StoredFound(l, s.mem, k.org, Eventual(s)[k], now);
  }

  lemma OneRow(l: Limits, m: Mem, t: Table, k: RowKey, now: int)
    ensures StoreRows(l, m, t, k.org, [k.repo], now) == StoreRow(l, m, t, k, now)
  {
    assert [k.repo][1..] == [];
  }

  /**
   A pending write is lost when its entry is evicted before its turn: in a cache for one repository, two writes and a
   complete flush leave the first repository's row as it was.
   */
  lemma EvictedWriteIsLost(l: Limits, s: State, a: Graph, b: Graph, org: string, now: int)
    requires Inv(l, s) && Owned(s.mem, now) && l.ttlMs >= 0 && l.maxRepos == 1
    requires NulFree(org) && org != "" && a.repoId != b.repoId && s.pending == [] && s.flushes == []
    ensures var s1 := Next(l, Next(l, s, Write(org, a, now)), Write(org, b, now));
      var s2 := Next(l, s1, BeginFlush);
      && s2.flushes == [[RowKey(org, a.repoId), RowKey(org, b.repoId)]]
      && var s3 := Next(l, s2, PersistNext(0, now));
      && s3.flushes == [[RowKey(org, b.repoId)]]
      && var s4 := Next(l, s3, PersistNext(0, now));
      && s4.pending == [] && s4.flushes == [[]]
      && Row(Eventual(s4), RowKey(org, a.repoId)) == Row(Eventual(s), RowKey(org, a.repoId))
      && Row(Eventual(s4), RowKey(org, b.repoId)) == Some(Sanitize(l, b))
  {
    hide Inv;
    var s2 := TwoWrites(l, s, a, b, org, now);
    InvMemory(l, s);
    OnlyLastStays(l, s.mem, org, a, b, now);
    CacheKeyInjective(org, a.repoId, org, b.repoId);
    hide Inv, Owned, Stored, Eventual, CacheKey, Sanitize, Fetched, Next;
    TwoPersists(l, s2, RowKey(org, a.repoId), RowKey(org, b.repoId), Sanitize(l, b), now);
  }

  lemma InvMemory(l: Limits, s: State)
    requires Inv(l, s)
    ensures MemOk(l, s.mem)
  {
  }

  lemma TwoWrites(l: Limits, s: State, a: Graph, b: Graph, org: string, now: int) returns (s2: State)
    requires Inv(l, s) && NulFree(org) && org != "" && a.repoId != b.repoId && s.pending == [] && s.flushes == []
    ensures s2 == Next(l, Next(l, Next(l, s, Write(org, a, now)), Write(org, b, now)), BeginFlush)
    ensures Inv(l, s2) && Eventual(s2) == Eventual(s)
    ensures s2.mem == Stored(l, Stored(l, s.mem, org, a, now), org, b, now)
    ensures s2.pending == [] && s2.flushes == [[RowKey(org, a.repoId), RowKey(org, b.repoId)]]
  {
    hide Inv, Stored, Eventual;
    var ka, kb := RowKey(org, a.repoId), RowKey(org, b.repoId);
    var m1 := Next(l, s, Write(org, a, now));
    var s1 := Next(l, m1, Write(org, b, now));
    s2 := Next(l, s1, BeginFlush);
    WriteKeeps(l, s, org, a, now);
    WriteKeeps(l, m1, org, b, now);
    BeginFlushKeeps(l, s1);
    SameEventual(s, s2);
    CacheKeyInjective(org, a.repoId, org, b.repoId);
    assert KL.Put([ka], MemKey, kb) == [ka, kb];
    assert [] + [s1.pending] == [[ka, kb]];
  }

  lemma OnlyLastStays(l: Limits, m: Mem, org: string, a: Graph, b: Graph, now: int)
    requires MemOk(l, m) && Owned(m, now) && l.ttlMs >= 0 && l.maxRepos == 1 && NulFree(org) && a.repoId != b.repoId
    ensures var r := Stored(l, Stored(l, m, org, a, now), org, b, now);
      && KL.Find(r, KeyOf, CacheKey(org, a.repoId)) == None
      && Fetched(r, CacheKey(org, b.repoId), now).Some? && Fetched(r, CacheKey(org, b.repoId), now).value.graph == Sanitize(l, b)
  {
    var m1 := Stored(l, m, org, a, now);
    StoredFound(l, m, org, a, now);
    StoredSurvives(l, m1, org, b, now);
    StoredKeeps(l, m1, org, b, now);
    CacheKeyInjective(org, a.repoId, org, b.repoId);
    hide Stored, CacheKey, Sanitize;
    var r, w := Stored(l, m1, org, b, now), Written(l, org, b, now);
    assert w in r && |r| <= 1;
    var i :| 0 <= i < |r| && r[i] == w;
  }

  lemma TwoPersists(l: Limits, s: State, ka: RowKey, kb: RowKey, b: Graph, now: int)
    requires Inv(l, s) && s.flushes == [[ka, kb]] && s.pending == [] && ka != kb && MemKey(ka) != MemKey(kb)
    requires KL.Find(s.mem, KeyOf, MemKey(ka)) == None
    requires Fetched(s.mem, MemKey(kb), now).Some? && Fetched(s.mem, MemKey(kb), now).value.graph == b
    ensures var s3 := Next(l, s, PersistNext(0, now));
      && s3.flushes == [[kb]]
      && var s4 := Next(l, s3, PersistNext(0, now));
      && s4.pending == [] && s4.flushes == [[]]
      && Row(Eventual(s4), ka) == Row(Eventual(s), ka) && Row(Eventual(s4), kb) == Some(b)
  {
    hide Inv, GraphAt, Eventual;
    var s3 := s.(flushes := [[kb]]);
    assert [ka, kb][1..] == [kb] && [kb][1..] == [];
    assert Next(l, s, PersistNext(0, now)) == s3;
    PersistNextKeeps(l, s, 0, now);
    SameEventual(s, s3);
    PersistNextWrites(l, s3, 0, now);
  }
}
