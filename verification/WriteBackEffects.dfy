/**
 What the steps of the write-back protocol bring about (src/cache/graphCachePostgres.ts): a write is stored and
 scheduled, a load loads, a deleted repository does not come back.
 */
module WriteBackEffects {
  import opened Wrappers
  import opened GraphModel
  import opened CacheMemory
  import opened CacheMutators
  import opened WriteBack
  import KL = KeyedList

  lemma SameMemoryRows(s: State, m: Mem)
    ensures Eventual(s.(mem := m)) == Eventual(s)
  {
    SameEventual(s, s.(mem := m));
  }

  // ---- Writing ------------------------------------------------------------------------------------------------------

  /** After setGraph the sanitized graph is resident, its write waits with the timer armed, and nothing else waits less. */
  lemma WriteWrites(l: Limits, s: State, org: string, g: Graph, now: int)
    requires Inv(l, s) && Owned(s.mem, now) && Holds(l) && NulFree(org) && org != ""
    ensures var t := Next(l, s, Write(org, g, now));
      && GraphAt(t.mem, CacheKey(org, g.repoId)) == Some(Sanitize(l, g))
      && t.timer && (forall k :: k in t.pending <==> k == RowKey(org, g.repoId) || k in s.pending)
      && t.flushes == s.flushes && t.issued == s.issued && t.table == s.table
  {
    StoredFound(l, s.mem, org, g, now);
    PendingPut(s.pending, RowKey(org, g.repoId));
  }

  // ---- Loading ------------------------------------------------------------------------------------------------------

  /** What a repository's key answers after a load: the live resident graph, else the row, else nothing. */
  lemma LoadLoads(l: Limits, s: State, org: string, repo: string, now: int)
    requires Inv(l, s) && Owned(s.mem, now) && Holds(l) && NulFree(org) && org != ""
    ensures var k := RowKey(org, repo);
      GraphAt(Next(l, s, Load(org, repo, now)).mem, MemKey(k)) ==
        if Fetched(s.mem, MemKey(k), now).Some? then GraphAt(s.mem, MemKey(k)) else Row(Eventual(s), k)
  {
    var k := RowKey(org, repo);
    var seen := Touched(s.mem, MemKey(k), now);
    TouchedKeeps(l, s.mem, MemKey(k), now);
    TouchedOwned(l, s.mem, MemKey(k), now);
    if Fetched(s.mem, MemKey(k), now).None? && k in Eventual(s) {
      ExecuteAllOk(l, s.table, s.issued);
      assert RowOk(l, k, Eventual(s)[k]);
      StoredFound(l, seen, org, Eventual(s)[k], now);
    }
  }

  /** Below its limit a cache stores without dropping anything that is live. */
  lemma StoredFits(l: Limits, m: Mem, org: string, g: Graph, now: int, key: string)
    requires MemOk(l, m) && |m| < l.maxRepos && l.ttlMs >= 0 && forall s :: s in m ==> !Expired(s, now)
    ensures var r := Stored(l, m, org, g, now);
      && EntryAt(r, key) == (if key == CacheKey(org, g.repoId) then Some(Written(l, org, g, now).entry) else EntryAt(m, key))
      && |r| <= |m| + 1 && forall s :: s in r ==> !Expired(s, now)
  {
    var w := Written(l, org, g, now);
    var p := KL.Put(m, KeyOf, w);
    KL.PutShape(m, KeyOf, w);
    KL.PutUnique(m, KeyOf, w);
    KL.FindPut(m, KeyOf, w, key);
    NothingExpired(p, now);
  }

  lemma {:induction false} NothingExpired(m: Mem, now: int)
    requires forall s :: s in m ==> !Expired(s, now)
    ensures DropExpired(m, now) == m
  {
    if m != [] {
      var n := |m| - 1;
      assert m == m[..n] + [m[n]];
      NothingExpired(m[..n], now);
    }
  }

  /** Loading distinct rows into a cache with room for them makes every one of them resident and drops nothing else. */
  lemma {:induction false} RowsLoad(l: Limits, m: Mem, t: Table, org: string, repos: seq<string>, now: int, repo: string)
    requires MemOk(l, m) && RowsOk(l, t) && l.ttlMs >= 0 && |m| + |repos| <= l.maxRepos && NulFree(org)
    requires (forall s :: s in m ==> !Expired(s, now)) && (forall r :: r in repos ==> RowKey(org, r) in t)
    requires forall i, j :: 0 <= i < j < |repos| ==> repos[i] != repos[j]
    ensures GraphAt(StoreRows(l, m, t, org, repos, now), CacheKey(org, repo)) ==
      if repo in repos then Some(t[RowKey(org, repo)]) else GraphAt(m, CacheKey(org, repo))
    decreases |repos|
  {
    if repos != [] {
      var k, rest := RowKey(org, repos[0]), repos[1..];
      assert repos[0] in repos && k in t && RowOk(l, k, t[k]);
      var m1 := Stored(l, m, org, t[k], now);
      StoredKeeps(l, m, org, t[k], now);
      StoredFits(l, m, org, t[k], now, CacheKey(org, repo));
      StoredFits(l, m, org, t[k], now, CacheKey(org, repos[0]));
      CacheKeyInjective(org, repo, org, repos[0]);
      forall i, j | 0 <= i < j < |rest| ensures rest[i] != rest[j] { assert repos[i + 1] != repos[j + 1]; }
      assert repos[0] !in rest by { forall i | 0 <= i < |rest| ensures rest[i] != repos[0] { assert repos[i + 1] != repos[0]; } }
      assert repo in repos <==> repo == repos[0] || repo in rest;
      RowsLoad(l, m1, t, org, rest, now, repo);
    }
  }

  /** After a restart, loading an organisation that fits makes every row of it resident. */
  lemma HydrateLoads(l: Limits, s: State, org: string, repos: seq<string>, now: int, repo: string)
    requires Inv(l, s) && s.mem == [] && l.ttlMs >= 0 && |repos| <= l.maxRepos
    requires Enabled(s, Hydrate(org, repos, now)) && forall i, j :: 0 <= i < j < |repos| ==> repos[i] != repos[j]
    ensures GraphAt(Next(l, s, Hydrate(org, repos, now)).mem, CacheKey(org, repo)) ==
      if repo in repos then Some(Eventual(s)[RowKey(org, repo)]) else None
  {
    ExecuteAllOk(l, s.table, s.issued);
    RowsLoad(l, s.mem, Eventual(s), org, repos, now, repo);
  }

  // ---- Deleting -----------------------------------------------------------------------------------------------------

  /** No graph of the repository is resident, and none is or will be in the table. */
  ghost predicate Gone(s: State, k: RowKey) { GraphAt(s.mem, MemKey(k)) == None && Row(Eventual(s), k) == None }

  lemma EraseErases(l: Limits, s: State, org: string, repo: string)
    requires Inv(l, s) && NulFree(org) && org != ""
    ensures var k, t := RowKey(org, repo), Next(l, s, Erase(org, repo)); Gone(t, k) && k !in t.pending
  {
    RemovedGraph(s.mem, CacheKey(org, repo), CacheKey(org, repo));
    KL.RemoveMembers(s.pending, MemKey, CacheKey(org, repo));
    ExecuteAppend(s.table, s.issued, DeleteRow(RowKey(org, repo)));
  }

  ghost predicate WritesRow(e: Event, k: RowKey) { e.Write? && RowKey(e.org, e.graph.repoId) == k }

  lemma ShrunkStaysGone(s: State, m: Mem, k: RowKey)
    requires Gone(s, k) && Shrinks(s.mem, m)
    ensures Gone(s.(mem := m), k)
  {
    SameMemoryRows(s, m);
    hide Eventual;
    assert GraphAt(m, MemKey(k)) == None || GraphAt(m, MemKey(k)) == GraphAt(s.mem, MemKey(k));
  }

  lemma StoredElsewhere(l: Limits, m: Mem, j: RowKey, g: Graph, now: int, k: RowKey)
    requires MemOk(l, m) && Keyed(m) && NulFree(j.org) && NulFree(k.org) && j.repo == g.repoId && j != k
    requires GraphAt(m, MemKey(k)) == None
    ensures var r := Stored(l, m, j.org, g, now); MemOk(l, r) && Keyed(r) && GraphAt(r, MemKey(k)) == None
  {
    StoredPuts(l, m, j.org, g, now);
  }

  lemma LoadStaysGone(l: Limits, s: State, org: string, repo: string, now: int, k: RowKey)
    requires Inv(l, s) && NulFree(org) && NulFree(k.org) && Gone(s, k)
    ensures Gone(Next(l, s, Load(org, repo, now)), k)
  {
    if org != "" {
      var j := RowKey(org, repo);
      var seen := Touched(s.mem, MemKey(j), now);
      TouchedShrinks(l, s.mem, MemKey(j), now);
      ShrunkStaysGone(s, seen, k);
      ExecuteAllOk(l, s.table, s.issued);
      SameMemoryRows(s, Next(l, s, Load(org, repo, now)).mem);
      if j in Eventual(s) && j != k {
        assert RowOk(l, j, Eventual(s)[j]);
        StoredElsewhere(l, seen, j, Eventual(s)[j], now, k);
      }
    }
  }

  lemma {:induction false} RowsStayElsewhere(l: Limits, m: Mem, t: Table, org: string, repos: seq<string>, now: int, k: RowKey)
    requires MemOk(l, m) && Keyed(m) && RowsOk(l, t) && NulFree(org) && NulFree(k.org) && k !in t
    requires GraphAt(m, MemKey(k)) == None
    ensures GraphAt(StoreRows(l, m, t, org, repos, now), MemKey(k)) == None
    decreases |repos|
  {
    if repos != [] {
      var j := RowKey(org, repos[0]);
      if j in t {
        assert RowOk(l, j, t[j]);
        StoredElsewhere(l, m, j, t[j], now, k);
      }
      RowsStayElsewhere(l, StoreRow(l, m, t, j, now), t, org, repos[1..], now, k);
    }
  }

  /** Only a write of the repository brings it back: no load, no flush and no other step does. */
  lemma GoneStays(l: Limits, s: State, e: Event, k: RowKey)
    requires Inv(l, s) && Enabled(s, e) && NulFree(k.org) && Gone(s, k) && !WritesRow(e, k)
    ensures Gone(Next(l, s, e), k)
  {
    match e
    case Write(org, g, now) =>
      if org != "" {
        StoredElsewhere(l, s.mem, RowKey(org, g.repoId), g, now, k);
        SameEventual(s, Next(l, s, e));
      }
    case Erase(org, repo) =>
      RemovedGraph(s.mem, CacheKey(org, repo), MemKey(k));
      ExecuteAppend(s.table, s.issued, DeleteRow(RowKey(org, repo)));
    case Read(org, repo, now) =>
      TouchedShrinks(l, s.mem, CacheKey(org, repo), now);
      ShrunkStaysGone(s, Touched(s.mem, CacheKey(org, repo), now), k);
    case Sweep(now) =>
      DropShrinks(l, s.mem, now);
      ShrunkStaysGone(s, DropExpired(s.mem, now), k);
    case BeginFlush => SameEventual(s, Next(l, s, e));
    case PersistNext(i, now) => PersistStaysGone(l, s, i, now, k);
    case StatementDone => StatementDoneKeeps(l, s);
    case Load(org, repo, now) => LoadStaysGone(l, s, org, repo, now, k);
    case Hydrate(org, repos, now) =>
      ExecuteAllOk(l, s.table, s.issued);
      RowsStayElsewhere(l, s.mem, Eventual(s), org, repos, now, k);
      SameMemoryRows(s, Next(l, s, e).mem);
  }

  lemma PersistStaysGone(l: Limits, s: State, i: nat, now: int, k: RowKey)
    requires Inv(l, s) && Enabled(s, PersistNext(i, now)) && NulFree(k.org) && Gone(s, k)
    ensures Gone(Next(l, s, PersistNext(i, now)), k)
  {
    var j := s.flushes[i][0];
    PersistNextWrites(l, s, i, now);
    TouchedShrinks(l, s.mem, MemKey(j), now);
    TouchedKeeps(l, s.mem, MemKey(j), now);
    ShrunkStaysGone(s, Touched(s.mem, MemKey(j), now), k);
  }

  lemma RowsEnabled(s: State, k: RowKey)
    requires Enabled(s, Erase(k.org, k.repo))
    ensures NulFree(k.org) && k.org != ""
  {
  }

  /** In every run a deleted repository is in neither memory nor table until it is written again. */
  lemma {:induction false} DeletedStaysDeleted(l: Limits, states: seq<State>, events: seq<Event>, i: nat, n: nat, k: RowKey)
    requires IsRun(l, states, events) && Initial(l, states[0]) && i < n < |states|
    requires events[i] == Erase(k.org, k.repo) && forall j :: i < j < n ==> !WritesRow(events[j], k)
    ensures NulFree(k.org) && Gone(states[n], k)
    decreases n
  {
    hide Next, Inv, Gone, Enabled, Initial;
    RunKeeps(l, states, events, n - 1);
    if i == n - 1 {
      RowsEnabled(states[i], k);
      EraseErases(l, states[i], k.org, k.repo);
    } else {
      DeletedStaysDeleted(l, states, events, i, n - 1, k);
      GoneStays(l, states[n - 1], events[n - 1], k);
    }
  }

  // ---- Flushing -----------------------------------------------------------------------------------------------------

  /** A flush takes over everything that waits and stops the timer. */
  lemma FlushTakesOver(l: Limits, s: State)
    ensures var t := Next(l, s, BeginFlush);
      && t.pending == [] && !t.timer && t.flushes == s.flushes + [s.pending]
      && t.mem == s.mem && t.issued == s.issued && t.table == s.table
  {
  }

  /** A statement that takes effect leaves the queue, and the table is what it makes of it. */
  lemma StatementTakesEffect(l: Limits, s: State)
    requires s.issued != []
    ensures var t, k := Next(l, s, StatementDone), s.issued[0].key;
      && t.issued == s.issued[1..] && t.mem == s.mem && t.pending == s.pending && t.flushes == s.flushes
      && Row(t.table, k) == (if s.issued[0].UpsertRow? then Some(s.issued[0].graph) else None)
      && forall j :: j != k ==> Row(t.table, j) == Row(s.table, j)
  {
  }

  /** A running flush to its end, with nothing in between. */
  function PersistAll(l: Limits, s: State, i: nat, now: int): State
    requires i < |s.flushes|
    decreases |s.flushes[i]|
  {
    if s.flushes[i] == [] then s else PersistAll(l, Next(l, s, PersistNext(i, now)), i, now)
  }

  /** Every issued statement takes effect. */
  function SettleAll(l: Limits, s: State): State
    decreases |s.issued|
  {
    if s.issued == [] then s else SettleAll(l, Next(l, s, StatementDone))
  }

  ghost predicate LiveStays(m: Mem, r: Mem, now: int) {
    forall key :: Fetched(m, key, now).Some? ==> Fetched(r, key, now).Some? && GraphAt(r, key) == GraphAt(m, key)
  }

  lemma TouchedLives(l: Limits, m: Mem, key: string, now: int)
    requires MemOk(l, m)
    ensures LiveStays(m, Touched(m, key, now), now)
  {
    var r := Touched(m, key, now);
    TouchedKeeps(l, m, key, now);
    forall k | Fetched(m, k, now).Some? ensures Fetched(r, k, now).Some? && GraphAt(r, k) == GraphAt(m, k) {
      TouchedRefreshes(l, m, key, now, k);
      TouchedRefreshes(l, m, k, now, k);
      TouchedRefreshes(l, r, k, now, k);
    }
  }

  lemma {:induction false} PersistAllKeeps(l: Limits, s: State, i: nat, now: int)
    requires Inv(l, s) && i < |s.flushes|
    ensures var t := PersistAll(l, s, i, now);
      && Inv(l, t) && t.pending == s.pending && t.flushes == s.flushes[i := []] && LiveStays(s.mem, t.mem, now)
    decreases |s.flushes[i]|
  {
    if s.flushes[i] != [] {
      var t := Next(l, s, PersistNext(i, now));
      NextKeeps(l, s, PersistNext(i, now));
      InvMemory(l, s);
      TouchedLives(l, s.mem, MemKey(s.flushes[i][0]), now);
      PersistAllKeeps(l, t, i, now);
      assert t.flushes[i := []] == s.flushes[i := []];
      hide Inv, Fetched, GraphAt;
    } else {
      assert s.flushes[i := []] == s.flushes;
    }
  }

  lemma {:induction false} SettleAllKeeps(l: Limits, s: State)
    requires Inv(l, s)
    ensures var t := SettleAll(l, s);
      Inv(l, t) && t.issued == [] && t.pending == s.pending && t.flushes == s.flushes && t.mem == s.mem
    decreases |s.issued|
  {
    if s.issued != [] {
      NextKeeps(l, s, StatementDone);
      SettleAllKeeps(l, Next(l, s, StatementDone));
    }
  }

  /** A whole flush and the statements it issues, with nothing in between. */
  function Flushed(l: Limits, s: State, now: int): State {
    SettleAll(l, PersistAll(l, Next(l, s, BeginFlush), |s.flushes|, now))
  }

  lemma FlushedKeeps(l: Limits, s: State, now: int)
    requires Inv(l, s) && forall i :: 0 <= i < |s.flushes| ==> s.flushes[i] == []
    ensures var t := Flushed(l, s, now);
      && Inv(l, t) && t.pending == [] && t.issued == [] && (forall i :: 0 <= i < |t.flushes| ==> t.flushes[i] == [])
      && LiveStays(s.mem, t.mem, now)
  {
    var b, n := Next(l, s, BeginFlush), |s.flushes|;
    NextKeeps(l, s, BeginFlush);
    FlushTakesOver(l, s);
    hide Next, Inv, LiveStays;
    PersistAllKeeps(l, b, n, now);
    SettleAllKeeps(l, PersistAll(l, b, n, now));
  }

  /**
   A flush that runs to its end makes every live resident graph durable: it stays resident, and once the statements
   have taken effect it is the row of its key.
   */
  lemma FlushMakesDurable(l: Limits, s: State, now: int, k: RowKey)
    requires Inv(l, s) && NulFree(k.org) && Fetched(s.mem, MemKey(k), now).Some?
    requires forall i :: 0 <= i < |s.flushes| ==> s.flushes[i] == []
    ensures var t := Flushed(l, s, now);
      && t.pending == [] && t.issued == []
      && GraphAt(t.mem, MemKey(k)) == GraphAt(s.mem, MemKey(k)) == Row(t.table, k)
  {
    hide Inv, Fetched, GraphAt, Flushed, MemKey;
    FlushedKeeps(l, s, now);
    SettledRow(l, Flushed(l, s, now), k);
    FetchedIsResident(s.mem, MemKey(k), now);
  }

  lemma SettledRow(l: Limits, t: State, k: RowKey)
    requires Inv(l, t) && NulFree(k.org) && t.pending == [] && t.issued == [] && forall i :: 0 <= i < |t.flushes| ==> t.flushes[i] == []
    ensures GraphAt(t.mem, MemKey(k)).Some? ==> Row(t.table, k) == GraphAt(t.mem, MemKey(k))
  {
    assert InStep(t, k) && !Queued(t, k);
  }

  lemma FetchedIsResident(m: Mem, key: string, now: int)
    requires Fetched(m, key, now).Some?
    ensures GraphAt(m, key).Some?
  {
  }
}
