/**
 The database-backed graph cache (class PersistingGraphCache of src/cache/graphCachePostgres.ts): each synchronous
 stretch of its methods takes the step of the write-back protocol, whatever the table holds.
 */
module PersistingGraphCacheModel {
  import opened Wrappers
  import opened GraphModel
  import opened CacheMemory
  import opened CacheMutators
  import opened GraphCacheModel
  import opened WriteBack
  import KL = KeyedList

  class PersistingGraphCache {
    const cache: GraphCache        // the inherited in-memory cache
    var pendingPersist: seq<RowKey>
    var persistTimer: bool
    var flushes: seq<seq<RowKey>>  // what each suspended flush has yet to persist
    var issued: seq<Statement>     // statements sent to the pool and not settled

    ghost predicate Valid()
      reads this, cache
    {
      cache.Valid()
    }

    ghost function StateOver(table: Table): State
      reads this, cache
    {
      State(cache.entries, pendingPersist, persistTimer, flushes, issued, table)
    }

    constructor (limits: Limits, leq: (string, string) -> bool, lower: string -> string, trim: string -> string)
      ensures Valid() && fresh(cache) && cache.limits == limits
      ensures forall t: Table :: RowsOk(limits, t) ==> Initial(limits, StateOver(t))
    {
      cache := new GraphCache(limits, leq, lower, trim);
      pendingPersist, persistTimer, flushes, issued := [], false, [], [];
    }

    method SchedulePersist(org: string, repo: string)
      modifies this`pendingPersist, this`persistTimer
      ensures pendingPersist == KL.Put(old(pendingPersist), MemKey, RowKey(org, repo)) && persistTimer
    {
      pendingPersist := KL.Put(pendingPersist, MemKey, RowKey(org, repo));
      persistTimer := true;
    }

    /** A missing org id is skipped, not rejected. */
    method SetGraph(org: string, graph: Graph, now: int)
      requires Valid()
      modifies this, cache
      ensures Valid()
      ensures forall t: Table :: StateOver(t) == Next(cache.limits, old(StateOver(t)), Write(org, graph, now))
    {
      if org == "" { return; }
      var r := cache.SetGraph(org, graph, now);
      SchedulePersist(org, graph.repoId);
    }

    /** The inherited upsert, which ends in the overridden setGraph, and one more scheduling of the same row. */
    method UpsertRepository(org: string, ref: RepoRef, now: int) returns (r: Result<Graph, CacheError>)
      requires Valid()
      modifies this, cache
      ensures Valid()
      ensures r == (if org == "" then Err(MissingOrg) else Ok(Base(old(cache.entries), org, ref, now)))
      ensures forall t: Table :: StateOver(t) == Next(cache.limits, old(StateOver(t)), Write(org, Base(old(cache.entries), org, ref, now), now))
    {
      if org == "" { return Err(MissingOrg); }
      var graph := Upserted(GraphAt(cache.entries, CacheKey(org, ref.repoId)), ref, now);
      SetGraph(org, graph, now);
      PutTwice(old(pendingPersist), RowKey(org, graph.repoId));
      SchedulePersist(org, graph.repoId);
      return Ok(graph);
    }

    method DeleteGraph(org: string, repo: string) returns (r: Result<bool, CacheError>)
      requires Valid()
      modifies this, cache
      ensures Valid()
      ensures org == "" ==> r == Err(MissingOrg) && forall t: Table :: StateOver(t) == old(StateOver(t))
      ensures org != "" ==>
        && r == Ok(GraphAt(old(cache.entries), CacheKey(org, repo)).Some?)
        && forall t: Table :: StateOver(t) == Next(cache.limits, old(StateOver(t)), Erase(org, repo))
    {
      r := cache.DeleteGraph(org, repo);
      if r.Err? { return; }
      pendingPersist := KL.Remove(pendingPersist, MemKey, CacheKey(org, repo));
      issued := issued + [DeleteRow(RowKey(org, repo))];
    }

    /** flush up to its loop: the timer is cleared and the pending set is taken over. */
    method BeginFlush()
      requires Valid()
      modifies this
      ensures Valid()
      ensures forall t: Table :: StateOver(t) == Next(cache.limits, old(StateOver(t)), Event.BeginFlush)
    {
      if persistTimer { persistTimer := false; }
      var pending := pendingPersist;
      pendingPersist := [];
      flushes := flushes + [pending];
    }

    /** One persistRepo call of a running flush. */
    method PersistNext(flush: nat, now: int)
      requires Valid() && flush < |flushes| && flushes[flush] != []
      modifies this, cache
      ensures Valid()
      ensures forall t: Table :: StateOver(t) == Next(cache.limits, old(StateOver(t)), Event.PersistNext(flush, now))
    {
      FetchedClones(cache.limits, cache.entries, MemKey(flushes[flush][0]), now);
      hide CloneGraph, Fetched, Touched, MemOk;
      var item := flushes[flush][0];
      flushes := flushes[flush := flushes[flush][1..]];
      if item.org == "" { return; }
      var graph := cache.GetGraph(item.org, item.repo, now);
      if graph.value.Some? {
        issued := issued + [UpsertRow(item, graph.value.value)];
      }
    }

    /** ensureLoaded, given the row its SELECT returns once the statements issued before it have taken effect. */
    method EnsureLoaded(org: string, repo: string, row: Option<Graph>, now: int)
      requires Valid()
      modifies this, cache
      ensures Valid()
      ensures forall t: Table :: row == Row(ExecuteAll(t, old(issued)), RowKey(org, repo)) ==>
        StateOver(t) == Next(cache.limits, old(StateOver(t)), Load(org, repo, now))
      ensures
        Owned(old(cache.entries), now) && Holds(cache.limits) && NulFree(org) && org != ""
          && (row.Some? ==> RowOk(cache.limits, RowKey(org, repo), row.value)) ==>
        GraphAt(cache.entries, CacheKey(org, repo)) ==
          if Fetched(old(cache.entries), CacheKey(org, repo), now).Some? then GraphAt(old(cache.entries), CacheKey(org, repo)) else row
    {
      hide Fetched, Touched, MemOk, Stored, ExecuteAll, GraphAt, Owned, Holds, NulFree, RowOk, CacheKey;
      LoadedOrRow(cache.limits, cache.entries, org, repo, row, now);
      if org == "" { return; }
      var present := cache.GetGraph(org, repo, now);
      if present.value.Some? { return; }
      if row.Some? {
        var r := cache.SetGraph(org, row.value, now);
      }
    }
  }

  /** What the key answers after the two steps of a load. */
  lemma LoadedOrRow(l: Limits, m: Mem, org: string, repo: string, row: Option<Graph>, now: int)
    requires MemOk(l, m)
    ensures
      Owned(m, now) && Holds(l) && NulFree(org) && (row.Some? ==> RowOk(l, RowKey(org, repo), row.value)) ==>
      var seen := Touched(m, CacheKey(org, repo), now);
      && (Fetched(m, CacheKey(org, repo), now).Some? ==> GraphAt(seen, CacheKey(org, repo)) == GraphAt(m, CacheKey(org, repo)))
      && (Fetched(m, CacheKey(org, repo), now).None? ==> GraphAt(seen, CacheKey(org, repo)) == None)
      && (row.Some? ==> GraphAt(Stored(l, seen, org, row.value, now), CacheKey(org, repo)) == row)
  {
    TouchedKeeps(l, m, CacheKey(org, repo), now);
    if Owned(m, now) && Holds(l) && NulFree(org) && row.Some? && RowOk(l, RowKey(org, repo), row.value) {
      TouchedOwned(l, m, CacheKey(org, repo), now);
      StoredFound(l, Touched(m, CacheKey(org, repo), now), org, row.value, now);
    }
  }

  lemma FetchedClones(l: Limits, m: Mem, key: string, now: int)
    requires MemOk(l, m)
    ensures var e := Fetched(m, key, now); e.Some? ==> CloneGraph(e.value.graph) == e.value.graph
  {
    TouchedKeeps(l, m, key, now);
    var e := Fetched(m, key, now);
    if e.Some? { SanitizeTwice(l, e.value.graph); }
  }

  lemma {:induction false} PutTwice(s: seq<RowKey>, k: RowKey)
    ensures KL.Put(KL.Put(s, MemKey, k), MemKey, k) == KL.Put(s, MemKey, k)
  {
    if s != [] && MemKey(s[0]) != MemKey(k) {
      PutTwice(s[1..], k);
      assert ([s[0]] + KL.Put(s[1..], MemKey, k))[1..] == KL.Put(s[1..], MemKey, k);
    } else if s != [] {
      assert ([k] + s[1..])[1..] == s[1..];
    }
  }
}
