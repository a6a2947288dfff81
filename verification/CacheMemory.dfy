/**
 The entries Map of the graph cache as a value: storing a graph, reading one, expiry and least-recently-used eviction
 (src/cache/graphCache.ts).
 */
module CacheMemory {
  import opened Wrappers
  import opened GraphModel
  import opened GraphIndexes
  import opened StableSort
  import KL = KeyedList

  datatype CacheEntry = CacheEntry(graph: Graph, expiresAt: int, lastAccessedAt: int, indexes: Indexes)

  // One entry of the insertion-ordered entries Map.
  datatype Slot = Slot(key: string, entry: CacheEntry)

  type Mem = seq<Slot>

  function KeyOf(s: Slot): string { s.key }

  function EntryAt(m: Mem, key: string): Option<CacheEntry> {
    var s := KL.Find(m, KeyOf, key);
    if s.Some? then Some(s.value.entry) else None
  }

  function GraphAt(m: Mem, key: string): Option<Graph> {
    var e := EntryAt(m, key);
    if e.Some? then Some(e.value.graph) else None
  }

  // ---- Writing ------------------------------------------------------------------------------------------------

  function BuildEntry(l: Limits, g: Graph, now: int): CacheEntry {
    CacheEntry(g, now + l.ttlMs, now, BuildIndexes(g))
  }

  predicate Expired(s: Slot, now: int) { now > s.entry.expiresAt }

  function DropExpired(m: Mem, now: int): Mem {
    if m == [] then []
    else
      var n := |m| - 1;
      DropExpired(m[..n], now) + if Expired(m[n], now) then [] else [m[n]]
  }

  predicate LessRecent(a: Slot, b: Slot) { a.entry.lastAccessedAt <= b.entry.lastAccessedAt }

  function Oldest(m: Mem): Slot
    requires m != []
    ensures Oldest(m) in m
  {
    SortPermutes(m, LessRecent);
    SortMembers(m, LessRecent);
    Sort(m, LessRecent)[0]
  }

  /** The eviction loop: drop the least recently accessed entry until at most max are left. */
  function EvictLru(m: Mem, max: nat): Mem
    decreases |m|
  {
    if |m| <= max then m
    else
      var key := Oldest(m).key;
      OldestShrinks(m);
      EvictLru(KL.Remove(m, KeyOf, key), max)
  }

  lemma OldestShrinks(m: Mem)
    requires m != []
    ensures |KL.Remove(m, KeyOf, Oldest(m).key)| < |m|
  {
    var i :| 0 <= i < |m| && m[i] == Oldest(m);
    assert KeyOf(m[i]) == Oldest(m).key;
    KL.RemoveMembers(m, KeyOf, Oldest(m).key);
  }

  function Written(l: Limits, org: string, g: Graph, now: int): Slot {
    Slot(CacheKey(org, g.repoId), BuildEntry(l, Sanitize(l, g), now))
  }

  /** setGraph: write the sanitized graph, then drop what has expired, then evict down to the limit. */
  function Stored(l: Limits, m: Mem, org: string, g: Graph, now: int): Mem {
    EvictLru(DropExpired(KL.Put(m, KeyOf, Written(l, org, g, now)), now), l.maxRepos)
  }

  // ---- Reading ------------------------------------------------------------------------------------------------

  /** getEntry: an expired entry is dropped and not returned; a live one is marked as accessed. */
  function Touched(m: Mem, key: string, now: int): Mem {
    match KL.Find(m, KeyOf, key)
    case None => m
    case Some(s) =>
      if Expired(s, now) then KL.Remove(m, KeyOf, key)
      else KL.Put(m, KeyOf, s.(entry := s.entry.(lastAccessedAt := now)))
  }

  function Fetched(m: Mem, key: string, now: int): Option<CacheEntry> {
    match KL.Find(m, KeyOf, key)
    case None => None
    case Some(s) => if Expired(s, now) then None else Some(s.entry.(lastAccessedAt := now))
  }

  // ---- The invariant ------------------------------------------------------------------------------------------

  /** An entry's indexes answer for its graph, and its graph is sanitized. */
  ghost predicate Coherent(l: Limits, e: CacheEntry) {
    e.indexes == BuildIndexes(e.graph) && Sanitize(l, e.graph) == e.graph
  }

  ghost predicate MemOk(l: Limits, m: Mem) {
    && KL.UniqueKeys(m, KeyOf)
    && |m| <= l.maxRepos
    && forall s :: s in m ==> Coherent(l, s.entry)
  }

  lemma {:induction false} DropExpiredMembers(m: Mem, now: int)
    ensures forall s :: s in DropExpired(m, now) <==> s in m && !Expired(s, now)
    ensures |DropExpired(m, now)| <= |m|
  {
    if m != [] {
      var n := |m| - 1;
      assert m == m[..n] + [m[n]];
      DropExpiredMembers(m[..n], now);
    }
  }

  lemma {:induction false} DropExpiredUnique(m: Mem, now: int)
    requires KL.UniqueKeys(m, KeyOf)
    ensures KL.UniqueKeys(DropExpired(m, now), KeyOf)
  {
    if m != [] {
      var n := |m| - 1;
      DropExpiredUnique(m[..n], now);
      DropExpiredMembers(m[..n], now);
      var r := DropExpired(m[..n], now);
      forall j | 0 <= j < |r| ensures KeyOf(r[j]) != KeyOf(m[n]) {
        assert r[j] in r;
        var i :| 0 <= i < n && m[..n][i] == r[j];
        assert m[i] == r[j];
      }
    }
  }

  lemma OldestIsLeast(m: Mem)
    requires m != []
    ensures forall s :: s in m ==> LessRecent(Oldest(m), s)
  {
    var r := Sort(m, LessRecent);
    SortSorted(m, LessRecent);
    SortMembers(m, LessRecent);
    SortPermutes(m, LessRecent);
    forall s | s in m ensures LessRecent(Oldest(m), s) {
      assert s in r;
      var i :| 0 <= i < |r| && r[i] == s;
    }
  }

  /**
   Eviction keeps the newest: the survivors are entries of the old list, as many as fit, and no evicted entry was
   accessed later than a survivor.
   */
  lemma {:induction false} EvictLruKeepsRecent(m: Mem, max: nat)
    requires KL.UniqueKeys(m, KeyOf)
    ensures var r := EvictLru(m, max);
      && KL.UniqueKeys(r, KeyOf)
      && |r| == (if |m| <= max then |m| else max)
      && (forall s :: s in r ==> s in m)
      && (forall s, t :: s in m && s !in r && t in r ==> LessRecent(s, t))
    decreases |m|
  {
    if |m| > max {
      var o := Oldest(m);
      var t := KL.Remove(m, KeyOf, o.key);
      OldestShrinks(m);
      OldestIsLeast(m);
      KL.RemoveMembers(m, KeyOf, o.key);
      RemoveOne(m, o);
      EvictLruKeepsRecent(t, max);
      forall s | s in m && s !in t ensures s == o { KL.FindIn(m, KeyOf, s); KL.FindIn(m, KeyOf, o); }
    }
  }

  lemma {:induction false} RemoveOne(m: Mem, o: Slot)
    requires KL.UniqueKeys(m, KeyOf) && o in m
    ensures |KL.Remove(m, KeyOf, o.key)| == |m| - 1
  {
    var t := m[1..];
    assert KL.UniqueKeys(t, KeyOf) by {
      forall i, j | 0 <= i < j < |t| ensures KeyOf(t[i]) != KeyOf(t[j]) { assert t[i] == m[i + 1] && t[j] == m[j + 1]; }
    }
    if KeyOf(m[0]) == o.key {
      RemoveAbsent(t, o.key);
    } else {
      assert m == [m[0]] + t;
      RemoveOne(t, o);
    }
  }

  lemma {:induction false} RemoveAbsent(m: Mem, key: string)
    requires forall i :: 0 <= i < |m| ==> KeyOf(m[i]) != key
    ensures KL.Remove(m, KeyOf, key) == m
  {
    if m != [] {
      assert m == [m[0]] + m[1..];
      RemoveAbsent(m[1..], key);
    }
  }

  /** After any setGraph: at most maxRepos entries, none expired, every one coherent; each is the written one or an old one. */
  lemma StoredKeeps(l: Limits, m: Mem, org: string, g: Graph, now: int)
    requires MemOk(l, m)
    ensures var r := Stored(l, m, org, g, now);
      && MemOk(l, r)
      && (forall s :: s in r ==> !Expired(s, now))
      && (forall s :: s in r ==> s == Written(l, org, g, now) || (s in m && s.key != CacheKey(org, g.repoId)))
  {
    var w := Written(l, org, g, now);
    var p := KL.Put(m, KeyOf, w);
    SanitizeTwice(l, g);
    KL.PutUnique(m, KeyOf, w);
    DropExpiredMembers(p, now);
    DropExpiredUnique(p, now);
    EvictLruKeepsRecent(DropExpired(p, now), l.maxRepos);
    hide Sanitize, BuildIndexes, EvictLru, DropExpired, CacheKey;
  }

  /** A live entry of another repository is lost only from a full cache, to entries accessed no earlier than it. */
  lemma StoredEvictsOldest(l: Limits, m: Mem, org: string, g: Graph, now: int, s: Slot)
    requires MemOk(l, m) && s in m && s.key != CacheKey(org, g.repoId) && !Expired(s, now)
    ensures var r := Stored(l, m, org, g, now); s !in r ==> |r| == l.maxRepos && forall t :: t in r ==> LessRecent(s, t)
  {
    hide Sanitize, BuildIndexes, CacheKey;
    var w := Written(l, org, g, now);
    var p := KL.Put(m, KeyOf, w);
    KL.PutUnique(m, KeyOf, w);
    DropExpiredMembers(p, now);
    DropExpiredUnique(p, now);
    EvictLruKeepsRecent(DropExpired(p, now), l.maxRepos);
    var i :| 0 <= i < |m| && m[i] == s;
    assert p[i] == s && s in p;
  }

  /** Every other org and repository keeps its entry unchanged or loses it. */
  lemma StoredIsolates(l: Limits, m: Mem, org: string, g: Graph, now: int, org': string, repo': string)
    requires MemOk(l, m) && NulFree(org) && NulFree(org')
    requires (org', repo') != (org, g.repoId)
    ensures var r := EntryAt(Stored(l, m, org, g, now), CacheKey(org', repo')); r == None || r == EntryAt(m, CacheKey(org', repo'))
  {
    var key := CacheKey(org', repo');
    CacheKeyInjective(org, g.repoId, org', repo');
    StoredKeeps(l, m, org, g, now);
    var r := Stored(l, m, org, g, now);
    hide Stored, CacheKey, Coherent;
    var s := KL.Find(r, KeyOf, key);
    if s.Some? { KL.FindIn(m, KeyOf, s.value); }
  }

  lemma OldestOfAppend(m: Mem, w: Slot)
    requires m != [] && forall s :: s in m ==> LessRecent(s, w)
    ensures Oldest(m + [w]) in m
  {
    var a := Sort(m, LessRecent);
    SortConcat(m, [w], LessRecent);
    SortPermutes(m, LessRecent);
    SortMembers(m, LessRecent);
    assert Sort([w], LessRecent) == [w];
    assert a[0] in a && a[0] in m;
    assert Merge(a, [w], LessRecent)[0] == a[0];
  }

  /**
   While the clock never goes back, the entry just written is in the cache exactly when the cache can hold one: the
   time to live is not negative and at least one repository may be kept.
   */
  lemma StoredSurvives(l: Limits, m: Mem, org: string, g: Graph, now: int)
    requires MemOk(l, m)
    requires forall s :: s in m ==> s.entry.lastAccessedAt <= now
    ensures var w := Written(l, org, g, now);
      KL.Find(Stored(l, m, org, g, now), KeyOf, w.key) == Some(w) <==> l.ttlMs >= 0 && l.maxRepos >= 1
  {
    var w, r := Written(l, org, g, now), Stored(l, m, org, g, now);
    var p := KL.Put(m, KeyOf, w);
    var d := DropExpired(p, now);
    StoredKeeps(l, m, org, g, now);
    hide Sanitize, BuildIndexes, CacheKey;
    KL.PutUnique(m, KeyOf, w);
    KL.PutShape(m, KeyOf, w);
    DropExpiredMembers(p, now);
    DropExpiredUnique(p, now);
    KL.FindPut(m, KeyOf, w, w.key);
    assert w in p;
    EvictLruKeepsRecent(d, l.maxRepos);
    if l.ttlMs >= 0 && l.maxRepos >= 1 {
      assert w in d;
      if |d| > l.maxRepos {
        assert p == m + [w];
        NewestSurvives(m, w, l.maxRepos, now);
      }
      KL.FindIn(r, KeyOf, w);
    }
  }

  /** A fresh entry appended to a full list is not the one evicted, however many others share its access time. */
  lemma NewestSurvives(m: Mem, w: Slot, max: nat, now: int)
    requires KL.UniqueKeys(m + [w], KeyOf) && |m| <= max && max >= 1
    requires !Expired(w, now) && forall s :: s in m ==> LessRecent(s, w)
    ensures w in EvictLru(DropExpired(m + [w], now), max)
  {
    DropLast(m, w, now);
    var e := DropExpired(m, now);
    var d := e + [w];
    DropExpiredMembers(m + [w], now);
    DropExpiredUnique(m + [w], now);
    DropExpiredMembers(m, now);
    assert w in d;
    if |d| > max {
      OldestOfAppend(e, w);
      var o := Oldest(d);
      RemoveOne(d, o);
      KL.RemoveMembers(d, KeyOf, o.key);
      NotLast(e, w, o);
    }
  }

  lemma DropLast(m: Mem, w: Slot, now: int)
    requires !Expired(w, now)
    ensures DropExpired(m + [w], now) == DropExpired(m, now) + [w]
  {
    assert (m + [w])[..|m|] == m;
  }

  lemma NotLast(e: Mem, w: Slot, o: Slot)
    requires KL.UniqueKeys(e + [w], KeyOf) && o in e
    ensures o.key != w.key
  {
    var i :| 0 <= i < |e| && e[i] == o;
    var t := e + [w];
    assert KeyOf(t[i]) != KeyOf(t[|e|]);
  }

  /** Reading keeps the invariant and changes no graph: it only refreshes the access time or drops an expired entry. */
  lemma TouchedKeeps(l: Limits, m: Mem, key: string, now: int)
    requires MemOk(l, m)
    ensures MemOk(l, Touched(m, key, now))
    ensures forall k :: GraphAt(Touched(m, key, now), k) == (if k == key && Fetched(m, key, now).None? then None else GraphAt(m, k))
    ensures Fetched(m, key, now).Some? ==> Coherent(l, Fetched(m, key, now).value) && GraphAt(m, key) == Some(Fetched(m, key, now).value.graph)
  {
    var s := KL.Find(m, KeyOf, key);
    if s.Some? {
      var t := s.value.(entry := s.value.entry.(lastAccessedAt := now));
      KL.RemoveMembers(m, KeyOf, key);
      KL.PutUnique(m, KeyOf, t);
      KL.PutShape(m, KeyOf, t);
      forall k ensures GraphAt(Touched(m, key, now), k) == if k == key && Fetched(m, key, now).None? then None else GraphAt(m, k) {
        KL.FindPut(m, KeyOf, t, k);
        KL.FindRemove(m, KeyOf, key, k);
      }
    }
  }

  /**
   A read of a live entry refreshes its access time and changes nothing else of it; a read of an expired one drops
   it; every other entry stays as it is. What is found is what then stands there.
   */
  lemma TouchedRefreshes(l: Limits, m: Mem, key: string, now: int, k: string)
    requires MemOk(l, m)
    ensures EntryAt(Touched(m, key, now), k) ==
      match EntryAt(m, k)
      case None => None
      case Some(e) => if k != key then Some(e) else if now > e.expiresAt then None else Some(e.(lastAccessedAt := now))
    ensures Fetched(m, key, now) == EntryAt(Touched(m, key, now), key)
  {
    var s := KL.Find(m, KeyOf, key);
    if s.Some? {
      var t := s.value.(entry := s.value.entry.(lastAccessedAt := now));
      KL.FindPut(m, KeyOf, t, k);
      KL.FindPut(m, KeyOf, t, key);
      KL.FindRemove(m, KeyOf, key, k);
      KL.FindRemove(m, KeyOf, key, key);
    }
  }

  /** The written entry carries the sanitized graph, was accessed now, and is found exactly until its time is up. */
  lemma StoredLives(l: Limits, m: Mem, org: string, g: Graph, now: int, later: int)
    requires MemOk(l, m) && l.ttlMs >= 0 && l.maxRepos >= 1
    requires forall s :: s in m ==> s.entry.lastAccessedAt <= now
    ensures var key, r := CacheKey(org, g.repoId), Stored(l, m, org, g, now);
      && EntryAt(r, key).Some?
      && var e := EntryAt(r, key).value;
      && e.graph == Sanitize(l, g) && e.lastAccessedAt == now && e.expiresAt == now + l.ttlMs
      && (Fetched(r, key, later).Some? <==> later - now <= l.ttlMs)
  {
    StoredSurvives(l, m, org, g, now);
  }

  /** An entry read after every other entry was written or read outlives the next write of another key. */
  lemma ReadSurvives(l: Limits, m: Mem, key: string, now: int, org: string, g: Graph, later: int)
    requires MemOk(l, m) && l.maxRepos >= 2 && key != CacheKey(org, g.repoId)
    requires EntryAt(m, key).Some? && now <= EntryAt(m, key).value.expiresAt && later <= EntryAt(m, key).value.expiresAt
    requires forall s :: s in m && s.key != key ==> s.entry.lastAccessedAt < now
    ensures EntryAt(Stored(l, Touched(m, key, now), org, g, later), key) == Some(EntryAt(m, key).value.(lastAccessedAt := now))
  {
    var m1 := Touched(m, key, now);
    var r := Stored(l, m1, org, g, later);
    TouchedKeeps(l, m, key, now);
    TouchedRefreshes(l, m, key, now, key);
    TouchedSlots(m, key, now);
    var s := KL.Find(m1, KeyOf, key).value;
    hide Stored, Touched, Coherent, CacheKey;
    StoredEvictsOldest(l, m1, org, g, later, s);
    StoredKeeps(l, m1, org, g, later);
    if s in r {
      KL.FindIn(r, KeyOf, s);
    } else {
      assert KeyOf(r[0]) != KeyOf(r[1]) && r[0] in r && r[1] in r;
      var t := if r[0].key == CacheKey(org, g.repoId) then r[1] else r[0];
      assert t in m1 && t.key != CacheKey(org, g.repoId);
      OthersAreOlder(m, m1, key, s, t, now);
      assert false;
    }
  }

  lemma TouchedSlots(m: Mem, key: string, now: int)
    requires KL.UniqueKeys(m, KeyOf)
    ensures KL.UniqueKeys(Touched(m, key, now), KeyOf)
    ensures forall s :: s in Touched(m, key, now) && s.key != key ==> s in m
  {
    var s := KL.Find(m, KeyOf, key);
    if s.Some? {
      KL.RemoveMembers(m, KeyOf, key);
      KL.PutUnique(m, KeyOf, s.value.(entry := s.value.entry.(lastAccessedAt := now)));
    }
  }

  lemma OthersAreOlder(m: Mem, m1: Mem, key: string, s: Slot, t: Slot, now: int)
    requires KL.UniqueKeys(m1, KeyOf) && s in m1 && t in m1 && s != t && s.key == key && s.entry.lastAccessedAt == now
    requires forall u :: u in m1 && u.key != key ==> u in m
    requires forall u :: u in m && u.key != key ==> u.entry.lastAccessedAt < now
    ensures !LessRecent(s, t)
  {
    KL.FindIn(m1, KeyOf, s);
    KL.FindIn(m1, KeyOf, t);
  }

  // ---- Runs of the cache ------------------------------------------------------------------------------------------

  // One call that writes or reads an entry, with its clock reading.
  datatype Op = Put(org: string, graph: Graph, now: int) | Get(org: string, repo: string, now: int)

  function After(l: Limits, m: Mem, op: Op): Mem {
    match op
    case Put(org, g, now) => Stored(l, m, org, g, now)
    case Get(org, repo, now) => Touched(m, CacheKey(org, repo), now)
  }

  /** The memory after a run of calls on a fresh cache. */
  function MemOf(l: Limits, ops: seq<Op>): Mem {
    if ops == [] then [] else After(l, MemOf(l, ops[..|ops| - 1]), ops[|ops| - 1])
  }

  ghost predicate Advancing(ops: seq<Op>) { forall i, j :: 0 <= i < j < |ops| ==> ops[i].now < ops[j].now }

  lemma {:induction false} RunAccesses(l: Limits, ops: seq<Op>)
    requires Advancing(ops)
    ensures MemOk(l, MemOf(l, ops))
    ensures ops != [] ==> forall s :: s in MemOf(l, ops) ==> s.entry.lastAccessedAt <= ops[|ops| - 1].now
    ensures ops == [] ==> MemOf(l, ops) == []
  {
    if ops != [] {
      var n := |ops| - 1;
      var m, op := MemOf(l, ops[..n]), ops[n];
      RunAccesses(l, ops[..n]);
      assert n > 0 ==> ops[..n][n - 1].now < op.now;
      match op
      case Put(org, g, now) => StoredKeeps(l, m, org, g, now);
      case Get(org, repo, now) =>
        TouchedKeeps(l, m, CacheKey(org, repo), now);
        TouchedSlots(m, CacheKey(org, repo), now);
        TouchedRefreshes(l, m, CacheKey(org, repo), now, CacheKey(org, repo));
        AccessedBy(Touched(m, CacheKey(org, repo), now), m, CacheKey(org, repo), now);
    }
  }

  lemma AccessedBy(r: Mem, m: Mem, key: string, now: int)
    requires KL.UniqueKeys(r, KeyOf) && forall s :: s in r && s.key != key ==> s in m
    requires EntryAt(r, key).Some? ==> EntryAt(r, key).value.lastAccessedAt <= now
    requires forall s :: s in m ==> s.entry.lastAccessedAt <= now
    ensures forall s :: s in r ==> s.entry.lastAccessedAt <= now
  {
    forall s | s in r ensures s.entry.lastAccessedAt <= now {
      if s.key == key { KL.FindIn(r, KeyOf, s); }
    }
  }

  /**
   In every run with an advancing clock and room for two, an entry that the last call read outlives the next write of
   another key, as long as it has not expired.
   */
  lemma LastReadSurvives(l: Limits, ops: seq<Op>, org: string, repo: string, now: int, org': string, g: Graph, later: int)
    requires Advancing(ops + [Get(org, repo, now), Put(org', g, later)]) && l.maxRepos >= 2
    requires CacheKey(org, repo) != CacheKey(org', g.repoId)
    requires var e := EntryAt(MemOf(l, ops), CacheKey(org, repo)); e.Some? && later <= e.value.expiresAt
    ensures var r := MemOf(l, ops + [Get(org, repo, now), Put(org', g, later)]);
      && EntryAt(r, CacheKey(org, repo)).Some?
      && EntryAt(r, CacheKey(org, repo)).value == EntryAt(MemOf(l, ops), CacheKey(org, repo)).value.(lastAccessedAt := now)
  {
    var all := ops + [Get(org, repo, now), Put(org', g, later)];
    var n := |ops|;
    assert all[..n + 1] == ops + [Get(org, repo, now)] && all[..n + 1][..n] == ops;
    assert all[n].now < all[n + 1].now;
    assert forall i :: 0 <= i < n ==> all[i] == ops[i];
    assert n > 0 ==> all[n - 1].now < all[n].now;
    RunAccesses(l, ops);
    ReadSurvives(l, MemOf(l, ops), CacheKey(org, repo), now, org', g, later);
  }

  /** Deleting removes one entry and no other. */
  lemma RemovedExactly(m: Mem, key: string, k: string)
    ensures EntryAt(KL.Remove(m, KeyOf, key), k) == if k == key then None else EntryAt(m, k)
  {
    KL.FindRemove(m, KeyOf, key, k);
  }

  /** Sweeping leaves exactly the entries whose time is not up. */
  lemma SweptExactly(l: Limits, m: Mem, now: int, k: string)
    requires MemOk(l, m)
    ensures EntryAt(DropExpired(m, now), k) ==
      match EntryAt(m, k) case None => None case Some(e) => if now > e.expiresAt then None else Some(e)
  {
    var r := DropExpired(m, now);
    DropExpiredMembers(m, now);
    DropExpiredUnique(m, now);
    var s, t := KL.Find(m, KeyOf, k), KL.Find(r, KeyOf, k);
    if t.Some? { KL.FindIn(m, KeyOf, t.value); }
    if s.Some? && !Expired(s.value, now) { KL.FindIn(r, KeyOf, s.value); }
  }

  lemma RemovedKeeps(l: Limits, m: Mem, key: string)
    requires MemOk(l, m)
    ensures MemOk(l, KL.Remove(m, KeyOf, key))
  {
    KL.RemoveMembers(m, KeyOf, key);
  }

  lemma DroppedKeeps(l: Limits, m: Mem, now: int)
    requires MemOk(l, m)
    ensures MemOk(l, DropExpired(m, now))
  {
    DropExpiredMembers(m, now);
    DropExpiredUnique(m, now);
  }

  // ---- What a coherent entry answers --------------------------------------------------------------------------

  function TransitiveAt(e: CacheEntry, file: string): seq<string> {
    if file in e.indexes.transitive then e.indexes.transitive[file] else []
  }

  /** In every reachable state the direct indexes answer what a scan of the stored edge list answers, in its order. */
  lemma CoherentAnswersScan(l: Limits, e: CacheEntry, file: string)
    requires Coherent(l, e)
    ensures At(e.indexes.dependents, file) == Scan(e.graph.dependencies, ToOf, file)
    ensures At(e.indexes.imports, file) == Scan(e.graph.dependencies, FromOf, file)
    ensures forall i, j :: 0 <= i < j < |e.graph.dependencies| ==> e.graph.dependencies[i] != e.graph.dependencies[j]
  {
    IndexAnswersScan(e.graph.dependencies, ToOf, file);
    IndexAnswersScan(e.graph.dependencies, FromOf, file);
    DedupeUnique(e.graph.dependencies);
    assert e.graph.dependencies == Dedupe(e.graph.dependencies);
  }

  /** The file index answers for exactly the paths of the stored tree, with a file of that path. */
  lemma CoherentFindsFiles(l: Limits, e: CacheEntry, path: string)
    requires Coherent(l, e)
    ensures path in e.indexes.files <==> exists i :: 0 <= i < |e.graph.fileTree| && e.graph.fileTree[i].path == path
    ensures path in e.indexes.files ==> e.indexes.files[path] in e.graph.fileTree && e.indexes.files[path].path == path
  {
    FileIndexHolds(e.graph.fileTree, path);
    assert KL.HasKey(e.graph.fileTree, PathOf, path) <==> exists i :: 0 <= i < |e.graph.fileTree| && e.graph.fileTree[i].path == path by {
      if i :| 0 <= i < |e.graph.fileTree| && e.graph.fileTree[i].path == path { assert PathOf(e.graph.fileTree[i]) == path; }
    }
  }

  /** The transitive index answers the breadth-first search for every file, also for one without dependents. */
  lemma CoherentAnswersSearch(l: Limits, e: CacheEntry, file: string)
    requires Coherent(l, e)
    ensures TransitiveAt(e, file) == TransitiveDependents(Index(e.graph.dependencies, ToOf), file)
  {
  }
}
