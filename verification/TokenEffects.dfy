/** What each call makes of a token pool, record by record (src/api/tokenPool.ts). */
module TokenEffects {
  import opened Wrappers
  import opened TokenPoolModel
  import KL = KeyedList

  /** The i-th record is the first of its id. */
  ghost predicate FirstOf(tokens: seq<TokenRecord>, i: nat, id: string) {
    i < |tokens| && tokens[i].id == id && forall j :: 0 <= j < i ==> tokens[j].id != id
  }

  /** Of the pool of p only the i-th record changes, to t; the strategy, the other pools and the cursors stay. */
  ghost predicate OnlyRecord(s: State, r: State, p: Provider, i: nat, t: TokenRecord)
    requires p in s.pools && i < |s.pools[p].tokens|
  {
    r == s.(pools := s.pools[p := s.pools[p].(tokens := s.pools[p].tokens[i := t])])
  }

  lemma FirstIsFound(tokens: seq<TokenRecord>, i: nat, id: string)
    requires FirstOf(tokens, i, id)
    ensures IndexOf(tokens, id) == i
  {
    var j := IndexOf(tokens, id);
    assert i <= j <= i;
  }

  /** Disabling makes the first record of the id unusable, enabling makes it usable if it is not exhausted. */
  lemma DisableDisables(s: State, p: Provider, id: string, disabled: bool, i: nat)
    requires p in s.pools && FirstOf(s.pools[p].tokens, i, id)
    ensures var r := Step(s, DisableToken(p, id, disabled)); var before := s.pools[p].tokens[i];
      && OnlyRecord(s, r, p, i, before.(disabled := disabled))
      && (Usable(r.pools[p].tokens[i]) <==> !disabled && before.remaining > 0)
  {
    FirstIsFound(s.pools[p].tokens, i, id);
  }

  /** Where ids are distinct, no selection returns a disabled token. */
  lemma DisabledIsOut(s: State, p: Provider, id: string)
    requires p in s.pools && forall i, j :: 0 <= i < j < |s.pools[p].tokens| ==> s.pools[p].tokens[i].id != s.pools[p].tokens[j].id
    ensures Out(Step(s, DisableToken(p, id, true)), p, id)
  {
    var tokens := s.pools[p].tokens;
    var i := IndexOf(tokens, id);
    if i < |tokens| { DisableDisables(s, p, id, true, i); }
  }

  /** New limits make the first record of the id usable exactly when something remains and it is not disabled. */
  lemma RateLimitUpdates(s: State, p: Provider, id: string, limit: int, remaining: int, resetTime: int, i: nat)
    requires p in s.pools && FirstOf(s.pools[p].tokens, i, id)
    ensures var r := Step(s, UpdateRateLimit(p, id, limit, remaining, resetTime)); var before := s.pools[p].tokens[i];
      && OnlyRecord(s, r, p, i, before.(limit := limit, remaining := remaining, resetTime := Some(resetTime)))
      && (Usable(r.pools[p].tokens[i]) <==> !before.disabled && remaining > 0)
  {
    FirstIsFound(s.pools[p].tokens, i, id);
  }

  /** Assigning adds the repository to the first record of the id, once, and forgets none. */
  lemma AssignAssigns(s: State, p: Provider, id: string, repo: string, i: nat)
    requires p in s.pools && FirstOf(s.pools[p].tokens, i, id)
    ensures var r := Step(s, AssignRepo(p, id, repo));
      && p in r.pools && |r.pools[p].tokens| == |s.pools[p].tokens|
      && var before, after := s.pools[p].tokens[i], r.pools[p].tokens[i];
      && OnlyRecord(s, r, p, i, before.(assignedRepos := after.assignedRepos))
      && (forall x :: x in after.assignedRepos <==> x == repo || x in before.assignedRepos)
      && KL.UniqueKeys(after.assignedRepos, (x: string) => x)
  {
    FirstIsFound(s.pools[p].tokens, i, id);
    var all, same := s.pools[p].tokens[i].assignedRepos + [repo], (x: string) => x;
    var kept := KL.KeepFirst(all, same);
    KL.KeepFirstFinds(all, same);
    forall x | x in all ensures x in kept {
      var j :| 0 <= j < |all| && all[j] == x;
      assert same(all[j]) == x;
      assert KL.Find(kept, same, x) == KL.Find(all, same, x);
    }
    assert forall x :: x in kept ==> x in all;
  }

  /** A call for an id no record has changes nothing. */
  lemma UnknownIdIgnored(s: State, ev: Event)
    requires (ev.DisableToken? || ev.UpdateRateLimit? || ev.AssignRepo?)
    requires ev.provider in s.pools ==>
      forall i :: 0 <= i < |s.pools[ev.provider].tokens| ==> s.pools[ev.provider].tokens[i].id != ev.id
    ensures Step(s, ev) == s
  {
    var p := ev.provider;
    if p in s.pools {
      var tokens := s.pools[p].tokens;
      assert IndexOf(tokens, ev.id) == |tokens|;
      assert s.pools[p := s.pools[p].(tokens := tokens)] == s.pools;
    }
  }

  /** Removing leaves exactly the records of other ids, in order. */
  lemma RemoveRemoves(s: State, p: Provider, id: string)
    requires p in s.pools
    ensures var r := Step(s, RemoveToken(p, id));
      && r == s.(pools := s.pools[p := s.pools[p].(tokens := r.pools[p].tokens)])
      && (forall t :: t in r.pools[p].tokens <==> t in s.pools[p].tokens && t.id != id)
      && KL.Subsequence(r.pools[p].tokens, s.pools[p].tokens)
  {
    WithoutExact(s.pools[p].tokens, id);
    WithoutInOrder(s.pools[p].tokens, id);
  }

  lemma {:induction false} WithoutInOrder(tokens: seq<TokenRecord>, id: string)
    ensures KL.Subsequence(Without(tokens, id), tokens)
  {
    if tokens != [] {
      var n := |tokens| - 1;
      assert tokens == tokens[..n] + [tokens[n]];
      WithoutInOrder(tokens[..n], id);
      KL.SubsequenceConcat(Without(tokens[..n], id), tokens[..n], if tokens[n].id == id then [] else [tokens[n]], [tokens[n]]);
    }
  }

  /** Adding puts the record last, in the pool of its provider or in a new round-robin one. */
  lemma AddAdds(s: State, p: Provider, t: TokenRecord)
    ensures var r := Step(s, AddToken(p, t));
      && r == s.(pools := s.pools[p := r.pools[p]])
      && r.pools[p].tokens == (if p in s.pools then s.pools[p].tokens else []) + [t]
      && r.pools[p].strategy == if p in s.pools then s.pools[p].strategy else RoundRobin
  {
  }

  /** A selection stamps the record it returns and changes no other; it uses up a turn only when it takes one. */
  lemma SelectStamps(s: State, p: Provider, repo: Option<string>, now: int)
    requires Selected(s, p, repo, now).Some?
    ensures var r, x := Step(s, Select(p, repo, now)), Selected(s, p, repo, now).value;
      && x.at < |s.pools[p].tokens| && x.record == s.pools[p].tokens[x.at]
      && OnlyRecord(s, r.(cursors := s.cursors), p, x.at, x.record.(lastUsedAt := Some(now)))
      && (forall q :: r.CursorOf(q) == s.CursorOf(q) + if q == p && TakesTurn(s.pools[p], repo, now) then 1 else 0)
  {
    ChosenUsable(s.pools[p], s.CursorOf(p), repo, now);
  }

  /** A turn is taken under round-robin, and under per-repo when no usable token is assigned to the repository. */
  lemma TurnsTaken(pool: Pool, repo: Option<string>, now: int)
    ensures TakesTurn(pool, repo, now) <==>
      && (exists i :: 0 <= i < |pool.tokens| && Usable(pool.tokens[i]))
      && (pool.strategy == RoundRobin
          || (pool.strategy == PerRepo && !(repo.Some? && repo.value != ""
                && exists i :: 0 <= i < |pool.tokens| && Usable(pool.tokens[i]) && repo.value in pool.tokens[i].assignedRepos)))
  {
    var e := Eligible(pool.tokens, now);
    EligibleExact(pool.tokens, now);
    if i :| 0 <= i < |pool.tokens| && Usable(pool.tokens[i]) { assert Slot(i, pool.tokens[i]) in e; }
    if e != [] { assert e[0] in e; }
    if repo.Some? {
      FirstAssignedExact(e, repo.value);
      var r := FirstAssigned(e, repo.value);
      if r.Some? {
        var i :| IsFirstAssigned(e, repo.value, i, r.value);
        assert e[i] in e;
      }
      if i :| 0 <= i < |pool.tokens| && Usable(pool.tokens[i]) && repo.value in pool.tokens[i].assignedRepos {
        assert Slot(i, pool.tokens[i]) in e;
      }
    }
  }

  /** For positive limits a ratio is at least another exactly when the cross products say so; a zero limit beats all. */
  lemma RatiosCompare(a: TokenRecord, b: TokenRecord)
    requires Usable(a) && Usable(b)
    ensures a.limit > 0 && b.limit > 0 ==> (AtLeast(RatioOf(a), RatioOf(b)) <==> a.remaining * b.limit >= b.remaining * a.limit)
    ensures a.limit == 0 ==> AtLeast(RatioOf(a), RatioOf(b))
    ensures a.limit > 0 && b.limit == 0 ==> !AtLeast(RatioOf(a), RatioOf(b))
  {
    if a.limit > 0 && b.limit > 0 {
      CrossProducts(a.remaining as real, a.limit as real, b.remaining as real, b.limit as real);
      assert (a.remaining * b.limit) as real == a.remaining as real * b.limit as real;
      assert (b.remaining * a.limit) as real == b.remaining as real * a.limit as real;
    }
  }

  lemma CrossProducts(x: real, m: real, y: real, n: real)
    requires m > 0.0 && n > 0.0
    ensures x / m >= y / n <==> x * n >= y * m
  {
    var p, q := x / m, y / n;
    assert x == p * m && y == q * n;
    assert x * n == p * (m * n) && y * m == q * (m * n);
    if p >= q { assert (p - q) * (m * n) >= 0.0; } else { assert (q - p) * (m * n) > 0.0; }
  }

  /** Under least-used with positive limits no usable token has a larger part of its limit left. */
  lemma LeastUsedLeavesMost(pool: Pool, cursor: nat, repo: Option<string>, now: int, i: nat)
    requires pool.strategy == LeastUsed && i < |pool.tokens| && Usable(pool.tokens[i])
    requires forall j :: 0 <= j < |pool.tokens| ==> pool.tokens[j].limit > 0
    ensures var x := Chosen(pool, cursor, repo, now);
      x.Some? && x.value.record.remaining * pool.tokens[i].limit >= pool.tokens[i].remaining * x.value.record.limit
  {
    ChosenUsable(pool, cursor, repo, now);
    LeastUsedIsFullest(pool, cursor, repo, now);
    RatiosCompare(Chosen(pool, cursor, repo, now).value.record, pool.tokens[i]);
  }
}
