// Pools of provider tokens: which token the next call may use.

module TokenPoolModel {
  import opened Wrappers
  import KL = KeyedList
  import SS = StableSort

  type Provider = string

  datatype Strategy = RoundRobin | LeastUsed | PerRepo

  datatype TokenRecord = TokenRecord(
    id: string,
    token: string,
    limit: int,
    remaining: int,
    resetTime: Option<int>,
    disabled: bool,
    assignedRepos: seq<string>,
    lastUsedAt: Option<int>)

  datatype Pool = Pool(strategy: Strategy, tokens: seq<TokenRecord>)

  datatype State = State(pools: map<Provider, Pool>, cursors: map<Provider, nat>)
  {
    function CursorOf(p: Provider): nat { if p in cursors then cursors[p] else 0 }
  }

  /** A record of the pool and where it stands there: two records with one id are still two records. */
  datatype Slot = Slot(at: nat, record: TokenRecord)

  datatype Event =
    | SetPool(provider: Provider, pool: Pool)
    | AddToken(provider: Provider, record: TokenRecord)
    | RemoveToken(provider: Provider, id: string)
    | DisableToken(provider: Provider, id: string, disabled: bool)
    | UpdateRateLimit(provider: Provider, id: string, limit: int, remaining: int, resetTime: int)
    | AssignRepo(provider: Provider, id: string, assignee: string)
    | Select(provider: Provider, repo: Option<string>, now: int)

  // ---- Selection ---------------------------------------------------------------------------------------------------

  /** The third test repeats a conjunct of the first, so neither the clock nor the reset time ever decides. */
  predicate IsEligible(t: TokenRecord, now: int)
    ensures IsEligible(t, now) <==> !t.disabled && t.remaining > 0
  {
    if t.disabled || t.remaining <= 0 then false
    else if t.resetTime.Some? && t.resetTime.value > now && t.remaining <= 0 then false
    else true
  }

  function Eligible(tokens: seq<TokenRecord>, now: int): (r: seq<Slot>) {
    if tokens == [] then []
    else
      var n := |tokens| - 1;
      Eligible(tokens[..n], now) + if IsEligible(tokens[n], now) then [Slot(n, tokens[n])] else []
  }

  /** The quotient of JavaScript numbers for a positive numerator; a zero limit gives positive infinity. */
  datatype Ratio = Finite(value: real) | Infinite

  function RatioOf(t: TokenRecord): (r: Ratio) {
    if t.limit == 0 then Infinite else Finite(t.remaining as real / t.limit as real)
  }

  predicate AtLeast(a: Ratio, b: Ratio) { a.Infinite? || (b.Finite? && a.value >= b.value) }

  /** The comparator's sign: two infinite ratios subtract to NaN, which sorts as equal. */
  function FullerFirst(): (Slot, Slot) -> bool {
    (a: Slot, b: Slot) => AtLeast(RatioOf(a.record), RatioOf(b.record))
  }

  function FirstAssigned(eligible: seq<Slot>, repo: string): (r: Option<Slot>) {
    if eligible == [] then None
    else if repo in eligible[0].record.assignedRepos then Some(eligible[0])
    else FirstAssigned(eligible[1..], repo)
  }

  function AssignedTo(pool: Pool, repo: Option<string>, now: int): (r: Option<Slot>) {
    if pool.strategy == PerRepo && repo.Some? && repo.value != "" then FirstAssigned(Eligible(pool.tokens, now), repo.value)
    else None
  }

  function Chosen(pool: Pool, cursor: nat, repo: Option<string>, now: int): (r: Option<Slot>) {
    var eligible := Eligible(pool.tokens, now);
    if eligible == [] then None
    else if AssignedTo(pool, repo, now).Some? then AssignedTo(pool, repo, now)
    else if pool.strategy == LeastUsed then
      SS.SortPermutes(eligible, FullerFirst());
      Some(SS.Sort(eligible, FullerFirst())[0])
    else Some(eligible[cursor % |eligible|])
  }

  /** The selections that take the next turn instead of following an assignment or a ratio. */
  predicate TakesTurn(pool: Pool, repo: Option<string>, now: int) {
    Eligible(pool.tokens, now) != [] && AssignedTo(pool, repo, now).None? && pool.strategy != LeastUsed
  }

  function Selected(s: State, p: Provider, repo: Option<string>, now: int): (r: Option<Slot>) {
    if p in s.pools then Chosen(s.pools[p], s.CursorOf(p), repo, now) else None
  }

  // ---- The effect of each call -------------------------------------------------------------------------------------

  function IndexOf(tokens: seq<TokenRecord>, id: string): (i: nat)
    ensures i <= |tokens|
    ensures i < |tokens| ==> tokens[i].id == id
    ensures forall j :: 0 <= j < i ==> tokens[j].id != id
  {
    if tokens == [] || tokens[0].id == id then 0 else 1 + IndexOf(tokens[1..], id)
  }

  function Without(tokens: seq<TokenRecord>, id: string): (r: seq<TokenRecord>) {
    if tokens == [] then []
    else Without(tokens[..|tokens| - 1], id) + if tokens[|tokens| - 1].id == id then [] else [tokens[|tokens| - 1]]
  }

  function Disabled(tokens: seq<TokenRecord>, id: string, disabled: bool): (r: seq<TokenRecord>) {
    var i := IndexOf(tokens, id);
    if i < |tokens| then tokens[i := tokens[i].(disabled := disabled)] else tokens
  }

  function Limited(tokens: seq<TokenRecord>, id: string, limit: int, remaining: int, resetTime: int): (r: seq<TokenRecord>) {
    var i := IndexOf(tokens, id);
    if i < |tokens| then tokens[i := tokens[i].(limit := limit, remaining := remaining, resetTime := Some(resetTime))] else tokens
  }

  function Assigned(tokens: seq<TokenRecord>, id: string, repo: string): (r: seq<TokenRecord>) {
    var i := IndexOf(tokens, id);
    if i < |tokens| then tokens[i := tokens[i].(assignedRepos := KL.KeepFirst(tokens[i].assignedRepos + [repo], (x: string) => x))]
    else tokens
  }

  function Used(tokens: seq<TokenRecord>, i: nat, now: int): (r: seq<TokenRecord>)
    requires i < |tokens|
  {
    tokens[i := tokens[i].(lastUsedAt := Some(now))]
  }

  function WithTokens(s: State, p: Provider, tokens: seq<TokenRecord>): (r: State)
    requires p in s.pools
  {
    s.(pools := s.pools[p := s.pools[p].(tokens := tokens)])
  }

  function AfterSelect(s: State, p: Provider, repo: Option<string>, now: int): (r: State) {
    if Selected(s, p, repo, now).None? then s
    else
      var pool := s.pools[p];
      ChosenUsable(pool, s.CursorOf(p), repo, now);
      var used := WithTokens(s, p, Used(pool.tokens, Selected(s, p, repo, now).value.at, now));
      if TakesTurn(pool, repo, now) then used.(cursors := s.cursors[p := s.CursorOf(p) + 1]) else used
  }

  function Step(s: State, ev: Event): (r: State) {
    match ev
    case SetPool(p, pool) => s.(pools := s.pools[p := pool])
    case AddToken(p, t) =>
      var pool := if p in s.pools then s.pools[p] else Pool(RoundRobin, []);
      s.(pools := s.pools[p := pool.(tokens := pool.tokens + [t])])
    case RemoveToken(p, id) => if p in s.pools then WithTokens(s, p, Without(s.pools[p].tokens, id)) else s
    case DisableToken(p, id, d) => if p in s.pools then WithTokens(s, p, Disabled(s.pools[p].tokens, id, d)) else s
    case UpdateRateLimit(p, id, l, m, t) => if p in s.pools then WithTokens(s, p, Limited(s.pools[p].tokens, id, l, m, t)) else s
    case AssignRepo(p, id, repo) => if p in s.pools then WithTokens(s, p, Assigned(s.pools[p].tokens, id, repo)) else s
    case Select(p, repo, now) => AfterSelect(s, p, repo, now)
  }

  // ---- One selection -----------------------------------------------------------------------------------------------

  lemma {:induction false} EligibleExact(tokens: seq<TokenRecord>, now: int)
    ensures forall x :: x in Eligible(tokens, now) <==>
      x.at < |tokens| && tokens[x.at] == x.record && !x.record.disabled && x.record.remaining > 0
  {
    if tokens != [] {
      var n := |tokens| - 1;
      EligibleExact(tokens[..n], now);
      assert forall i :: 0 <= i < n ==> tokens[..n][i] == tokens[i];
    }
  }

  lemma {:induction false} EligibleInOrder(tokens: seq<TokenRecord>, now: int)
    ensures InOrder(Eligible(tokens, now))
  {
    if tokens != [] {
      var n := |tokens| - 1;
      var e := Eligible(tokens[..n], now);
      EligibleInOrder(tokens[..n], now);
      EligibleExact(tokens[..n], now);
      forall i | 0 <= i < |e| ensures e[i].at < n { assert e[i] in e; }
    }
  }

  ghost predicate InOrder(e: seq<Slot>) { forall i, j :: 0 <= i < j < |e| ==> e[i].at < e[j].at }

  ghost predicate IsFirstAssigned(eligible: seq<Slot>, repo: string, i: int, x: Slot) {
    && 0 <= i < |eligible|
    && eligible[i] == x
    && repo in x.record.assignedRepos
    && forall j :: 0 <= j < i ==> repo !in eligible[j].record.assignedRepos
  }

  lemma {:induction false} FirstAssignedExact(eligible: seq<Slot>, repo: string)
    ensures var r := FirstAssigned(eligible, repo);
      && (r.Some? ==> exists i :: IsFirstAssigned(eligible, repo, i, r.value))
      && (r.None? ==> forall x :: x in eligible ==> repo !in x.record.assignedRepos)
  {
    if eligible != [] && repo !in eligible[0].record.assignedRepos {
      var t := eligible[1..];
      FirstAssignedExact(t, repo);
      var r := FirstAssigned(t, repo);
      if r.Some? {
        var i :| IsFirstAssigned(t, repo, i, r.value);
        forall j | 0 <= j < i + 1 ensures repo !in eligible[j].record.assignedRepos {
          if j > 0 { assert eligible[j] == t[j - 1]; }
        }
        assert IsFirstAssigned(eligible, repo, i + 1, r.value);
      }
    } else if eligible != [] {
      assert IsFirstAssigned(eligible, repo, 0, eligible[0]);
    }
  }

  /** A selection finds a token exactly when some token is usable, and never a disabled or exhausted one. */
  lemma ChosenUsable(pool: Pool, cursor: nat, repo: Option<string>, now: int)
    ensures Chosen(pool, cursor, repo, now).Some? <==> exists i :: 0 <= i < |pool.tokens| && Usable(pool.tokens[i])
    ensures var r := Chosen(pool, cursor, repo, now);
      r.Some? ==> r.value.at < |pool.tokens| && pool.tokens[r.value.at] == r.value.record && Usable(r.value.record)
  {
    var eligible := Eligible(pool.tokens, now);
    EligibleExact(pool.tokens, now);
    if i :| 0 <= i < |pool.tokens| && Usable(pool.tokens[i]) { assert Slot(i, pool.tokens[i]) in eligible; }
    if eligible != [] { assert eligible[0] in eligible; }
    var r := Chosen(pool, cursor, repo, now);
    if r.Some? && AssignedTo(pool, repo, now).Some? { FirstAssignedExact(eligible, repo.value); }
    SS.SortMembers(eligible, FullerFirst());
    assert r.Some? ==> r.value in eligible;
  }

  predicate Usable(t: TokenRecord) { !t.disabled && t.remaining > 0 }

  /** Under least-used, no usable token has more of its limit left than the chosen one, and none earlier has as much. */
  lemma LeastUsedIsFullest(pool: Pool, cursor: nat, repo: Option<string>, now: int)
    requires pool.strategy == LeastUsed && Chosen(pool, cursor, repo, now).Some?
    ensures var x := Chosen(pool, cursor, repo, now).value;
      forall i :: 0 <= i < |pool.tokens| && Usable(pool.tokens[i]) ==>
        && AtLeast(RatioOf(x.record), RatioOf(pool.tokens[i]))
        && (i < x.at ==> !AtLeast(RatioOf(pool.tokens[i]), RatioOf(x.record)))
  {
    hide RatioOf, AtLeast;
    var eligible := Eligible(pool.tokens, now);
    EligibleExact(pool.tokens, now);
    EligibleInOrder(pool.tokens, now);
    AtLeastOrders();
    var finer := (a: Slot, b: Slot) => FullerOrEarlier(a, b);
    assert forall a, b :: FullerFirst()(a, b) <==> AtLeast(RatioOf(a.record), RatioOf(b.record));
    forall i, j | 0 <= i < j < |eligible|
      ensures FullerFirst()(eligible[i], eligible[j]) <==> finer(eligible[i], eligible[j])
    {
      assert eligible[i].at < eligible[j].at;
    }
    SS.SortRefined(eligible, FullerFirst(), finer);
    SS.SortSorted(eligible, finer);
    SS.SortMembers(eligible, finer);
    var sorted := SS.Sort(eligible, finer);
    var x := Chosen(pool, cursor, repo, now).value;
    assert x == sorted[0];
    forall i | 0 <= i < |pool.tokens| && Usable(pool.tokens[i])
      ensures FullerOrEarlier(x, Slot(i, pool.tokens[i]))
    {
      var y := Slot(i, pool.tokens[i]);
      assert y in eligible && y in sorted;
      var j :| 0 <= j < |sorted| && sorted[j] == y;
      assert j > 0 ==> finer(sorted[0], sorted[j]);
    }
  }

  ghost predicate FullerOrEarlier(a: Slot, b: Slot) {
    && AtLeast(RatioOf(a.record), RatioOf(b.record))
    && (AtLeast(RatioOf(b.record), RatioOf(a.record)) ==> a.at <= b.at)
  }

  lemma AtLeastOrders()
    ensures forall a, b :: AtLeast(a, b) || AtLeast(b, a)
    ensures forall a, b, c :: AtLeast(a, b) && AtLeast(b, c) ==> AtLeast(a, c)
  {
  }

  /** Under per-repo, a usable token assigned to the repository is chosen, the first of them, without using a turn. */
  lemma AssignedComesFirst(pool: Pool, cursor: nat, repo: string, now: int, i: nat)
    requires pool.strategy == PerRepo && repo != ""
    requires i < |pool.tokens| && Usable(pool.tokens[i]) && repo in pool.tokens[i].assignedRepos
    ensures var r := Chosen(pool, cursor, Some(repo), now);
      r.Some? && repo in r.value.record.assignedRepos && r.value.at <= i && !TakesTurn(pool, Some(repo), now)
  {
    var eligible := Eligible(pool.tokens, now);
    EligibleExact(pool.tokens, now);
    FirstAssignedExact(eligible, repo);
    var y := Slot(i, pool.tokens[i]);
    assert y in eligible;
    var j :| 0 <= j < |eligible| && eligible[j] == y;
    var r := Chosen(pool, cursor, Some(repo), now);
    var k :| IsFirstAssigned(eligible, repo, k, r.value);
    EligibleInOrder(pool.tokens, now);
    assert k <= j && eligible[k].at <= eligible[j].at;
  }

  /** Neither the reset time nor the clock makes a difference to any selection. */
  lemma {:induction false} ClockIsIgnored(tokens: seq<TokenRecord>, now: int, later: int)
    ensures Eligible(tokens, now) == Eligible(tokens, later)
  {
    if tokens != [] { ClockIsIgnored(tokens[..|tokens| - 1], now, later); }
  }

  // ---- Runs --------------------------------------------------------------------------------------------------------

  predicate Returns(s: State, ev: Event, p: Provider, id: string) {
    && ev.Select?
    && ev.provider == p
    && Selected(s, p, ev.repo, ev.now).Some?
    && Selected(s, p, ev.repo, ev.now).value.record.id == id
  }

  /** How often a run's selections on p return a token with this id. */
  function Picks(s: State, run: seq<Event>, p: Provider, id: string): (r: nat)
    decreases |run|
  {
    if run == [] then 0
    else (if Returns(s, run[0], p, id) then 1 else 0) + Picks(Step(s, run[0]), run[1..], p, id)
  }

  /** The selection returns the record at position a of the eligible list. */
  predicate ReturnsAt(s: State, ev: Event, p: Provider, a: nat) {
    && ev.Select?
    && ev.provider == p
    && p in s.pools
    && a < |Eligible(s.pools[p].tokens, ev.now)|
    && Selected(s, p, ev.repo, ev.now) == Some(Eligible(s.pools[p].tokens, ev.now)[a])
  }

  /** How often a run's selections on p return the record at position a of the eligible list. */
  function PicksAt(s: State, run: seq<Event>, p: Provider, a: nat): (r: nat)
    decreases |run|
  {
    if run == [] then 0
    else (if ReturnsAt(s, run[0], p, a) then 1 else 0) + PicksAt(Step(s, run[0]), run[1..], p, a)
  }

  function Selections(run: seq<Event>, p: Provider): (r: nat) {
    if run == [] then 0
    else (if run[0].Select? && run[0].provider == p then 1 else 0) + Selections(run[1..], p)
  }

  function Ids(eligible: seq<Slot>): (r: seq<string>)
    ensures |r| == |eligible| && forall i :: 0 <= i < |r| ==> r[i] == eligible[i].record.id
  {
    seq(|eligible|, i requires 0 <= i < |eligible| => eligible[i].record.id)
  }

  /** p is under round-robin and its eligible list keeps these ids, in this order, all through the run. */
  predicate Steady(s: State, run: seq<Event>, p: Provider, ids: seq<string>)
    decreases |run|
  {
    && p in s.pools
    && s.pools[p].strategy == RoundRobin
    && Ids(Eligible(s.pools[p].tokens, 0)) == ids
    && (run != [] ==> Steady(Step(s, run[0]), run[1..], p, ids))
  }

  /** A call for one provider leaves the pool and the cursor of every other one as they were. */
  lemma ProvidersAreIndependent(s: State, ev: Event, p: Provider)
    requires ev.provider != p
    ensures p in Step(s, ev).pools <==> p in s.pools
    ensures p in s.pools ==> Step(s, ev).pools[p] == s.pools[p]
    ensures Step(s, ev).CursorOf(p) == s.CursorOf(p)
  {
  }

  lemma RoundRobinTurn(s: State, ev: Event, p: Provider, ids: seq<string>)
    requires Steady(s, [], p, ids) && ids != []
    ensures var turn := s.CursorOf(p) % |ids|;
      ev.Select? && ev.provider == p ==>
        && (forall a: nat :: a < |ids| ==> (ReturnsAt(s, ev, p, a) <==> a == turn))
        && (forall id :: Returns(s, ev, p, id) <==> id == ids[turn])
    ensures Step(s, ev).CursorOf(p) == s.CursorOf(p) + if ev.Select? && ev.provider == p then 1 else 0
  {
    if ev.provider != p {
      ProvidersAreIndependent(s, ev, p);
    } else if ev.Select? {
      ClockIsIgnored(s.pools[p].tokens, ev.now, 0);
      var e := Eligible(s.pools[p].tokens, ev.now);
      EligibleInOrder(s.pools[p].tokens, ev.now);
      forall a: nat | a < |e| && e[a] == e[s.CursorOf(p) % |ids|] ensures a == s.CursorOf(p) % |ids| {
        assert e[a].at == e[s.CursorOf(p) % |ids|].at;
      }
    }
  }

  // ---- Fair turns --------------------------------------------------------------------------------------------------

  lemma Scaled(n: nat, x: int, y: int)
    requires x <= y
    ensures n * x <= n * y
  {
    assert n * y - n * x == n * (y - x) >= 0;
  }

  lemma DivisionIsUnique(m: nat, n: nat, q: nat, r: nat)
    requires 0 < n && r < n && m == n * q + r
    ensures m / n == q && m % n == r
  {
    var d, e := m / n, m % n;
    assert n * d + e == m;
    if d < q {
      Scaled(n, d + 1, q);
    } else if q < d {
      Scaled(n, q + 1, d);
    }
  }

  lemma SumOfParts(n: nat, q: nat, r: nat, t: nat, u: nat)
    requires r < n && u < n
    ensures (n * q + r) + (n * t + u) == n * (q + t) + (r + u)
    ensures n * (q + t + 1) == n * (q + t) + n
  {
  }

  lemma DivisionOfSum(c: nat, m: nat, n: nat)
    requires 0 < n
    ensures var q, r := c / n + m / n, c % n + m % n;
      if r < n then (c + m) / n == q && (c + m) % n == r else (c + m) / n == q + 1 && (c + m) % n == r - n
  {
    SumOfParts(n, c / n, c % n, m / n, m % n);
    var q, r := c / n + m / n, c % n + m % n;
    assert c + m == n * q + r;
    if r < n { DivisionIsUnique(c + m, n, q, r); } else { DivisionIsUnique(c + m, n, q + 1, r - n); }
  }

  /** How many of 0..m-1 leave remainder a when divided by n. */
  function Turns(m: nat, n: nat, a: nat): (r: nat)
    requires 0 < n
  {
    m / n + if a < m % n then 1 else 0
  }

  lemma NextTurn(m: nat, n: nat, a: nat)
    requires a < n
    ensures Turns(m + 1, n, a) == Turns(m, n, a) + if m % n == a then 1 else 0
  {
    DivisionOfSum(m, 1, n);
    if n == 1 { DivisionIsUnique(1, 1, 1, 0); } else { DivisionIsUnique(1, n, 0, 1); }
  }

  lemma {:induction false} PicksAreTurns(s: State, run: seq<Event>, p: Provider, ids: seq<string>, a: nat)
    requires Steady(s, run, p, ids) && a < |ids|
    ensures PicksAt(s, run, p, a) == Turns(s.CursorOf(p) + Selections(run, p), |ids|, a) - Turns(s.CursorOf(p), |ids|, a)
    decreases |run|
  {
    hide Step, ReturnsAt, Turns;
    if run != [] {
      var ev, c := run[0], s.CursorOf(p);
      RoundRobinTurn(s, ev, p, ids);
      PicksAreTurns(Step(s, ev), run[1..], p, ids, a);
      NextTurn(c, |ids|, a);
      OnlySelections(s, ev, p, a);
    }
  }

  lemma OnlySelections(s: State, ev: Event, p: Provider, a: nat)
    ensures ReturnsAt(s, ev, p, a) ==> ev.Select? && ev.provider == p
    ensures forall id :: Returns(s, ev, p, id) ==> ev.Select? && ev.provider == p
  {
  }

  lemma TurnsAreShared(c: nat, m: nat, n: nat, a: nat)
    requires a < n
    ensures var t := Turns(c + m, n, a) - Turns(c, n, a); m / n <= t <= m / n + 1 && (m % n == 0 ==> t == m / n)
  {
    DivisionOfSum(c, m, n);
  }

  lemma SharedTurns(c: nat, m: nat, n: nat, a: nat, picks: nat) returns (q: nat)
    requires a < n && picks == Turns(c + m, n, a) - Turns(c, n, a)
    ensures q == m / n && q <= picks <= q + 1 && (m % n == 0 ==> picks == q)
  {
    TurnsAreShared(c, m, n, a);
    q := m / n;
  }

  lemma FairShare(s: State, run: seq<Event>, p: Provider, ids: seq<string>, a: nat) returns (q: nat)
    requires Steady(s, run, p, ids) && a < |ids|
    ensures q == Selections(run, p) / |ids| && q <= PicksAt(s, run, p, a) <= q + 1
    ensures Selections(run, p) % |ids| == 0 ==> PicksAt(s, run, p, a) == q
  {
    hide Turns;
    PicksAreTurns(s, run, p, ids, a);
    q := SharedTurns(s.CursorOf(p), Selections(run, p), |ids|, a, PicksAt(s, run, p, a));
  }

  /**
   Round-robin is fair: while the eligible list stays the same, whatever other calls come between, n selections
   return each of its k records n / k times, or once more, so no two records differ by more than one.
   */
  lemma RoundRobinIsFair(s: State, run: seq<Event>, p: Provider, ids: seq<string>, a: nat, b: nat)
    requires Steady(s, run, p, ids) && a < |ids| && b < |ids|
    ensures var n, k, x := Selections(run, p), |ids|, PicksAt(s, run, p, a);
      n / k <= x <= n / k + 1 && (n % k == 0 ==> x == n / k)
    ensures -1 <= PicksAt(s, run, p, a) - PicksAt(s, run, p, b) <= 1
  {
    var q := FairShare(s, run, p, ids, a);
    var r := FairShare(s, run, p, ids, b);
    assert q == r;
  }

  /** Where the eligible ids are distinct, the selections of a token are those of its one record. */
  lemma {:induction false} PicksById(s: State, run: seq<Event>, p: Provider, ids: seq<string>, a: nat)
    requires Steady(s, run, p, ids) && a < |ids|
    requires forall i, j :: 0 <= i < j < |ids| ==> ids[i] != ids[j]
    ensures Picks(s, run, p, ids[a]) == PicksAt(s, run, p, a)
    decreases |run|
  {
    hide Step, Returns, ReturnsAt;
    if run != [] {
      RoundRobinTurn(s, run[0], p, ids);
      OnlySelections(s, run[0], p, a);
      PicksById(Step(s, run[0]), run[1..], p, ids, a);
    }
  }

  /** Selections alone keep the eligible list, so every run of selections is fair. */
  lemma {:induction false} SelectionsAreSteady(s: State, run: seq<Event>, p: Provider)
    requires p in s.pools && s.pools[p].strategy == RoundRobin && forall ev :: ev in run ==> ev.Select?
    ensures Steady(s, run, p, Ids(Eligible(s.pools[p].tokens, 0)))
    decreases |run|
  {
    if run != [] {
      var ev := run[0];
      var t := Step(s, ev);
      assert ev in run;
      if ev.provider != p {
        ProvidersAreIndependent(s, ev, p);
      } else if Selected(s, p, ev.repo, ev.now).Some? {
        ChosenUsable(s.pools[p], s.CursorOf(p), ev.repo, ev.now);
        UseKeepsEligible(s.pools[p].tokens, Selected(s, p, ev.repo, ev.now).value.at, ev.now);
      }
      SelectionsAreSteady(t, run[1..], p);
    }
  }

  lemma {:induction false} UseKeepsEligible(tokens: seq<TokenRecord>, i: nat, now: int)
    requires i < |tokens|
    ensures Ids(Eligible(Used(tokens, i, now), 0)) == Ids(Eligible(tokens, 0))
  {
    var n := |tokens| - 1;
    var u := Used(tokens, i, now);
    if i < n {
      UseKeepsEligible(tokens[..n], i, now);
      assert u[..n] == Used(tokens[..n], i, now);
    } else {
      assert u[..n] == tokens[..n];
    }
  }

  // ---- Unusable tokens stay out --------------------------------------------------------------------------------------

  /** No record of p with this id is usable. */
  predicate Out(s: State, p: Provider, id: string) {
    p in s.pools ==> AllOut(s.pools[p].tokens, id)
  }

  predicate AllOut(tokens: seq<TokenRecord>, id: string) {
    forall i :: 0 <= i < |tokens| && tokens[i].id == id ==> !Usable(tokens[i])
  }

  /** The calls that can make a token usable again; the passing of its reset time is not among them. */
  predicate Restores(ev: Event, p: Provider, id: string) {
    && ev.provider == p
    && match ev
       case SetPool(_, _) => true
       case AddToken(_, t) => t.id == id
       case UpdateRateLimit(_, i, _, _, _) => i == id
       case DisableToken(_, i, d) => i == id && !d
       case _ => false
  }

  lemma OutStepsOut(s: State, ev: Event, p: Provider, id: string)
    requires Out(s, p, id) && !Restores(ev, p, id)
    ensures Out(Step(s, ev), p, id) && !Returns(s, ev, p, id)
  {
    if ev.provider != p {
      ProvidersAreIndependent(s, ev, p);
    } else if p in s.pools {
      var tokens := s.pools[p].tokens;
      match ev
      case RemoveToken(_, gone) => WithoutExact(tokens, gone);
        assert forall t :: t in tokens && t.id == id ==> !Usable(t);
      case Select(_, repo, now) => ChosenUsable(s.pools[p], s.CursorOf(p), repo, now);
      case _ =>
    }
  }

  lemma {:induction false} WithoutExact(tokens: seq<TokenRecord>, id: string)
    ensures forall t :: t in Without(tokens, id) <==> t in tokens && t.id != id
    ensures |Without(tokens, id)| == |tokens| <==> forall t :: t in tokens ==> t.id != id
    ensures |Without(tokens, id)| <= |tokens|
  {
    if tokens != [] {
      var n := |tokens| - 1;
      assert tokens == tokens[..n] + [tokens[n]];
      WithoutExact(tokens[..n], id);
    }
  }

  /** An exhausted or disabled token is returned by no selection until a call restores it, however late the clock. */
  lemma {:induction false} OutStaysOut(s: State, run: seq<Event>, p: Provider, id: string)
    requires Out(s, p, id) && forall ev :: ev in run ==> !Restores(ev, p, id)
    ensures Picks(s, run, p, id) == 0
    decreases |run|
  {
    if run != [] {
      assert run[0] in run;
      OutStepsOut(s, run[0], p, id);
      OutStaysOut(Step(s, run[0]), run[1..], p, id);
    }
  }

  // ---- The pool object -----------------------------------------------------------------------------------------------

  /** A record as callers see it: without the token, which an empty string stands for. */
  function Sanitized(t: TokenRecord): (r: TokenRecord) { t.(token := "") }

  datatype TokenSelection = TokenSelection(token: string, record: TokenRecord)

  class TokenPool {
    var pools: map<Provider, Pool>
    var cursors: map<Provider, nat>

    ghost function StateOf(): State reads this { State(pools, cursors) }

    constructor (configs: seq<(Provider, Pool)>)
      ensures cursors == map[]
      ensures pools.Keys == set c | c in configs :: c.0
      ensures forall p :: p in pools ==> (exists i :: LastConfig(configs, p, i, pools[p]))
    {
      pools, cursors := map[], map[];
      new;
      for i := 0 to |configs|
        invariant cursors == map[]
        invariant pools.Keys == set c | c in configs[..i] :: c.0
        invariant forall p :: p in pools ==> exists j :: LastConfig(configs[..i], p, j, pools[p])
      {
        ghost var before := pools;
        SetPool(configs[i].0, configs[i].1);
        ghost var done := configs[..i + 1];
        assert done == configs[..i] + [configs[i]];
        forall p | p in pools ensures exists j :: LastConfig(done, p, j, pools[p]) {
          if p == configs[i].0 {
            assert LastConfig(done, p, i, pools[p]);
          } else {
            var j :| LastConfig(configs[..i], p, j, before[p]);
            assert LastConfig(done, p, j, pools[p]);
          }
        }
      }
      assert configs[..|configs|] == configs;
    }

    method SetPool(p: Provider, pool: Pool)
      modifies this
      ensures StateOf() == Step(old(StateOf()), Event.SetPool(p, pool))
    {
      pools := pools[p := pool];
    }

    method AddToken(p: Provider, t: TokenRecord)
      modifies this
      ensures StateOf() == Step(old(StateOf()), Event.AddToken(p, t))
    {
      var pool := Pool(RoundRobin, []);
      if p in pools { pool := pools[p]; }
      pools := pools[p := pool.(tokens := pool.tokens + [t])];
    }

    method RemoveToken(p: Provider, id: string) returns (removed: bool)
      modifies this
      ensures StateOf() == Step(old(StateOf()), Event.RemoveToken(p, id))
      ensures removed <==> p in old(pools) && exists t :: t in old(pools)[p].tokens && t.id == id
    {
      if p !in pools { return false; }
      var pool := pools[p];
      var before := |pool.tokens|;
      var kept := Without(pool.tokens, id);
      WithoutExact(pool.tokens, id);
      pools := pools[p := pool.(tokens := kept)];
      removed := |kept| != before;
    }

    method DisableToken(p: Provider, id: string, disabled: bool)
      modifies this
      ensures StateOf() == Step(old(StateOf()), Event.DisableToken(p, id, disabled))
    {
      var at := FindToken(p, id);
      if at.Some? {
        var tokens := pools[p].tokens;
        pools := pools[p := pools[p].(tokens := tokens[at.value := tokens[at.value].(disabled := disabled)])];
      }
    }

    method UpdateRateLimit(p: Provider, id: string, limit: int, remaining: int, resetTime: int)
      modifies this
      ensures StateOf() == Step(old(StateOf()), Event.UpdateRateLimit(p, id, limit, remaining, resetTime))
    {
      var at := FindToken(p, id);
      if at.None? { return; }
      var tokens := pools[p].tokens;
      var limited := tokens[at.value].(limit := limit, remaining := remaining, resetTime := Some(resetTime));
      pools := pools[p := pools[p].(tokens := tokens[at.value := limited])];
    }

    method AssignRepo(p: Provider, id: string, repo: string)
      modifies this
      ensures StateOf() == Step(old(StateOf()), Event.AssignRepo(p, id, repo))
    {
      var at := FindToken(p, id);
      if at.None? { return; }
      var tokens := pools[p].tokens;
      var t := tokens[at.value];
      var repos := KL.KeepFirst(t.assignedRepos + [repo], (x: string) => x);
      pools := pools[p := pools[p].(tokens := tokens[at.value := t.(assignedRepos := repos)])];
    }

    /** The position of the first record with this id. */
    method FindToken(p: Provider, id: string) returns (at: Option<nat>)
      ensures at.Some? ==> p in pools && at.value < |pools[p].tokens| && at.value == IndexOf(pools[p].tokens, id)
      ensures at.None? ==> p in pools ==> IndexOf(pools[p].tokens, id) == |pools[p].tokens|
    {
      if p !in pools { return None; }
      var tokens := pools[p].tokens;
      var i := 0;
      while i < |tokens| && tokens[i].id != id
        invariant i <= |tokens|
        invariant forall j :: 0 <= j < i ==> tokens[j].id != id
      {
        i := i + 1;
      }
      at := if i < |tokens| then Some(i) else None;
    }

    method Select(p: Provider, repo: Option<string>, now: int) returns (r: Option<TokenSelection>)
      modifies this
      ensures StateOf() == Step(old(StateOf()), Event.Select(p, repo, now))
      ensures var x := Selected(old(StateOf()), p, repo, now);
        && (r.Some? <==> x.Some?)
        && (r.Some? ==> r.value.token == x.value.record.token && r.value.record == Sanitized(x.value.record.(lastUsedAt := Some(now))))
    {
      if p !in pools { return None; }
      var pool := pools[p];
      var eligible := FilterEligible(pool.tokens, now);
      if |eligible| == 0 { return None; }
      ghost var x := Chosen(pool, StateOf().CursorOf(p), repo, now);
      ChosenUsable(pool, StateOf().CursorOf(p), repo, now);
      var selected := SelectToken(p, eligible, repo, now);
      var used := pool.tokens[selected.at].(lastUsedAt := Some(now));
      pools := pools[p := pool.(tokens := pool.tokens[selected.at := used])];
      r := Some(TokenSelection(used.token, Sanitized(used)));
    }

    method FilterEligible(tokens: seq<TokenRecord>, now: int) returns (eligible: seq<Slot>)
      ensures eligible == Eligible(tokens, now)
    {
      eligible := [];
      for i := 0 to |tokens|
        invariant eligible == Eligible(tokens[..i], now)
      {
        assert tokens[..i + 1][..i] == tokens[..i];
        if IsEligible(tokens[i], now) { eligible := eligible + [Slot(i, tokens[i])]; }
      }
      assert tokens[..|tokens|] == tokens;
    }

    method SelectToken(p: Provider, eligible: seq<Slot>, repo: Option<string>, now: int) returns (x: Slot)
      requires p in pools && eligible == Eligible(pools[p].tokens, now) && eligible != []
      modifies this`cursors
      ensures Chosen(pools[p], old(StateOf()).CursorOf(p), repo, now) == Some(x)
      ensures cursors == if TakesTurn(pools[p], repo, now) then old(cursors)[p := old(StateOf()).CursorOf(p) + 1] else old(cursors)
    {
      var pool := pools[p];
      if pool.strategy == PerRepo && repo.Some? && repo.value != "" {
        var owner := FirstAssigned(eligible, repo.value);
        if owner.Some? { return owner.value; }
      }
      if pool.strategy == LeastUsed {
        SS.SortPermutes(eligible, FullerFirst());
        return SS.Sort(eligible, FullerFirst())[0];
      }
      var cursor: nat := if p in cursors then cursors[p] else 0;
      x := eligible[cursor % |eligible|];
      cursors := cursors[p := cursor + 1];
    }
  }

  /** configs[i] is the last configuration given for p. */
  ghost predicate LastConfig(configs: seq<(Provider, Pool)>, p: Provider, i: int, pool: Pool) {
    && 0 <= i < |configs|
    && configs[i] == (p, pool)
    && forall j :: i < j < |configs| ==> configs[j].0 != p
  }
}
