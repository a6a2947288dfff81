/** The indexes rebuilt on every write: direct dependents and imports, and transitive dependents by breadth-first search. */
module GraphIndexes {
  import opened GraphModel
  import KL = KeyedList

  type EdgeIndex = map<string, seq<Edge>>

  function At(idx: EdgeIndex, f: string): seq<Edge> { if f in idx then idx[f] else [] }

  // ---- Direct indexes -------------------------------------------------------------------------------------

  function FromOf(e: Edge): string { e.from }
  function ToOf(e: Edge): string { e.to }

  /** A direct scan of the edge list: the edges whose chosen end is f, in order. */
  function Scan(deps: seq<Edge>, end: Edge -> string, f: string): (r: seq<Edge>) {
    if deps == [] then []
    else
      var n := |deps| - 1;
      Scan(deps[..n], end, f) + if end(deps[n]) == f then [deps[n]] else []
  }

  lemma {:induction false} ScanMembers(deps: seq<Edge>, end: Edge -> string, f: string)
    ensures forall e :: e in Scan(deps, end, f) <==> e in deps && end(e) == f
    ensures KL.Subsequence(Scan(deps, end, f), deps)
  {
    if deps != [] {
      var n := |deps| - 1;
      assert deps == deps[..n] + [deps[n]];
      ScanMembers(deps[..n], end, f);
      KL.SubsequenceConcat(Scan(deps[..n], end, f), deps[..n], if end(deps[n]) == f then [deps[n]] else [], [deps[n]]);
    }
  }

  function Index(deps: seq<Edge>, end: Edge -> string): EdgeIndex {
    if deps == [] then map[]
    else
      var n := |deps| - 1;
      var idx := Index(deps[..n], end);
      idx[end(deps[n]) := At(idx, end(deps[n])) + [deps[n]]]
  }

  lemma {:induction false} IndexAnswersScan(deps: seq<Edge>, end: Edge -> string, f: string)
    ensures At(Index(deps, end), f) == Scan(deps, end, f)
    ensures f in Index(deps, end) <==> Scan(deps, end, f) != []
  {
    if deps != [] { IndexAnswersScan(deps[..|deps| - 1], end, f); }
  }

  // ---- Transitive dependents ------------------------------------------------------------------------------

  function Froms(es: seq<Edge>): seq<string> {
    seq(|es|, i requires 0 <= i < |es| => es[i].from)
  }

  ghost function Sources(idx: EdgeIndex): set<string> {
    set k, i | k in idx.Keys && 0 <= i < |idx[k]| :: idx[k][i].from
  }

  ghost function Elems(s: seq<string>): set<string> { set x | x in s }

  lemma FromsInSources(idx: EdgeIndex, f: string)
    ensures forall x :: x in Froms(At(idx, f)) ==> x in Sources(idx)
  {
    forall x | x in Froms(At(idx, f)) ensures x in Sources(idx) {
      var i :| 0 <= i < |At(idx, f)| && Froms(At(idx, f))[i] == x;
      assert idx[f][i].from == x;
    }
  }

  /** Visiting a file leaves fewer to visit: the queue loop terminates. */
  lemma VisitShrinks(idx: EdgeIndex, visited: seq<string>, c: string)
    requires c in Sources(idx) && c !in visited
    ensures Sources(idx) - Elems(visited + [c]) < Sources(idx) - Elems(visited)
  {
    assert c in Sources(idx) - Elems(visited) && c !in Sources(idx) - Elems(visited + [c]);
  }

  /** The queue loop: visit the head if it is new and non-empty, and append its direct dependents. */
  function Bfs(idx: EdgeIndex, visited: seq<string>, queue: seq<string>): (r: seq<string>)
    requires forall x :: x in queue ==> x in Sources(idx)
    decreases Sources(idx) - Elems(visited), |queue|
  {
    if queue == [] then visited
    else if queue[0] == "" || queue[0] in visited then Bfs(idx, visited, queue[1..])
    else
      FromsInSources(idx, queue[0]);
      assert queue[0] in queue;
      VisitShrinks(idx, visited, queue[0]);
      Bfs(idx, visited + [queue[0]], queue[1..] + Froms(At(idx, queue[0])))
  }

  function TransitiveDependents(idx: EdgeIndex, file: string): (r: seq<string>) {
    FromsInSources(idx, file);
    Bfs(idx, [], Froms(At(idx, file)))
  }

  /** y directly depends on x and can be visited: the search skips empty paths. */
  ghost predicate DependsOn(idx: EdgeIndex, x: string, y: string) {
    y != "" && y in Froms(At(idx, x))
  }

  /** y is reached from x by n reverse dependency edges. */
  ghost predicate Walk(idx: EdgeIndex, x: string, y: string, n: nat)
    decreases n
  {
    if n == 0 then x == y else exists m :: Walk(idx, x, m, n - 1) && DependsOn(idx, m, y)
  }

  lemma WalkExtend(idx: EdgeIndex, x: string, m: string, n: nat, y: string)
    requires Walk(idx, x, m, n) && DependsOn(idx, m, y)
    ensures Walk(idx, x, y, n + 1)
  {
  }

  lemma WalkSplit(idx: EdgeIndex, x: string, y: string, n: nat) returns (m: string)
    requires n >= 1 && Walk(idx, x, y, n)
    ensures Walk(idx, x, m, n - 1) && DependsOn(idx, m, y) && (n == 1 ==> m == x)
  {
    m :| Walk(idx, x, m, n - 1) && DependsOn(idx, m, y);
  }

  /** y is reached from x by one or more reverse dependency edges. */
  ghost predicate Reaches(idx: EdgeIndex, x: string, y: string) {
    exists n: nat :: n >= 1 && Walk(idx, x, y, n)
  }

  /** The shortest positive number of edges from x to y. */
  ghost predicate Distance(idx: EdgeIndex, x: string, y: string, n: nat) {
    n >= 1 && Walk(idx, x, y, n) && forall m :: 1 <= m < n ==> !Walk(idx, x, y, m)
  }

  ghost predicate Covered(visited: seq<string>, vd: seq<nat>, queue: seq<string>, qd: seq<nat>, y: string, d: nat)
    requires |vd| == |visited| && |qd| == |queue|
  {
    || (exists k :: 0 <= k < |visited| && visited[k] == y && vd[k] <= d)
    || (exists j :: 0 <= j < |queue| && queue[j] == y && qd[j] <= d)
  }

  /** Visited files are distinct and stand at their true distances vd, nearest first. */
  ghost predicate VisitedOk(idx: EdgeIndex, file: string, visited: seq<string>, vd: seq<nat>) {
    && |vd| == |visited|
    && (forall i, j :: 0 <= i < j < |visited| ==> visited[i] != visited[j] && vd[i] <= vd[j])
    && (forall i :: 0 <= i < |visited| ==> visited[i] != "" && Distance(idx, file, visited[i], vd[i]))
  }

  /** Queued files carry the level qd at which they were queued; levels do not fall and span at most two. */
  ghost predicate QueueOk(idx: EdgeIndex, file: string, queue: seq<string>, qd: seq<nat>) {
    && |qd| == |queue|
    && (forall j :: 0 <= j < |queue| ==> qd[j] >= 1 && (queue[j] != "" ==> Walk(idx, file, queue[j], qd[j])))
    && (forall i, j :: 0 <= i < j < |queue| ==> qd[i] <= qd[j] <= qd[0] + 1)
  }

  ghost predicate Placed(idx: EdgeIndex, file: string, visited: seq<string>, vd: seq<nat>, queue: seq<string>, qd: seq<nat>) {
    && |vd| == |visited| && |qd| == |queue|
    && VisitedOk(idx, file, visited, vd)
    && QueueOk(idx, file, queue, qd)
    && (forall i, j :: 0 <= i < |visited| && 0 <= j < |queue| ==> vd[i] <= qd[j])
  }

  /** Every direct dependent of the start and of a visited file is visited or queued, one level further at most. */
  ghost predicate Closed(idx: EdgeIndex, file: string, visited: seq<string>, vd: seq<nat>, queue: seq<string>, qd: seq<nat>)
    requires |vd| == |visited| && |qd| == |queue|
  {
    && (forall y :: DependsOn(idx, file, y) ==> Covered(visited, vd, queue, qd, y, 1))
    && (forall i, y :: 0 <= i < |visited| && DependsOn(idx, visited[i], y) ==> Covered(visited, vd, queue, qd, y, vd[i] + 1))
  }

  ghost predicate Frontier(idx: EdgeIndex, file: string, visited: seq<string>, vd: seq<nat>, queue: seq<string>, qd: seq<nat>) {
    && Placed(idx, file, visited, vd, queue, qd)
    && Closed(idx, file, visited, vd, queue, qd)
  }

  /** Everything nearer than the head of the queue has been visited. */
  lemma {:induction false} NearerVisited(idx: EdgeIndex, file: string, visited: seq<string>, vd: seq<nat>, queue: seq<string>, qd: seq<nat>, y: string, n: nat)
    requires Frontier(idx, file, visited, vd, queue, qd)
    requires n >= 1 && Walk(idx, file, y, n)
    requires queue != [] ==> n < qd[0]
    ensures exists k :: 0 <= k < |visited| && visited[k] == y && vd[k] <= n
    decreases n
  {
    hide VisitedOk, DependsOn;
    var m := WalkSplit(idx, file, y, n);
    if n == 1 {
      NotQueued(idx, file, visited, vd, queue, qd, y, 1);
    } else {
      NearerVisited(idx, file, visited, vd, queue, qd, m, n - 1);
      var k :| 0 <= k < |visited| && visited[k] == m && vd[k] <= n - 1;
      NotQueued(idx, file, visited, vd, queue, qd, y, vd[k] + 1);
    }
  }

  /** What is covered nearer than the head of the queue is covered by a visited file. */
  lemma NotQueued(idx: EdgeIndex, file: string, visited: seq<string>, vd: seq<nat>, queue: seq<string>, qd: seq<nat>, y: string, d: nat)
    requires |vd| == |visited| && QueueOk(idx, file, queue, qd)
    requires Covered(visited, vd, queue, qd, y, d) && (queue != [] ==> d < qd[0])
    ensures exists k :: 0 <= k < |visited| && visited[k] == y && vd[k] <= d
  {
    hide Walk;
    assert forall j :: 0 <= j < |queue| ==> qd[j] >= qd[0];
  }

  lemma SkipHead(idx: EdgeIndex, file: string, visited: seq<string>, vd: seq<nat>, queue: seq<string>, qd: seq<nat>)
    requires Frontier(idx, file, visited, vd, queue, qd) && queue != []
    requires queue[0] == "" || queue[0] in visited
    ensures Frontier(idx, file, visited, vd, queue[1..], qd[1..])
  {
    forall y, d | Covered(visited, vd, queue, qd, y, d) && y != ""
      ensures Covered(visited, vd, queue[1..], qd[1..], y, d)
    {
      CoveredAfterSkip(visited, vd, queue, qd, y, d);
    }
  }

  lemma CoveredAfterSkip(visited: seq<string>, vd: seq<nat>, queue: seq<string>, qd: seq<nat>, y: string, d: nat)
    requires |vd| == |visited| && |qd| == |queue| && queue != []
    requires forall i, j :: 0 <= i < |visited| && 0 <= j < |queue| ==> vd[i] <= qd[j]
    requires Covered(visited, vd, queue, qd, y, d)
    requires y == queue[0] ==> y in visited
    ensures Covered(visited, vd, queue[1..], qd[1..], y, d)
  {
    if j :| 0 <= j < |queue| && queue[j] == y && qd[j] <= d {
      if j > 0 { assert queue[1..][j - 1] == y && qd[1..][j - 1] <= d; }
    }
  }

  lemma HeadDistance(idx: EdgeIndex, file: string, visited: seq<string>, vd: seq<nat>, queue: seq<string>, qd: seq<nat>)
    requires Frontier(idx, file, visited, vd, queue, qd) && queue != []
    requires queue[0] != "" && queue[0] !in visited
    ensures Distance(idx, file, queue[0], qd[0])
  {
    forall m | 1 <= m < qd[0] ensures !Walk(idx, file, queue[0], m) {
      if Walk(idx, file, queue[0], m) { NearerVisited(idx, file, visited, vd, queue, qd, queue[0], m); }
    }
  }

  ghost function Level(n: nat, d: nat): (r: seq<nat>)
    ensures |r| == n && forall i :: 0 <= i < n ==> r[i] == d
  {
    seq(n, _ => d)
  }

  /** The queue after a visit: walks of length d or d + 1, the longer ones behind. */
  ghost predicate Queued(idx: EdgeIndex, file: string, queue: seq<string>, qd: seq<nat>, d: nat) {
    && |qd| == |queue|
    && (forall j :: 0 <= j < |queue| ==> d <= qd[j] <= d + 1 && (queue[j] != "" ==> Walk(idx, file, queue[j], qd[j])))
    && (forall i, j :: 0 <= i < j < |queue| ==> qd[i] <= qd[j])
  }

  lemma NextQueued(idx: EdgeIndex, file: string, queue: seq<string>, qd: seq<nat>, c: string, d: nat)
    requires Queued(idx, file, queue, qd, d) && Walk(idx, file, c, d)
    ensures var next := Froms(At(idx, c)); Queued(idx, file, queue + next, qd + Level(|next|, d + 1), d)
  {
    hide Walk;
    var next := Froms(At(idx, c));
    var q', qd' := queue + next, qd + Level(|next|, d + 1);
    forall j | 0 <= j < |q'| ensures d <= qd'[j] <= d + 1 && (q'[j] != "" ==> Walk(idx, file, q'[j], qd'[j])) {
      if j >= |queue| {
        var i := j - |queue|;
        assert q'[j] == next[i] && qd'[j] == d + 1;
        if next[i] != "" { assert next[i] in next; WalkExtend(idx, file, c, d, next[i]); }
      } else {
        assert q'[j] == queue[j] && qd'[j] == qd[j];
      }
    }
  }

  lemma VisitHeadVisited(idx: EdgeIndex, file: string, visited: seq<string>, vd: seq<nat>, c: string, d: nat)
    requires VisitedOk(idx, file, visited, vd) && c != "" && c !in visited && Distance(idx, file, c, d)
    requires forall i :: 0 <= i < |visited| ==> vd[i] <= d
    ensures VisitedOk(idx, file, visited + [c], vd + [d])
  {
    hide Distance;
    var v', vd' := visited + [c], vd + [d];
    forall i, j | 0 <= i < j < |v'| ensures v'[i] != v'[j] && vd'[i] <= vd'[j] {
      assert v'[i] == visited[i] && visited[i] in visited && vd'[i] == vd[i];
      if j < |visited| { assert v'[j] == visited[j] && vd'[j] == vd[j]; }
    }
    forall i | 0 <= i < |v'| ensures v'[i] != "" && Distance(idx, file, v'[i], vd'[i]) {
      if i < |visited| { assert v'[i] == visited[i] && vd'[i] == vd[i]; }
    }
  }

  lemma VisitHeadQueued(idx: EdgeIndex, file: string, queue: seq<string>, qd: seq<nat>)
    requires QueueOk(idx, file, queue, qd) && queue != [] && queue[0] != ""
    ensures var next := Froms(At(idx, queue[0])); var q', qd' := queue[1..] + next, qd[1..] + Level(|next|, qd[0] + 1);
      QueueOk(idx, file, q', qd') && forall j :: 0 <= j < |q'| ==> qd[0] <= qd'[j]
  {
    hide Walk;
    NextQueued(idx, file, queue[1..], qd[1..], queue[0], qd[0]);
  }

  lemma VisitHeadPlaced(idx: EdgeIndex, file: string, visited: seq<string>, vd: seq<nat>, queue: seq<string>, qd: seq<nat>)
    requires Frontier(idx, file, visited, vd, queue, qd) && queue != []
    requires queue[0] != "" && queue[0] !in visited
    ensures var next := Froms(At(idx, queue[0]));
      Placed(idx, file, visited + [queue[0]], vd + [qd[0]], queue[1..] + next, qd[1..] + Level(|next|, qd[0] + 1))
  {
    HeadDistance(idx, file, visited, vd, queue, qd);
    hide Closed, Walk, Distance;
    VisitHeadVisited(idx, file, visited, vd, queue[0], qd[0]);
    VisitHeadQueued(idx, file, queue, qd);
  }

  lemma StillCovered(visited: seq<string>, vd: seq<nat>, queue: seq<string>, qd: seq<nat>, next: seq<string>, nd: seq<nat>, y: string, n: nat)
    requires |vd| == |visited| && |qd| == |queue| && |nd| == |next| && queue != []
    requires Covered(visited, vd, queue, qd, y, n)
    ensures Covered(visited + [queue[0]], vd + [qd[0]], queue[1..] + next, qd[1..] + nd, y, n)
  {
    var v', vd', q', qd' := visited + [queue[0]], vd + [qd[0]], queue[1..] + next, qd[1..] + nd;
    if k :| 0 <= k < |visited| && visited[k] == y && vd[k] <= n {
      assert v'[k] == y && vd'[k] <= n;
    } else {
      var j :| 0 <= j < |queue| && queue[j] == y && qd[j] <= n;
      if j == 0 { assert v'[|visited|] == y && vd'[|visited|] <= n; } else { assert q'[j - 1] == y && qd'[j - 1] <= n; }
    }
  }

  lemma VisitHeadClosed(idx: EdgeIndex, file: string, visited: seq<string>, vd: seq<nat>, queue: seq<string>, qd: seq<nat>)
    requires |vd| == |visited| && |qd| == |queue| && queue != []
    requires Closed(idx, file, visited, vd, queue, qd)
    ensures var next := Froms(At(idx, queue[0]));
      Closed(idx, file, visited + [queue[0]], vd + [qd[0]], queue[1..] + next, qd[1..] + Level(|next|, qd[0] + 1))
  {
    var c, d := queue[0], qd[0];
    var next := Froms(At(idx, c));
    var nd := Level(|next|, d + 1);
    var v', vd', q', qd' := visited + [c], vd + [d], queue[1..] + next, qd[1..] + nd;
    forall y | DependsOn(idx, file, y) ensures Covered(v', vd', q', qd', y, 1) {
      StillCovered(visited, vd, queue, qd, next, nd, y, 1);
    }
    forall i, y | 0 <= i < |v'| && DependsOn(idx, v'[i], y) ensures Covered(v', vd', q', qd', y, vd'[i] + 1) {
      if i < |visited| {
        assert DependsOn(idx, visited[i], y);
        StillCovered(visited, vd, queue, qd, next, nd, y, vd[i] + 1);
      } else {
        var j :| 0 <= j < |next| && next[j] == y;
        assert q'[|queue| - 1 + j] == y && qd'[|queue| - 1 + j] == d + 1;
      }
    }
  }

  /** The search keeps the frontier invariant to the end and returns the distances of what it lists. */
  lemma {:induction false} BfsKeepsFrontier(idx: EdgeIndex, file: string, visited: seq<string>, vd: seq<nat>, queue: seq<string>, qd: seq<nat>) returns (rd: seq<nat>)
    requires Frontier(idx, file, visited, vd, queue, qd)
    requires forall x :: x in queue ==> x in Sources(idx)
    ensures Frontier(idx, file, Bfs(idx, visited, queue), rd, [], [])
    decreases Sources(idx) - Elems(visited), |queue|
  {
    if queue == [] {
      rd := vd;
    } else if queue[0] == "" || queue[0] in visited {
      SkipHead(idx, file, visited, vd, queue, qd);
      rd := BfsKeepsFrontier(idx, file, visited, vd, queue[1..], qd[1..]);
    } else {
      VisitHeadPlaced(idx, file, visited, vd, queue, qd);
      VisitHeadClosed(idx, file, visited, vd, queue, qd);
      FromsInSources(idx, queue[0]);
      var next := Froms(At(idx, queue[0]));
      assert queue[0] in queue;
      VisitShrinks(idx, visited, queue[0]);
      rd := BfsKeepsFrontier(idx, file, visited + [queue[0]], vd + [qd[0]], queue[1..] + next, qd[1..] + Level(|next|, qd[0] + 1));
    }
  }

  /**
   The transitive index of a file lists exactly what can be reached from it by one or more reverse edges, each file
   once, nearest first. A file therefore lists itself exactly when it lies on a cycle.
   */
  lemma TransitiveDependentsExact(idx: EdgeIndex, file: string)
    ensures var r := TransitiveDependents(idx, file);
      && (forall y :: y in r <==> Reaches(idx, file, y))
      && (forall i, j :: 0 <= i < j < |r| ==> r[i] != r[j])
      && (forall i, j, m, n :: 0 <= i < j < |r| && Distance(idx, file, r[i], m) && Distance(idx, file, r[j], n) ==> m <= n)
  {
    StartFrontier(idx, file);
    FromsInSources(idx, file);
    var queue := Froms(At(idx, file));
    var rd := BfsKeepsFrontier(idx, file, [], [], queue, Level(|queue|, 1));
    FinishedFrontier(idx, file, TransitiveDependents(idx, file), rd);
  }

  lemma StartFrontier(idx: EdgeIndex, file: string)
    ensures var queue := Froms(At(idx, file)); Frontier(idx, file, [], [], queue, Level(|queue|, 1))
  {
    var queue := Froms(At(idx, file));
    var qd := Level(|queue|, 1);
    assert Walk(idx, file, file, 0);
    forall j | 0 <= j < |queue| && queue[j] != "" ensures Walk(idx, file, queue[j], 1) {
      assert queue[j] in queue;
      assert DependsOn(idx, file, queue[j]);
    }
    forall y | DependsOn(idx, file, y) ensures Covered([], [], queue, qd, y, 1) {
      var j :| 0 <= j < |queue| && queue[j] == y;
      assert qd[j] == 1;
    }
  }

  lemma FinishedFrontier(idx: EdgeIndex, file: string, r: seq<string>, rd: seq<nat>)
    requires Frontier(idx, file, r, rd, [], [])
    ensures forall y :: y in r <==> Reaches(idx, file, y)
    ensures forall i, j :: 0 <= i < j < |r| ==> r[i] != r[j]
    ensures forall i, j, m, n :: 0 <= i < j < |r| && Distance(idx, file, r[i], m) && Distance(idx, file, r[j], n) ==> m <= n
  {
    forall y | y in r ensures Reaches(idx, file, y) {
      var i :| 0 <= i < |r| && r[i] == y;
      assert Distance(idx, file, r[i], rd[i]);
    }
    forall y | Reaches(idx, file, y) ensures y in r {
      var n: nat :| n >= 1 && Walk(idx, file, y, n);
      NearerVisited(idx, file, r, rd, [], [], y, n);
    }
    forall i, j, m, n | 0 <= i < j < |r| && Distance(idx, file, r[i], m) && Distance(idx, file, r[j], n) ensures m <= n {
      assert Distance(idx, file, r[i], rd[i]) && Distance(idx, file, r[j], rd[j]);
      assert m == rd[i] && n == rd[j];
    }
  }

  /** A chain of edges between any paths, the empty one included. */
  ghost predicate Chain(deps: seq<Edge>, x: string, y: string, n: nat)
    decreases n
  {
    if n == 0 then x == y else exists e :: e in deps && e.from == y && Chain(deps, x, e.to, n - 1)
  }

  ghost predicate Linked(deps: seq<Edge>, x: string, y: string) {
    exists n: nat :: n >= 1 && Chain(deps, x, y, n)
  }

  /** A step of the search is a stored edge read backwards. */
  lemma StepIsEdge(deps: seq<Edge>, x: string, y: string)
    ensures DependsOn(Index(deps, ToOf), x, y) <==> y != "" && exists e :: e in deps && e.from == y && e.to == x
  {
    var es := Scan(deps, ToOf, x);
    IndexAnswersScan(deps, ToOf, x);
    ScanMembers(deps, ToOf, x);
    if y in Froms(es) {
      var i :| 0 <= i < |es| && Froms(es)[i] == y;
      assert es[i] in deps && es[i].from == y && es[i].to == x;
    }
    if e :| e in deps && e.from == y && e.to == x {
      var i :| 0 <= i < |es| && es[i] == e;
      assert Froms(es)[i] == y;
    }
  }

  lemma {:induction false} WalkToChain(deps: seq<Edge>, x: string, y: string, n: nat)
    requires Walk(Index(deps, ToOf), x, y, n)
    ensures Chain(deps, x, y, n)
    decreases n
  {
    if n > 0 {
      var m := WalkSplit(Index(deps, ToOf), x, y, n);
      StepIsEdge(deps, m, y);
      hide Walk, DependsOn;
      var e :| e in deps && e.from == y && e.to == m;
      WalkToChain(deps, x, m, n - 1);
      assert e in deps && e.from == y && Chain(deps, x, e.to, n - 1);
    }
  }

  lemma {:induction false} ChainToWalk(deps: seq<Edge>, x: string, y: string, n: nat)
    requires forall e :: e in deps ==> e.from != ""
    requires Chain(deps, x, y, n)
    ensures Walk(Index(deps, ToOf), x, y, n)
    decreases n
  {
    if n > 0 {
      var e :| e in deps && e.from == y && Chain(deps, x, e.to, n - 1);
      ChainToWalk(deps, x, e.to, n - 1);
      hide Walk, Chain;
      StepIsEdge(deps, e.to, y);
      WalkExtend(Index(deps, ToOf), x, e.to, n - 1, y);
    }
  }

  /** Over stored edges with non-empty paths: the transitive dependents are exactly the files linked by a chain. */
  lemma TransitiveDependentsAreChains(deps: seq<Edge>, file: string, y: string)
    requires forall e :: e in deps ==> e.from != ""
    ensures y in TransitiveDependents(Index(deps, ToOf), file) <==> Linked(deps, file, y)
  {
    var idx := Index(deps, ToOf);
    TransitiveDependentsExact(idx, file);
    if y in TransitiveDependents(idx, file) {
      assert Reaches(idx, file, y);
      var n: nat :| n >= 1 && Walk(idx, file, y, n);
      WalkToChain(deps, file, y, n);
    }
    if Linked(deps, file, y) {
      var n: nat :| n >= 1 && Chain(deps, file, y, n);
      ChainToWalk(deps, file, y, n);
      assert Reaches(idx, file, y);
    }
  }

  /** The index misses no chain exactly when no stored edge comes from an empty path. */
  lemma ChainsNeedPaths(deps: seq<Edge>)
    ensures (forall file, y :: y in TransitiveDependents(Index(deps, ToOf), file) <==> Linked(deps, file, y))
      <==> forall e :: e in deps ==> e.from != ""
  {
    if forall e :: e in deps ==> e.from != "" {
      forall file, y ensures y in TransitiveDependents(Index(deps, ToOf), file) <==> Linked(deps, file, y) {
        TransitiveDependentsAreChains(deps, file, y);
      }
    } else {
      var e :| e in deps && e.from == "";
      assert Chain(deps, e.to, "", 1) by { assert Chain(deps, e.to, e.to, 0); }
      assert Linked(deps, e.to, "");
      TransitiveDependentsExact(Index(deps, ToOf), e.to);
      NeverReachesEmpty(Index(deps, ToOf), e.to);
    }
  }

  lemma NeverReachesEmpty(idx: EdgeIndex, x: string)
    ensures !Reaches(idx, x, "")
  {
    forall n: nat | n >= 1 ensures !Walk(idx, x, "", n) {}
  }

  /** With an empty path in the middle the search stops short of a file that a chain of edges reaches. */
  lemma EmptyPathHidesDependents()
    ensures var deps := [Edge("", "a", Import), Edge("c", "", Import)];
      Chain(deps, "a", "c", 2) && "c" !in TransitiveDependents(Index(deps, ToOf), "a")
  {
    var e0, e1 := Edge("", "a", Import), Edge("c", "", Import);
    var deps := [e0, e1];
    assert e1 in deps && e0 in deps;
    assert Chain(deps, "a", "a", 0);
    assert Chain(deps, "a", "", 1) by { assert e0.from == "" && Chain(deps, "a", e0.to, 0); }
    assert Chain(deps, "a", "c", 2) by { assert e1.from == "c" && Chain(deps, "a", e1.to, 1); }
    var idx := Index(deps, ToOf);
    ScanMembers(deps, ToOf, "a");
    IndexAnswersScan(deps, ToOf, "a");
    if Reaches(idx, "a", "c") {
      var n: nat :| n >= 1 && Walk(idx, "a", "c", n);
      NothingReached(idx, n, "c");
    }
    TransitiveDependentsExact(idx, "a");
  }

  lemma {:induction false} NothingReached(idx: EdgeIndex, n: nat, y: string)
    requires n >= 1 && Walk(idx, "a", y, n)
    requires forall e :: e in At(idx, "a") ==> e.from == ""
    ensures false
    decreases n
  {
    var m := WalkSplit(idx, "a", y, n);
    if n > 1 {
      hide Walk;
      NothingReached(idx, n - 1, m);
    } else {
      FromsAllEmpty(At(idx, m));
    }
  }

  lemma FromsAllEmpty(es: seq<Edge>)
    requires forall e :: e in es ==> e.from == ""
    ensures forall x :: x in Froms(es) ==> x == ""
  {
    forall x | x in Froms(es) ensures x == "" {
      var i :| 0 <= i < |es| && Froms(es)[i] == x;
      assert es[i] in es;
    }
  }

  // ---- The loops of the source ----------------------------------------------------------------------------

  datatype Indexes = Indexes(
    files: map<string, FileNode>, dependents: EdgeIndex, imports: EdgeIndex, transitive: map<string, seq<string>>)

  function FileIndex(files: seq<FileNode>): map<string, FileNode> {
    if files == [] then map[]
    else FileIndex(files[..|files| - 1])[files[|files| - 1].path := files[|files| - 1]]
  }

  lemma {:induction false} FileIndexHolds(files: seq<FileNode>, p: string)
    ensures p in FileIndex(files) <==> KL.HasKey(files, PathOf, p)
    ensures p in FileIndex(files) ==> FileIndex(files)[p] in files && FileIndex(files)[p].path == p
  {
    if files != [] {
      var n := |files| - 1;
      assert files == files[..n] + [files[n]];
      FileIndexHolds(files[..n], p);
      KL.FindAppend(files[..n], PathOf, files[n], p);
    }
  }

  function BuildIndexes(g: Graph): Indexes {
    var dependents := Index(g.dependencies, ToOf);
    Indexes(FileIndex(g.fileTree), dependents, Index(g.dependencies, FromOf),
            map f | f in dependents :: TransitiveDependents(dependents, f))
  }

  /** buildTransitiveDependents: one queue loop per file that has dependents. */
  method BuildTransitiveDependents(idx: EdgeIndex) returns (result: map<string, seq<string>>)
    ensures result == map f | f in idx :: TransitiveDependents(idx, f)
  {
    result := map[];
    var keys := idx.Keys;
    while keys != {}
      invariant keys <= idx.Keys
      invariant result == map f | f in idx && f !in keys :: TransitiveDependents(idx, f)
    {
      var file :| file in keys;
      var visited, queue := [], Froms(At(idx, file));
      FromsInSources(idx, file);
      while queue != []
        invariant forall x :: x in queue ==> x in Sources(idx)
        invariant Bfs(idx, visited, queue) == TransitiveDependents(idx, file)
        decreases Sources(idx) - Elems(visited), |queue|
      {
        var current := queue[0];
        queue := queue[1..];
        if current != "" && current !in visited {
          FromsInSources(idx, current);
          VisitShrinks(idx, visited, current);
          visited := visited + [current];
          queue := queue + Froms(At(idx, current));
        }
      }
      result := result[file := visited];
      keys := keys - {file};
    }
  }

  /** The index-building loops of buildEntry. */
  method BuildEntryIndexes(g: Graph) returns (r: Indexes)
    ensures r == BuildIndexes(g)
  {
    var files: map<string, FileNode> := map[];
    for i := 0 to |g.fileTree|
      invariant files == FileIndex(g.fileTree[..i])
    {
      assert g.fileTree[..i + 1][..i] == g.fileTree[..i];
      files := files[g.fileTree[i].path := g.fileTree[i]];
    }
    var deps := g.dependencies;
    var dependents: EdgeIndex, imports: EdgeIndex := map[], map[];
    for i := 0 to |deps|
      invariant dependents == Index(deps[..i], ToOf) && imports == Index(deps[..i], FromOf)
    {
      var edge := deps[i];
      assert deps[..i + 1][..i] == deps[..i];
      imports := imports[edge.from := At(imports, edge.from) + [edge]];
      dependents := dependents[edge.to := At(dependents, edge.to) + [edge]];
    }
    assert deps[..|deps|] == deps && g.fileTree[..|g.fileTree|] == g.fileTree;
    var transitive := BuildTransitiveDependents(dependents);
    r := Indexes(files, dependents, imports, transitive);
  }
}
