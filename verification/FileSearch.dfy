/** scoreFile and searchFiles: fuzzy file search over the stored tree (src/cache/graphCache.ts). */
module FileSearch {
  import opened GraphModel
  import opened StableSort
  import opened Texts
  import KL = KeyedList

  function IndexOfChar(t: string, c: char, from: nat): (r: int)
    ensures r == -1 || (from <= r < |t| && t[r] == c)
    ensures forall i :: from <= i < |t| && (r == -1 || i < r) ==> t[i] != c
    decreases |t| - from
  {
    if from >= |t| then -1 else if t[from] == c then from else IndexOfChar(t, c, from + 1)
  }

  predicate Includes(t: string, p: string) {
    exists i :: 0 <= i <= |t| && OccursAt(t, p, i)
  }

  /** The character scan: every pattern character at its first place after the previous one; 0 when one is missing. */
  function Greedy(target: string, cursor: nat, pattern: string, score: nat): nat
    decreases |pattern|
  {
    if pattern == [] then score
    else
      var found := IndexOfChar(target, pattern[0], cursor);
      if found == -1 then 0
      else Greedy(target, found + 1, pattern[1..], score + if found == cursor then 4 else 1)
  }

  /** scoreFile on a lower-cased path and pattern. */
  function Score(target: string, pattern: string): nat {
    if pattern == "" then 1
    else if target == pattern then 100
    else if EndsWith(target, pattern) then 80
    else if Includes(target, pattern) then 50
    else Greedy(target, 0, pattern, 0)
  }

  // ---- The scan is complete -----------------------------------------------------------------------------------

  ghost predicate Ascending(idx: seq<nat>) { forall i, j :: 0 <= i < j < |idx| ==> idx[i] < idx[j] }

  /** The pattern's characters occur in the target in order, at the ascending places idx. */
  ghost predicate EmbedsAt(p: string, t: string, idx: seq<nat>) {
    && |idx| == |p| && Ascending(idx)
    && forall i :: 0 <= i < |p| ==> idx[i] < |t| && t[idx[i]] == p[i]
  }

  ghost predicate Embeds(p: string, t: string) { exists idx :: EmbedsAt(p, t, idx) }

  ghost function Shift(idx: seq<nat>, d: int): (r: seq<nat>)
    requires forall i :: 0 <= i < |idx| ==> idx[i] + d >= 0
    ensures |r| == |idx| && forall i :: 0 <= i < |idx| ==> r[i] == idx[i] + d
  {
    seq(|idx|, i requires 0 <= i < |idx| => idx[i] + d)
  }

  lemma {:induction false} EmbeddingIsSubsequence(p: string, t: string, idx: seq<nat>)
    requires EmbedsAt(p, t, idx)
    ensures KL.Subsequence(p, t)
    decreases |t|
  {
    if p != [] {
      assert idx[0] < |t|;
      if idx[0] == 0 {
        var rest := Shift(idx[1..], -1);
        assert EmbedsAt(p[1..], t[1..], rest) by {
          forall i, j | 0 <= i < j < |rest| ensures rest[i] < rest[j] { assert idx[i + 1] < idx[j + 1]; }
          forall i | 0 <= i < |rest| ensures t[1..][rest[i]] == p[1..][i] { assert t[idx[i + 1]] == p[i + 1]; }
        }
        EmbeddingIsSubsequence(p[1..], t[1..], rest);
      } else {
        assert forall i :: 0 < i < |idx| ==> idx[0] < idx[i];
        EmbeddingIsSubsequence(p, t[1..], Shift(idx, -1));
        KL.SubsequenceSkip(p, t);
      }
    }
  }

  lemma {:induction false} SubsequenceIsEmbedding(p: string, t: string) returns (idx: seq<nat>)
    requires KL.Subsequence(p, t)
    ensures EmbedsAt(p, t, idx)
    decreases |t|
  {
    if p == [] {
      idx := [];
    } else if p[0] == t[0] {
      var rest := SubsequenceIsEmbedding(p[1..], t[1..]);
      idx := [0] + Shift(rest, 1);
      forall i | 0 <= i < |p| ensures idx[i] < |t| && t[idx[i]] == p[i] {
        if i > 0 { assert t[1..][rest[i - 1]] == p[1..][i - 1]; }
      }
    } else {
      var rest := SubsequenceIsEmbedding(p, t[1..]);
      idx := Shift(rest, 1);
      forall i | 0 <= i < |p| ensures idx[i] < |t| && t[idx[i]] == p[i] { assert t[1..][rest[i]] == p[i]; }
    }
  }

  lemma {:induction false} SkipMisses(p: string, t: string, lo: nat, hi: nat)
    requires p != [] && lo <= hi <= |t|
    requires forall i :: lo <= i < hi ==> t[i] != p[0]
    ensures KL.Subsequence(p, t[lo..]) <==> KL.Subsequence(p, t[hi..])
    decreases hi - lo
  {
    if lo < hi {
      assert t[lo..][1..] == t[lo + 1..];
      SkipMisses(p, t, lo + 1, hi);
    }
  }

  /** The greedy scan finds a match whenever there is one. */
  lemma {:induction false} GreedyComplete(target: string, cursor: nat, pattern: string, score: nat)
    requires cursor <= |target| && (score > 0 || pattern != [])
    ensures Greedy(target, cursor, pattern, score) > 0 <==> KL.Subsequence(pattern, target[cursor..])
    decreases |pattern|
  {
    if pattern != [] {
      var found := IndexOfChar(target, pattern[0], cursor);
      if found == -1 {
        SkipMisses(pattern, target, cursor, |target|);
      } else {
        SkipMisses(pattern, target, cursor, found);
        assert target[found..][1..] == target[found + 1..];
        GreedyComplete(target, found + 1, pattern[1..], score + if found == cursor then 4 else 1);
      }
    }
  }

  lemma OccurrenceEmbeds(p: string, t: string, i: int)
    requires OccursAt(t, p, i)
    ensures Embeds(p, t)
  {
    var idx: seq<nat> := seq(|p|, k => i + k);
    forall k | 0 <= k < |p| ensures t[idx[k]] == p[k] { assert t[i..i + |p|][k] == p[k]; }
    assert EmbedsAt(p, t, idx);
  }

  /** A file scores above zero exactly when the pattern's characters occur in its path in order. */
  lemma ScorePositive(target: string, pattern: string)
    ensures Score(target, pattern) > 0 <==> Embeds(pattern, target)
  {
    if pattern == "" {
      assert EmbedsAt(pattern, target, []);
    } else if target == pattern {
      OccurrenceEmbeds(pattern, target, 0);
    } else if EndsWith(target, pattern) {
      OccurrenceEmbeds(pattern, target, |target| - |pattern|);
    } else if Includes(target, pattern) {
      var i :| 0 <= i <= |target| && OccursAt(target, pattern, i);
      OccurrenceEmbeds(pattern, target, i);
    } else {
      GreedyComplete(target, 0, pattern, 0);
      assert target[0..] == target;
      if KL.Subsequence(pattern, target) { var idx := SubsequenceIsEmbedding(pattern, target); }
      if Embeds(pattern, target) {
        var idx :| EmbedsAt(pattern, target, idx);
        EmbeddingIsSubsequence(pattern, target, idx);
      }
    }
  }

  // ---- How high a scattered match can score -------------------------------------------------------------------

  // ---- What a score says ------------------------------------------------------------------------------------------

  /** The places of an embedding from a position on. */
  ghost predicate PlacedFrom(p: string, t: string, cursor: nat, idx: seq<nat>) {
    EmbedsAt(p, t, idx) && forall i :: 0 <= i < |idx| ==> cursor <= idx[i]
  }

  /** Four points for a character right after the one before it, the first at the start; one for any other. */
  function Points(cursor: nat, idx: seq<nat>): nat
    decreases |idx|
  {
    if idx == [] then 0 else (if idx[0] == cursor then 4 else 1) + Points(idx[0] + 1, idx[1..])
  }

  /** Every place is the earliest any embedding from the cursor has for its character. */
  ghost predicate Leftmost(p: string, t: string, cursor: nat, idx: seq<nat>) {
    PlacedFrom(p, t, cursor, idx) && forall other, i :: PlacedFrom(p, t, cursor, other) && 0 <= i < |idx| ==> idx[i] <= other[i]
  }

  lemma TailPlaced(p: string, t: string, cursor: nat, idx: seq<nat>, first: nat)
    requires p != [] && PlacedFrom(p, t, cursor, idx) && first <= idx[0]
    ensures PlacedFrom(p[1..], t, first + 1, idx[1..])
  {
    var r := idx[1..];
    forall i | 0 <= i < |r| ensures first + 1 <= r[i] < |t| && t[r[i]] == p[1..][i] {
      assert r[i] == idx[i + 1] && idx[0] < idx[i + 1] && p[1..][i] == p[i + 1];
    }
    forall i, j | 0 <= i < j < |r| ensures r[i] < r[j] { assert idx[i + 1] < idx[j + 1]; }
  }

  lemma ConsPlaced(p: string, t: string, cursor: nat, first: nat, rest: seq<nat>)
    requires p != [] && cursor <= first < |t| && t[first] == p[0] && PlacedFrom(p[1..], t, first + 1, rest)
    ensures PlacedFrom(p, t, cursor, [first] + rest)
  {
    var idx := [first] + rest;
    forall i | 0 <= i < |p| ensures cursor <= idx[i] < |t| && t[idx[i]] == p[i] {
      if i > 0 { assert idx[i] == rest[i - 1] && p[1..][i - 1] == p[i]; }
    }
    forall i, j | 0 <= i < j < |idx| ensures idx[i] < idx[j] {
      assert idx[j] == rest[j - 1];
      if i > 0 { assert idx[i] == rest[i - 1]; }
    }
  }

  ghost predicate FirstPlace(c: char, t: string, cursor: nat, found: nat) {
    cursor <= found < |t| && t[found] == c && forall i :: cursor <= i < found ==> t[i] != c
  }

  /** One step of the scan, where an embedding exists. */
  lemma GreedyStep(p: string, t: string, cursor: nat, score: nat, some: seq<nat>) returns (found: nat)
    requires p != [] && PlacedFrom(p, t, cursor, some)
    ensures some != [] && FirstPlace(p[0], t, cursor, found) && PlacedFrom(p[1..], t, found + 1, some[1..])
    ensures Greedy(t, cursor, p, score) == Greedy(t, found + 1, p[1..], score + if found == cursor then 4 else 1)
  {
    assert t[some[0]] == p[0] && cursor <= some[0] < |t|;
    found := IndexOfChar(t, p[0], cursor);
    TailPlaced(p, t, cursor, some, found);
  }

  lemma ConsLeftmost(p: string, t: string, cursor: nat, found: nat, rest: seq<nat>)
    requires p != [] && FirstPlace(p[0], t, cursor, found) && Leftmost(p[1..], t, found + 1, rest)
    ensures Leftmost(p, t, cursor, [found] + rest)
  {
    var idx := [found] + rest;
    ConsPlaced(p, t, cursor, found, rest);
    forall other, i | PlacedFrom(p, t, cursor, other) && 0 <= i < |idx| ensures idx[i] <= other[i] {
      assert t[other[0]] == p[0] && cursor <= other[0] < |t|;
      TailPlaced(p, t, cursor, other, found);
      if i > 0 { assert rest[i - 1] <= other[1..][i - 1]; }
    }
  }

  lemma PointsCons(cursor: nat, found: nat, rest: seq<nat>)
    ensures Points(cursor, [found] + rest) == (if found == cursor then 4 else 1) + Points(found + 1, rest)
  {
    assert ([found] + rest)[1..] == rest;
  }

  lemma NothingPlaced(t: string, cursor: nat, score: nat)
    ensures Leftmost([], t, cursor, []) && Greedy(t, cursor, [], score) == score + Points(cursor, [])
  {
  }

  /** The scan gives the points of the leftmost embedding. */
  lemma {:induction false} GreedyPlaces(p: string, t: string, cursor: nat, score: nat, some: seq<nat>) returns (idx: seq<nat>)
    requires PlacedFrom(p, t, cursor, some)
    ensures Leftmost(p, t, cursor, idx) && Greedy(t, cursor, p, score) == score + Points(cursor, idx)
    decreases |p|
  {
    hide Leftmost, PlacedFrom, FirstPlace;
    if p == [] {
      NothingPlaced(t, cursor, score);
      idx := [];
    } else {
      var found := GreedyStep(p, t, cursor, score, some);
      var gain := if found == cursor then 4 else 1;
      var rest := GreedyPlaces(p[1..], t, found + 1, score + gain, some[1..]);
      ConsLeftmost(p, t, cursor, found, rest);
      PointsCons(cursor, found, rest);
      idx := [found] + rest;
    }
  }

  /**
   The score of a file for a non-empty pattern: 100 for the pattern itself, 80 for a path that ends with it, 50 for one
   that contains it elsewhere, the points of the leftmost embedding for a scattered match, and 0 for no match.
   */
  lemma ScoreSays(target: string, pattern: string)
    requires pattern != ""
    ensures target == pattern ==> Score(target, pattern) == 100
    ensures (exists a: string :: a != "" && target == a + pattern) ==> Score(target, pattern) == 80
    ensures (exists a: string, b: string :: target == a + pattern + b) && !(exists a: string :: target == a + pattern) ==> Score(target, pattern) == 50
    ensures (exists idx :: EmbedsAt(pattern, target, idx)) && !(exists a: string, b: string :: target == a + pattern + b) ==>
      exists idx :: Leftmost(pattern, target, 0, idx) && Score(target, pattern) == Points(0, idx)
    ensures !(exists idx :: EmbedsAt(pattern, target, idx)) ==> Score(target, pattern) == 0
  {
    Affixes(target, pattern);
    ScorePositive(target, pattern);
    if some :| EmbedsAt(pattern, target, some) {
      var idx := GreedyPlaces(pattern, target, 0, 0, some);
    }
  }

  lemma Affixes(target: string, pattern: string)
    ensures EndsWith(target, pattern) <==> exists a: string :: target == a + pattern
    ensures Includes(target, pattern) <==> exists a: string, b: string :: target == a + pattern + b
    ensures EndsWith(target, pattern) ==> Includes(target, pattern)
  {
    if EndsWith(target, pattern) {
      var n := |target| - |pattern|;
      assert target == target[..n] + pattern;
      assert OccursAt(target, pattern, n);
    }
    if a: string :| target == a + pattern { assert target[|a|..] == pattern; }
    if i :| 0 <= i <= |target| && OccursAt(target, pattern, i) {
      assert target == target[..i] + pattern + target[i + |pattern|..];
    }
    if a: string, b: string :| target == a + pattern + b { assert OccursAt(target, pattern, |a|); }
  }

  lemma OccursCons(t: string, p: string, i: nat)
    requires p != [] && i < |t| && t[i] == p[0] && OccursAt(t, p[1..], i + 1)
    ensures OccursAt(t, p, i)
  {
    assert t[i..i + |p|] == [t[i]] + t[i + 1..i + 1 + |p[1..]|];
    assert p == [p[0]] + p[1..];
  }

  lemma {:induction false} GreedyBound(target: string, cursor: nat, pattern: string, score: nat)
    requires cursor <= |target| && pattern != []
    ensures Greedy(target, cursor, pattern, score) <= score + 4 * |pattern| - 3 || OccursAt(target, pattern, cursor)
    ensures Greedy(target, cursor, pattern, score) <= score + 4 * |pattern|
    decreases |pattern|
  {
    var found := IndexOfChar(target, pattern[0], cursor);
    if found != -1 {
      var next := score + if found == cursor then 4 else 1;
      var rest := pattern[1..];
      assert Greedy(target, cursor, pattern, score) == Greedy(target, found + 1, rest, next);
      if rest == [] {
        assert target[found + 1..found + 1] == rest;
      } else {
        GreedyBound(target, found + 1, rest, next);
      }
      hide Greedy, IndexOfChar;
      if found == cursor && OccursAt(target, rest, cursor + 1) { OccursCons(target, pattern, cursor); }
    }
  }

  lemma {:induction false} GreedyRun(target: string, cursor: nat, p: string, q: string, score: nat)
    requires cursor + |p| <= |target| && target[cursor..cursor + |p|] == p
    ensures Greedy(target, cursor, p + q, score) == Greedy(target, cursor + |p|, q, score + 4 * |p|)
    decreases |p|
  {
    if p == [] {
      assert p + q == q;
    } else {
      var w := target[cursor..cursor + |p|];
      assert target[cursor] == w[0] == p[0];
      assert IndexOfChar(target, p[0], cursor) == cursor;
      assert (p + q)[0] == p[0] && (p + q)[1..] == p[1..] + q;
      assert target[cursor + 1..cursor + 1 + |p[1..]|] == w[1..] == p[1..];
      GreedyRun(target, cursor + 1, p[1..], q, score + 4);
    }
  }

  /** The pattern with one foreign character before its last: a scattered match with a single gap. */
  function OneGap(pattern: string): string
    requires |pattern| >= 2
  {
    var n := |pattern|;
    pattern[..n - 1] + [Foreign(pattern[n - 1], pattern[n - 2])] + [pattern[n - 1]]
  }

  function Foreign(a: char, b: char): char { if 'a' != a && 'a' != b then 'a' else if 'b' != a && 'b' != b then 'b' else 'c' }

  lemma OneGapNotIncluded(pattern: string)
    requires |pattern| >= 2
    ensures var t := OneGap(pattern); t != pattern && !EndsWith(t, pattern) && !Includes(t, pattern)
  {
    var n, t := |pattern|, OneGap(pattern);
    var x := t[n - 1];
    forall i ensures !OccursAt(t, pattern, i) {
      if i < 0 || i > |t| - n {
      } else if i == 0 { assert t[i..i + n][n - 1] == x; } else { assert t[i..i + n][n - 2] == x; }
    }
    assert t[|t| - n..] == t[1..1 + n];
    assert !OccursAt(t, pattern, 1);
  }

  lemma OneGapScores(pattern: string)
    requires |pattern| >= 2
    ensures Score(OneGap(pattern), pattern) == 4 * |pattern| - 3
  {
    var n, t := |pattern|, OneGap(pattern);
    OneGapNotIncluded(pattern);
    var p, q := pattern[..n - 1], [pattern[n - 1]];
    assert p + q == pattern && t[0..0 + |p|] == p;
    GreedyRun(t, 0, p, q, 0);
    assert t[n - 1] != q[0] && t[n] == q[0];
    assert IndexOfChar(t, q[0], n - 1) == n;
    assert q[1..] == [];
  }

  /**
   An exact path match outranks every other file exactly for patterns of up to 25 characters: from 26 on a scattered
   match with a single gap scores above 100.
   */
  lemma ExactMatchFirst(pattern: string)
    requires pattern != ""
    ensures (forall target :: target != pattern ==> Score(target, pattern) < Score(pattern, pattern)) <==> |pattern| <= 25
  {
    if |pattern| <= 25 {
      forall target | target != pattern ensures Score(target, pattern) < 100 {
        GreedyBound(target, 0, pattern, 0);
      }
    } else {
      OneGapScores(pattern);
      OneGapNotIncluded(pattern);
    }
  }

  // ---- searchFiles --------------------------------------------------------------------------------------------

  datatype Match = Match(file: FileNode, score: nat)

  function FileOf(m: Match): FileNode { m.file }

  function Outranks(leq: (string, string) -> bool): (Match, Match) -> bool {
    (a: Match, b: Match) => a.score > b.score || (a.score == b.score && leq(a.file.path, b.file.path))
  }

  function Matches(tree: seq<FileNode>, pattern: string, lower: string -> string): seq<Match> {
    if tree == [] then []
    else
      var f := tree[|tree| - 1];
      var s := Score(lower(f.path), pattern);
      Matches(tree[..|tree| - 1], pattern, lower) + if s > 0 then [Match(f, s)] else []
  }

  function Search(tree: seq<FileNode>, pattern: string, lower: string -> string, leq: (string, string) -> bool, limit: nat): seq<FileNode> {
    MapSeq(FileOf, Take(Sort(Matches(tree, pattern, lower), Outranks(leq)), limit))
  }

  lemma {:induction false} MatchesExact(tree: seq<FileNode>, pattern: string, lower: string -> string)
    ensures forall m :: m in Matches(tree, pattern, lower) <==>
      m.file in tree && m.score == Score(lower(m.file.path), pattern) && m.score > 0
  {
    if tree != [] {
      var n := |tree| - 1;
      assert tree == tree[..n] + [tree[n]];
      MatchesExact(tree[..n], pattern, lower);
    }
  }

  ghost function Rank(f: FileNode, pattern: string, lower: string -> string): nat { Score(lower(f.path), pattern) }

  /** f stands before g in the result order: a better score, or the same score and a path not after g's. */
  ghost predicate Before(f: FileNode, g: FileNode, pattern: string, lower: string -> string, leq: (string, string) -> bool) {
    || Rank(f, pattern, lower) > Rank(g, pattern, lower)
    || (Rank(f, pattern, lower) == Rank(g, pattern, lower) && leq(f.path, g.path))
  }

  lemma OutranksOrders(leq: (string, string) -> bool)
    requires TotalPreorder(leq)
    ensures TotalPreorder(Outranks(leq))
  {
    var ord := Outranks(leq);
    forall a: Match, b: Match ensures ord(a, b) || ord(b, a) {
      assert leq(a.file.path, b.file.path) || leq(b.file.path, a.file.path);
    }
    forall a: Match, b: Match, c: Match | ord(a, b) && ord(b, c) ensures ord(a, c) {
      if a.score == b.score == c.score { assert leq(a.file.path, b.file.path) && leq(b.file.path, c.file.path); }
    }
  }

  /** The sorted matches: stored files that match, in result order, none missing. */
  lemma SortedMatches(tree: seq<FileNode>, pattern: string, lower: string -> string, leq: (string, string) -> bool)
    requires TotalPreorder(leq)
    ensures var s := Sort(Matches(tree, pattern, lower), Outranks(leq));
      && (forall i :: 0 <= i < |s| ==> s[i].file in tree && Rank(s[i].file, pattern, lower) > 0)
      && (forall i, j :: 0 <= i < j < |s| ==> Before(s[i].file, s[j].file, pattern, lower, leq))
      && (forall f :: f in tree && Rank(f, pattern, lower) > 0 ==> exists j :: 0 <= j < |s| && s[j].file == f)
  {
    hide Score;
    var ord, ms := Outranks(leq), Matches(tree, pattern, lower);
    var s := Sort(ms, ord);
    OutranksOrders(leq);
    MatchesExact(tree, pattern, lower);
    SortSorted(ms, ord);
    SortMembers(ms, ord);
    hide Sort, Matches;
    forall i | 0 <= i < |s| ensures s[i].file in tree && s[i].score == Rank(s[i].file, pattern, lower) > 0 {
      assert s[i] in s && s[i] in ms;
    }
    forall i, j | 0 <= i < j < |s| ensures Before(s[i].file, s[j].file, pattern, lower, leq) {
      assert ord(s[i], s[j]);
    }
    forall f | f in tree && Rank(f, pattern, lower) > 0 ensures exists j :: 0 <= j < |s| && s[j].file == f {
      var m := Match(f, Rank(f, pattern, lower));
      assert m in ms && m in s;
      var j :| 0 <= j < |s| && s[j] == m;
      assert s[j].file == f;
    }
  }

  /**
   searchFiles returns at most `limit` stored files, each containing the pattern as a subsequence, best score first
   and by path within a score; no file left out stands before a returned one, and none is left out below the limit.
   */
  lemma SearchReturnsBest(tree: seq<FileNode>, pattern: string, lower: string -> string, leq: (string, string) -> bool, limit: nat)
    requires TotalPreorder(leq)
    ensures var r := Search(tree, pattern, lower, leq, limit);
      && |r| <= limit
      && (forall f :: f in r ==> f in tree && Embeds(pattern, lower(f.path)))
      && (forall i, j :: 0 <= i < j < |r| ==> Before(r[i], r[j], pattern, lower, leq))
      && (forall f :: f in tree && Embeds(pattern, lower(f.path)) && f !in r ==>
            |r| == limit && forall i :: 0 <= i < |r| ==> Before(r[i], f, pattern, lower, leq))
  {
    hide Embeds, Before;
    var s := Sort(Matches(tree, pattern, lower), Outranks(leq));
    var r := Search(tree, pattern, lower, leq, limit);
    SortedMatches(tree, pattern, lower, leq);
    forall f ensures Rank(f, pattern, lower) > 0 <==> Embeds(pattern, lower(f.path)) {
      ScorePositive(lower(f.path), pattern);
    }
    hide Rank;
    var t := Take(s, limit);
    forall i | 0 <= i < |r| ensures r[i] == s[i].file { assert r[i] == FileOf(t[i]); }
    forall f | f in r ensures f in tree && Embeds(pattern, lower(f.path)) {
      var i :| 0 <= i < |r| && r[i] == f;
      assert s[i].file == f && Rank(s[i].file, pattern, lower) > 0;
    }
    forall f | f in tree && Embeds(pattern, lower(f.path)) && f !in r
      ensures |r| == limit && forall i :: 0 <= i < |r| ==> Before(r[i], f, pattern, lower, leq)
    {
      var j :| 0 <= j < |s| && s[j].file == f;
      assert j >= |r|;
    }
  }

  // ---- The loops of the source --------------------------------------------------------------------------------

  method ScoreFile(path: string, pattern: string, lower: string -> string) returns (r: nat)
    ensures r == Score(lower(path), pattern)
  {
    if pattern == "" { return 1; }
    var target := lower(path);
    if target == pattern { return 100; }
    if EndsWith(target, pattern) { return 80; }
    if Includes(target, pattern) { return 50; }
    var score: nat, cursor: nat := 0, 0;
    for i := 0 to |pattern|
      invariant Greedy(target, cursor, pattern[i..], score) == Greedy(target, 0, pattern, 0)
    {
      var found := IndexOfChar(target, pattern[i], cursor);
      assert pattern[i..][0] == pattern[i] && pattern[i..][1..] == pattern[i + 1..];
      if found == -1 { return 0; }
      score := score + if found == cursor then 4 else 1;
      cursor := found + 1;
    }
    return score;
  }

  method SearchFiles(tree: seq<FileNode>, pattern: string, lower: string -> string, leq: (string, string) -> bool, limit: nat)
    returns (r: seq<FileNode>)
    ensures r == Search(tree, pattern, lower, leq, limit)
  {
    var matches: seq<Match> := [];
    for i := 0 to |tree|
      invariant matches == Matches(tree[..i], pattern, lower)
    {
      var score := ScoreFile(tree[i].path, pattern, lower);
      assert tree[..i + 1][..i] == tree[..i];
      if score > 0 { matches := matches + [Match(tree[i], score)]; }
    }
    assert tree[..|tree|] == tree;
    r := MapSeq(FileOf, Take(Sort(matches, Outranks(leq)), limit));
  }
}
