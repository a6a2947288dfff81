/** The stored repository graph, its keys and its sanitization (src/cache/graphCache.ts). */
module GraphModel {
  import opened Wrappers
  import KL = KeyedList
  import opened StableSort

  datatype FileNode = FileNode(path: string, size: int, lastModified: int, lastAuthor: string, sha: string)

  datatype DependencyType = Import | Require | Reference

  datatype Edge = Edge(from: string, to: string, kind: DependencyType)

  // The share is the exact ratio; the source rounds it to two decimals.
  datatype Ownership = Ownership(file: string, primaryOwner: string, secondaryOwners: seq<string>, share: real)

  datatype Commit = Commit(sha: string, message: string, author: string, date: int, files: seq<string>)

  // A pull request, issue, review or Slack decision; body stands for the fields the cache only carries.
  datatype Record = Record(id: string, stamp: int, title: string, body: string)

  datatype Metadata = Metadata(
    language: string, framework: Option<string>, lastIndexedAt: int, indexVersion: int,
    indexedBranch: Option<string>, indexedCommit: Option<string>)

  datatype Graph = Graph(
    repoId: string, owner: string, repo: string, lastUpdated: int,
    fileTree: seq<FileNode>, dependencies: seq<Edge>, owners: seq<Ownership>, recentCommits: seq<Commit>,
    pullRequests: seq<Record>, issues: seq<Record>, reviews: seq<Record>, slackDecisions: seq<Record>,
    branches: seq<string>, defaultBranch: Option<string>, metadata: Metadata)

  datatype RepoRef = RepoRef(repoId: string, owner: string, repo: string, defaultBranch: Option<string>)

  datatype Limits = Limits(ttlMs: int, maxRepos: nat, maxCommits: nat, maxMetadata: nat)

  function PathOf(f: FileNode): string { f.path }
  function ShaOf(c: Commit): string { c.sha }
  function IdOf(r: Record): string { r.id }
  function Same(s: string): string { s }

  // ---- Composite keys -------------------------------------------------------------------------------------

  const NUL := '\0'

  ghost predicate NulFree(s: string) { NUL !in s }

  function CacheKey(org: string, repo: string): string { org + [NUL] + repo }

  function KindName(k: DependencyType): string {
    match k case Import => "import" case Require => "require" case Reference => "reference"
  }

  function EdgeKey(e: Edge): string { e.from + [NUL] + (e.to + [NUL] + KindName(e.kind)) }

  /** A NUL-separated key can be split again in one way only when the left parts are free of NUL. */
  lemma {:induction false} SplitAtNul(a: string, x: string, b: string, y: string)
    requires NulFree(a) && NulFree(b) && a + [NUL] + x == b + [NUL] + y
    ensures a == b && x == y
  {
    var l, r := a + [NUL] + x, b + [NUL] + y;
    if a == [] || b == [] {
      assert l[0] == r[0];
      assert a == [] && b == [];
      assert l[1..] == x && r[1..] == y;
    } else {
      assert l[0] == a[0] && r[0] == b[0];
      assert l[1..] == a[1..] + [NUL] + x && r[1..] == b[1..] + [NUL] + y;
      SplitAtNul(a[1..], x, b[1..], y);
      assert a == [a[0]] + a[1..] && b == [b[0]] + b[1..];
    }
  }

  lemma CacheKeyInjective(org: string, repo: string, org': string, repo': string)
    requires NulFree(org) && NulFree(org')
    ensures CacheKey(org, repo) == CacheKey(org', repo') <==> (org, repo) == (org', repo')
  {
    if CacheKey(org, repo) == CacheKey(org', repo') { SplitAtNul(org, repo, org', repo'); }
  }

  /** Exactly which two tenants share a cache entry: one org id must be the other followed by NUL and more. */
  lemma CacheKeyCollision(org: string, repo: string, org': string, repo': string)
    requires |org| <= |org'| && (org, repo) != (org', repo')
    ensures CacheKey(org, repo) == CacheKey(org', repo')
       <==> exists m: string :: org' == org + [NUL] + m && repo == m + [NUL] + repo'
  {
    var l, r := CacheKey(org, repo), CacheKey(org', repo');
    if l == r {
      assert org == l[..|org|] && org' == r[..|org'|];
      assert repo == l[|org| + 1..] && repo' == r[|org'| + 1..];
      if |org| == |org'| {
        assert false;
      } else {
        var m := org'[|org| + 1..];
        assert org'[|org|] == r[|org|] == l[|org|] == NUL;
        assert org' == org + [NUL] + m;
        assert |repo| == |m| + 1 + |repo'|;
        assert repo == m + [NUL] + repo' by {
          forall i | 0 <= i < |repo| ensures repo[i] == (m + [NUL] + repo')[i] {
            assert repo[i] == l[|org| + 1 + i] == r[|org| + 1 + i];
          }
        }
      }
    }
    if m: string :| org' == org + [NUL] + m && repo == m + [NUL] + repo' {
      assert l == org + [NUL] + (m + [NUL] + repo');
      assert r == (org + [NUL] + m) + [NUL] + repo';
      assert l == r;
    }
  }

  lemma SplitAtLastNul(a: string, x: string, b: string, y: string)
    requires NulFree(x) && NulFree(y) && a + [NUL] + x == b + [NUL] + y
    ensures a == b && x == y
  {
    var l, r := a + [NUL] + x, b + [NUL] + y;
    LastNul(a, x);
    LastNul(b, y);
    assert |a| == |b|;
    assert a == l[..|a|] && b == r[..|b|] && x == l[|a| + 1..] && y == r[|b| + 1..];
  }

  lemma LastNul(a: string, x: string)
    requires NulFree(x)
    ensures var l := a + [NUL] + x; l[|a|] == NUL && forall i :: |a| < i < |l| ==> l[i] != NUL
  {
    var l := a + [NUL] + x;
    forall i | |a| < i < |l| ensures l[i] != NUL { assert l[i] == x[i - |a| - 1] && l[i] in x; }
  }

  /** Exactly which edges share a key: those of one type whose two paths collide as an org and a repository do. */
  lemma EdgeKeyCollision(e: Edge, f: Edge)
    ensures EdgeKey(e) == EdgeKey(f) <==> e.kind == f.kind && CacheKey(e.from, e.to) == CacheKey(f.from, f.to)
  {
    var k, j := KindName(e.kind), KindName(f.kind);
    assert EdgeKey(e) == CacheKey(e.from, e.to) + [NUL] + k;
    assert EdgeKey(f) == CacheKey(f.from, f.to) + [NUL] + j;
    if EdgeKey(e) == EdgeKey(f) {
      SplitAtLastNul(CacheKey(e.from, e.to), k, CacheKey(f.from, f.to), j);
      KindNameInjective(e.kind, f.kind);
    }
  }

  lemma KindNameInjective(k: DependencyType, l: DependencyType)
    requires KindName(k) == KindName(l)
    ensures k == l
  {
    assert KindName(k)[2] == KindName(l)[2];
  }

  // ---- Sanitization ---------------------------------------------------------------------------------------

  function Dedupe(deps: seq<Edge>): seq<Edge> { KL.KeepFirst(deps, EdgeKey) }

  function SanitizeCommit(c: Commit): Commit {
    c.(message := Take(c.message, 500), files := KL.KeepFirst(c.files, Same))
  }

  function SanitizeTitled(r: Record): Record { r.(title := Take(r.title, 300)) }

  function MapSeq<A, B>(f: A -> B, s: seq<A>): seq<B> {
    seq(|s|, i requires 0 <= i < |s| => f(s[i]))
  }

  function CloneGraph(g: Graph): Graph {
    g.(recentCommits := MapSeq(SanitizeCommit, g.recentCommits),
       pullRequests := MapSeq(SanitizeTitled, g.pullRequests),
       issues := MapSeq(SanitizeTitled, g.issues))
  }

  function Sanitize(l: Limits, g: Graph): Graph {
    g.(
      dependencies := Dedupe(g.dependencies),
      recentCommits := Take(MapSeq(SanitizeCommit, g.recentCommits), l.maxCommits),
      pullRequests := Take(MapSeq(SanitizeTitled, g.pullRequests), l.maxMetadata),
      issues := Take(MapSeq(SanitizeTitled, g.issues), l.maxMetadata),
      reviews := Take(g.reviews, l.maxMetadata),
      slackDecisions := Take(g.slackDecisions, l.maxMetadata))
  }

  lemma DedupeUnique(deps: seq<Edge>)
    ensures KL.UniqueKeys(Dedupe(deps), EdgeKey)
    ensures forall i, j :: 0 <= i < j < |Dedupe(deps)| ==> Dedupe(deps)[i] != Dedupe(deps)[j]
    ensures Dedupe(Dedupe(deps)) == Dedupe(deps)
    ensures KL.Subsequence(Dedupe(deps), deps)
    ensures forall e :: e in Dedupe(deps) ==> e in deps
  {
    KL.KeepFirstFinds(deps, EdgeKey);
    KL.KeepFirstOfUnique(Dedupe(deps), EdgeKey);
    var r := Dedupe(deps);
    forall i, j | 0 <= i < j < |r| ensures r[i] != r[j] { assert EdgeKey(r[i]) != EdgeKey(r[j]); }
  }

  /** Deduplication forgets no edge exactly when no two different edges of the list share a key. */
  lemma DedupeComplete(deps: seq<Edge>)
    ensures (forall e :: e in deps ==> e in Dedupe(deps))
      <==> forall e, f :: e in deps && f in deps && EdgeKey(e) == EdgeKey(f) ==> e == f
  {
    var r := Dedupe(deps);
    KL.KeepFirstFinds(deps, EdgeKey);
    if forall e, f :: e in deps && f in deps && EdgeKey(e) == EdgeKey(f) ==> e == f {
      forall e | e in deps ensures e in r {
        var i :| 0 <= i < |deps| && deps[i] == e;
        assert KL.HasKey(deps, EdgeKey, EdgeKey(e)) by { assert EdgeKey(deps[i]) == EdgeKey(e); }
        assert KL.Find(r, EdgeKey, EdgeKey(e)) == KL.Find(deps, EdgeKey, EdgeKey(e));
      }
    }
    if forall e :: e in deps ==> e in r {
      forall e, f | e in deps && f in deps && EdgeKey(e) == EdgeKey(f) ensures e == f {
        KL.FindIn(r, EdgeKey, e);
        KL.FindIn(r, EdgeKey, f);
      }
    }
  }

  /** A sanitized commit keeps its sha, author and date, a message of at most 500 characters, and each file once. */
  ghost predicate CommitKept(c: Commit, r: Commit) {
    && r.sha == c.sha && r.author == c.author && r.date == c.date
    && r.message <= c.message && |r.message| == (if |c.message| <= 500 then |c.message| else 500)
    && (forall f :: f in r.files <==> f in c.files)
    && KL.UniqueKeys(r.files, Same) && KL.Subsequence(r.files, c.files)
  }

  ghost predicate TitleKept(t: Record, r: Record) {
    && r.id == t.id && r.stamp == t.stamp && r.body == t.body
    && r.title <= t.title && |r.title| == (if |t.title| <= 300 then |t.title| else 300)
  }

  /** The first n items of one list, each kept as the other list has it. */
  ghost predicate FirstKept<T>(s: seq<T>, r: seq<T>, n: nat, kept: (T, T) -> bool) {
    |r| == (if |s| <= n then |s| else n) && forall i :: 0 <= i < |r| ==> kept(s[i], r[i])
  }

  lemma SanitizeCommitKeeps(c: Commit)
    ensures CommitKept(c, SanitizeCommit(c))
  {
    var r := KL.KeepFirst(c.files, Same);
    KL.KeepFirstFinds(c.files, Same);
    forall f | f in c.files ensures f in r {
      var i :| 0 <= i < |c.files| && c.files[i] == f;
      assert Same(c.files[i]) == f;
      assert KL.Find(r, Same, f) == KL.Find(c.files, Same, f);
    }
  }

  /** What sanitizing keeps: everything but the cut lists and the texts cut in them. */
  lemma SanitizeKeeps(l: Limits, g: Graph)
    ensures var r := Sanitize(l, g);
      && r == g.(dependencies := r.dependencies, recentCommits := r.recentCommits, pullRequests := r.pullRequests,
                 issues := r.issues, reviews := r.reviews, slackDecisions := r.slackDecisions)
      && r.dependencies == Dedupe(g.dependencies)
      && FirstKept(g.recentCommits, r.recentCommits, l.maxCommits, (c, d) => CommitKept(c, d))
      && FirstKept(g.pullRequests, r.pullRequests, l.maxMetadata, (c, d) => TitleKept(c, d))
      && FirstKept(g.issues, r.issues, l.maxMetadata, (c, d) => TitleKept(c, d))
      && FirstKept(g.reviews, r.reviews, l.maxMetadata, (c, d) => c == d)
      && FirstKept(g.slackDecisions, r.slackDecisions, l.maxMetadata, (c, d) => c == d)
  {
    var r := Sanitize(l, g);
    forall i | 0 <= i < |r.recentCommits| ensures CommitKept(g.recentCommits[i], r.recentCommits[i]) {
      SanitizeCommitKeeps(g.recentCommits[i]);
    }
    forall i | 0 <= i < |r.pullRequests| ensures TitleKept(g.pullRequests[i], r.pullRequests[i]) {
      SanitizeTitledKeeps(g.pullRequests[i]);
    }
    forall i | 0 <= i < |r.issues| ensures TitleKept(g.issues[i], r.issues[i]) { SanitizeTitledKeeps(g.issues[i]); }
  }

  lemma SanitizeTitledKeeps(t: Record)
    ensures TitleKept(t, SanitizeTitled(t))
  {
  }

  lemma SanitizeCommitTwice(c: Commit)
    ensures SanitizeCommit(SanitizeCommit(c)) == SanitizeCommit(c)
    ensures KL.UniqueKeys(SanitizeCommit(c).files, Same)
  {
    KL.KeepFirstFinds(c.files, Same);
    KL.KeepFirstOfUnique(KL.KeepFirst(c.files, Same), Same);
    hide KL.KeepFirst;
    assert Take(Take(c.message, 500), 500) == Take(c.message, 500);
  }

  lemma MapTakeTwice<A>(f: A -> A, s: seq<A>, n: nat)
    requires forall x {:trigger f(f(x))} :: f(f(x)) == f(x)
    ensures MapSeq(f, Take(MapSeq(f, s), n)) == Take(MapSeq(f, s), n)
    ensures Take(MapSeq(f, Take(MapSeq(f, s), n)), n) == Take(MapSeq(f, s), n)
  {
  }

  /** Sanitizing is idempotent, and cloning what was sanitized changes nothing: what is stored is read back. */
  lemma SanitizeTwice(l: Limits, g: Graph)
    ensures Sanitize(l, Sanitize(l, g)) == Sanitize(l, g)
    ensures CloneGraph(Sanitize(l, g)) == Sanitize(l, g)
  {
    DedupeUnique(g.dependencies);
    forall c {:trigger SanitizeCommit(SanitizeCommit(c))} ensures SanitizeCommit(SanitizeCommit(c)) == SanitizeCommit(c) {
      SanitizeCommitTwice(c);
    }
    assert forall r {:trigger SanitizeTitled(SanitizeTitled(r))} :: SanitizeTitled(SanitizeTitled(r)) == SanitizeTitled(r);
    MapTakeTwice(SanitizeCommit, g.recentCommits, l.maxCommits);
    MapTakeTwice(SanitizeTitled, g.pullRequests, l.maxMetadata);
    MapTakeTwice(SanitizeTitled, g.issues, l.maxMetadata);
  }

  /** The source's filter with a "seen" set computes Dedupe. */
  method DedupeDependencies(deps: seq<Edge>) returns (r: seq<Edge>)
    ensures r == Dedupe(deps)
  {
    var seen: set<string> := {};
    r := [];
    for i := 0 to |deps|
      invariant r == KL.KeepFirst(deps[..i], EdgeKey)
      invariant forall k :: k in seen <==> KL.HasKey(r, EdgeKey, k)
    {
      var key := EdgeKey(deps[i]);
      assert deps[..i + 1][..i] == deps[..i];
      if key !in seen {
        seen := seen + {key};
        ghost var before := r;
        r := r + [deps[i]];
        forall k ensures k in seen <==> KL.HasKey(r, EdgeKey, k) { KL.FindAppend(before, EdgeKey, deps[i], k); }
      }
    }
    assert deps[..|deps|] == deps;
  }
}
