/** recomputeOwnership: who owns a file, by counting the retained commits that name it (src/cache/graphCache.ts). */
module FileOwnership {
  import opened GraphModel
  import opened StableSort
  import KL = KeyedList
  import NF = NewestFirst

  datatype Mention = Mention(file: string, author: string)

  datatype Tally = Tally(author: string, count: nat)

  function AuthorOf(t: Tally): string { t.author }

  function FileMentions(files: seq<string>, author: string): seq<Mention> {
    seq(|files|, i requires 0 <= i < |files| => Mention(files[i], author))
  }

  /** Every (file, author) pair the commits name, in the order the source reads them. */
  function Mentions(commits: seq<Commit>): seq<Mention> {
    if commits == [] then []
    else
      var n := |commits| - 1;
      Mentions(commits[..n]) + FileMentions(commits[n].files, commits[n].author)
  }

  function CountIn(ts: seq<Tally>, author: string): nat {
    var t := KL.Find(ts, AuthorOf, author);
    if t.Some? then t.value.count else 0
  }

  /** The per-author counts of one file, authors in order of first appearance. */
  function Counts(ms: seq<Mention>, file: string): seq<Tally> {
    if ms == [] then []
    else
      var n := |ms| - 1;
      var ts := Counts(ms[..n], file);
      if ms[n].file == file then Bump(ts, ms[n].author) else ts
  }

  function Bump(ts: seq<Tally>, author: string): seq<Tally> {
    KL.Put(ts, AuthorOf, Tally(author, CountIn(ts, author) + 1))
  }

  // ---- Reference definitions ----------------------------------------------------------------------------------

  /** How often an author's commits name a file. */
  function Count(ms: seq<Mention>, file: string, author: string): nat {
    if ms == [] then 0
    else Count(ms[..|ms| - 1], file, author) + if ms[|ms| - 1] == Mention(file, author) then 1 else 0
  }

  /** How often a file is named at all. */
  function CountFile(ms: seq<Mention>, file: string): nat {
    if ms == [] then 0
    else CountFile(ms[..|ms| - 1], file) + if ms[|ms| - 1].file == file then 1 else 0
  }

  /** The number of commits that name a file. */
  function CommitsNaming(commits: seq<Commit>, file: string): nat {
    if commits == [] then 0
    else CommitsNaming(commits[..|commits| - 1], file) + if file in commits[|commits| - 1].files then 1 else 0
  }

  function Sum(ts: seq<Tally>): nat {
    if ts == [] then 0 else ts[0].count + Sum(ts[1..])
  }

  lemma {:induction false} SumPut(ts: seq<Tally>, author: string, c: nat)
    ensures Sum(KL.Put(ts, AuthorOf, Tally(author, c))) == Sum(ts) - CountIn(ts, author) + c
    ensures Sum(ts) >= CountIn(ts, author)
  {
    if ts != [] && ts[0].author != author { SumPut(ts[1..], author, c); }
  }

  /** The counts are the true counts, one tally an author, and add up to the number of times the file is named. */
  lemma {:induction false} CountsExact(ms: seq<Mention>, file: string)
    ensures var ts := Counts(ms, file);
      && KL.UniqueKeys(ts, AuthorOf)
      && (forall a :: CountIn(ts, a) == Count(ms, file, a))
      && (forall i :: 0 <= i < |ts| ==> ts[i].count >= 1)
      && Sum(ts) == CountFile(ms, file)
  {
    if ms != [] {
      var n := |ms| - 1;
      CountsExact(ms[..n], file);
      var before, m := Counts(ms[..n], file), ms[n];
      if m.file == file {
        var t := Tally(m.author, CountIn(before, m.author) + 1);
        var ts := KL.Put(before, AuthorOf, t);
        KL.PutUnique(before, AuthorOf, t);
        SumPut(before, m.author, t.count);
        forall a ensures CountIn(ts, a) == Count(ms, file, a) { KL.FindPut(before, AuthorOf, t, a); }
        forall i | 0 <= i < |ts| ensures ts[i].count >= 1 {
          if ts[i] != t { assert ts[i] in ts && ts[i] in before; }
        }
      }
    }
  }

  lemma {:induction false} SumSort(ts: seq<Tally>, leq: (Tally, Tally) -> bool)
    ensures Sum(Sort(ts, leq)) == Sum(ts)
  {
    if ts != [] {
      SumSort(ts[1..], leq);
      SumInsert(ts[0], Sort(ts[1..], leq), leq);
    }
  }

  lemma {:induction false} SumInsert(t: Tally, ts: seq<Tally>, leq: (Tally, Tally) -> bool)
    ensures Sum(Insert(t, ts, leq)) == t.count + Sum(ts)
  {
    if ts != [] && !leq(t, ts[0]) {
      SumInsert(t, ts[1..], leq);
      assert Insert(t, ts, leq)[1..] == Insert(t, ts[1..], leq);
    } else {
      assert Insert(t, ts, leq)[1..] == ts;
    }
  }

  lemma {:induction false} SumBound(ts: seq<Tally>, max: nat)
    requires forall i :: 0 <= i < |ts| ==> ts[i].count <= max
    ensures Sum(ts) <= max * |ts|
  {
    if ts != [] { SumBound(ts[1..], max); }
  }

  lemma {:induction false} CountFileConcat(ms: seq<Mention>, ns: seq<Mention>, file: string)
    ensures CountFile(ms + ns, file) == CountFile(ms, file) + CountFile(ns, file)
  {
    if ns == [] {
      assert ms + ns == ms;
    } else {
      var n := |ns| - 1;
      CountFileConcat(ms, ns[..n], file);
      assert (ms + ns)[..|ms + ns| - 1] == ms + ns[..n];
    }
  }

  predicate NamedOnce(files: seq<string>, file: string) {
    forall i, j :: 0 <= i < j < |files| ==> files[i] != file || files[j] != file
  }

  lemma {:induction false} CountFileOfCommit(files: seq<string>, author: string, file: string)
    ensures CountFile(FileMentions(files, author), file) >= if file in files then 1 else 0
    ensures CountFile(FileMentions(files, author), file) == (if file in files then 1 else 0) <==> NamedOnce(files, file)
  {
    if files != [] {
      var n := |files| - 1;
      var rest := files[..n];
      assert files == rest + [files[n]];
      assert FileMentions(files, author)[..n] == FileMentions(rest, author);
      CountFileOfCommit(rest, author, file);
      if files[n] == file && file in rest {
        var i :| 0 <= i < n && rest[i] == file;
        assert files[i] == file && !NamedOnce(files, file);
      } else if files[n] == file {
        assert forall i :: 0 <= i < n ==> files[i] == rest[i] && files[i] in rest;
      } else {
        assert NamedOnce(files, file) <==> NamedOnce(rest, file);
      }
    }
  }

  /** A file's counts add up to the number of commits naming it exactly when no commit names it twice; else to more. */
  lemma {:induction false} MentionsAreCommits(commits: seq<Commit>, file: string)
    ensures CountFile(Mentions(commits), file) >= CommitsNaming(commits, file)
    ensures CountFile(Mentions(commits), file) == CommitsNaming(commits, file) <==> forall c :: c in commits ==> NamedOnce(c.files, file)
  {
    if commits != [] {
      var n := |commits| - 1;
      var c := commits[n];
      assert commits == commits[..n] + [c];
      MentionsAreCommits(commits[..n], file);
      CountFileConcat(Mentions(commits[..n]), FileMentions(c.files, c.author), file);
      CountFileOfCommit(c.files, c.author, file);
    }
  }

  // ---- Ownership ----------------------------------------------------------------------------------------------

  predicate MoreOften(a: Tally, b: Tally) { a.count >= b.count }

  function Ranked(ms: seq<Mention>, file: string): seq<Tally> { Sort(Counts(ms, file), MoreOften) }

  function OwnerOf(file: FileNode, ms: seq<Mention>): Ownership {
    var ranked := Ranked(ms, file.path);
    var secondary := Take(ranked, 4);
    Ownership(
      file.path,
      if ranked != [] then ranked[0].author else file.lastAuthor,
      if secondary != [] then MapSeq(AuthorOf, secondary[1..]) else [],
      if ranked != [] && Sum(ranked) > 0 then ranked[0].count as real / Sum(ranked) as real else 1.0)
  }

  function Owners(files: seq<FileNode>, commits: seq<Commit>): seq<Ownership> {
    seq(|files|, i requires 0 <= i < |files| => OwnerOf(files[i], Mentions(commits)))
  }

  lemma RankedExact(ms: seq<Mention>, file: string)
    ensures var r := Ranked(ms, file);
      && KL.UniqueKeys(r, AuthorOf)
      && (forall i, j :: 0 <= i < j < |r| ==> r[i].count >= r[j].count)
      && (forall i :: 0 <= i < |r| ==> r[i].count == Count(ms, file, r[i].author) >= 1)
      && (forall a :: Count(ms, file, a) > 0 ==> exists i :: 0 <= i < |r| && r[i].author == a)
      && Sum(r) == CountFile(ms, file)
      && (r == [] <==> CountFile(ms, file) == 0)
  {
    var ts, r := Counts(ms, file), Ranked(ms, file);
    CountsExact(ms, file);
    SortSorted(ts, MoreOften);
    SortMembers(ts, MoreOften);
    SumSort(ts, MoreOften);
    NF.SortKeepsUnique(ts, AuthorOf, MoreOften);
    forall i | 0 <= i < |r| ensures r[i].count == Count(ms, file, r[i].author) >= 1 {
      assert r[i] in r && r[i] in ts;
      KL.FindIn(ts, AuthorOf, r[i]);
      assert CountIn(ts, r[i].author) == Count(ms, file, r[i].author);
    }
    forall i, j | 0 <= i < j < |r| ensures r[i].count >= r[j].count { assert MoreOften(r[i], r[j]); }
    forall a | Count(ms, file, a) > 0 ensures exists i :: 0 <= i < |r| && r[i].author == a {
      assert CountIn(ts, a) > 0;
      var t := KL.Find(ts, AuthorOf, a).value;
      assert t in r;
      var i :| 0 <= i < |r| && r[i] == t;
      assert r[i].author == a;
    }
  }

  /** The listed owners: the primary first, then the secondary ones. */
  function Listed(o: Ownership): seq<string> { [o.primaryOwner] + o.secondaryOwners }

  /**
   The owners listed for a named file are its most frequent authors, most frequent first, at most four and without
   repetition, and nobody left out counts more than a listed owner. A file no commit names keeps its last author.
   */
  lemma OwnersMostFrequent(file: FileNode, ms: seq<Mention>)
    ensures var o := OwnerOf(file, ms); var l := Listed(o); var authors := |Ranked(ms, file.path)|;
      && o.file == file.path
      && (CountFile(ms, file.path) == 0 ==> o == Ownership(file.path, file.lastAuthor, [], 1.0))
      && (CountFile(ms, file.path) > 0 ==>
            && |l| == (if authors < 4 then authors else 4)
            && (forall i, j :: 0 <= i < j < |l| ==> l[i] != l[j] && Count(ms, file.path, l[i]) >= Count(ms, file.path, l[j]))
            && (forall i :: 0 <= i < |l| ==> Count(ms, file.path, l[i]) >= 1)
            && (forall a, i :: 0 <= i < |l| && a !in l ==> Count(ms, file.path, l[i]) >= Count(ms, file.path, a)))
  {
    hide Count, CountFile, Ranked, Sum;
    var f := file.path;
    var r, o := Ranked(ms, f), OwnerOf(file, ms);
    RankedExact(ms, f);
    if r != [] {
      ListedAreRanked(file, ms);
      TopListed(ms, f, r, Listed(o));
    }
  }

  lemma TopListed(ms: seq<Mention>, f: string, r: seq<Tally>, l: seq<string>)
    requires |l| <= |r| && forall i :: 0 <= i < |l| ==> l[i] == r[i].author
    requires KL.UniqueKeys(r, AuthorOf)
    requires forall i, j :: 0 <= i < j < |r| ==> r[i].count >= r[j].count
    requires forall i :: 0 <= i < |r| ==> r[i].count == Count(ms, f, r[i].author) >= 1
    requires forall a :: Count(ms, f, a) > 0 ==> exists i :: 0 <= i < |r| && r[i].author == a
    ensures forall i, j :: 0 <= i < j < |l| ==> l[i] != l[j] && Count(ms, f, l[i]) >= Count(ms, f, l[j])
    ensures forall i :: 0 <= i < |l| ==> Count(ms, f, l[i]) >= 1
    ensures forall a, i :: 0 <= i < |l| && a !in l ==> Count(ms, f, l[i]) >= Count(ms, f, a)
  {
    hide Count;
    forall i, j | 0 <= i < j < |l| ensures l[i] != l[j] && Count(ms, f, l[i]) >= Count(ms, f, l[j]) {
      assert AuthorOf(r[i]) != AuthorOf(r[j]);
    }
    forall a, i | 0 <= i < |l| && a !in l ensures Count(ms, f, l[i]) >= Count(ms, f, a) {
      if Count(ms, f, a) > 0 {
        var j :| 0 <= j < |r| && r[j].author == a;
        ListedBeforeOmitted(r, l, a, i, j);
      }
    }
  }

  /**
   The ownership share is the primary owner's part of all mentions of the file, so of the retained commits naming it
   when none names it twice, and lies between one part in the number of its authors and one.
   */
  lemma OwnershipShare(file: FileNode, commits: seq<Commit>)
    requires CommitsNaming(commits, file.path) > 0
    ensures var ms := Mentions(commits); var o := OwnerOf(file, ms); var r := Ranked(ms, file.path);
      && r != [] && CountFile(ms, file.path) > 0
      && o.share == Count(ms, file.path, o.primaryOwner) as real / CountFile(ms, file.path) as real
      && 1.0 / |r| as real <= o.share <= 1.0
      && ((forall c :: c in commits ==> NamedOnce(c.files, file.path)) ==>
            o.share == Count(ms, file.path, o.primaryOwner) as real / CommitsNaming(commits, file.path) as real)
  {
    var ms := Mentions(commits);
    RankedExact(ms, file.path);
    MentionsAreCommits(commits, file.path);
    ListedAreRanked(file, ms);
    ShareBounds(Ranked(ms, file.path));
  }

  lemma ListedAreRanked(file: FileNode, ms: seq<Mention>)
    ensures var r, o := Ranked(ms, file.path), OwnerOf(file, ms);
      r != [] ==>
        && |Listed(o)| == (if |r| < 4 then |r| else 4)
        && (forall i :: 0 <= i < |Listed(o)| ==> Listed(o)[i] == r[i].author)
        && (Sum(r) > 0 ==> o.share == r[0].count as real / Sum(r) as real)
  {
    hide Ranked;
    var r, o := Ranked(ms, file.path), OwnerOf(file, ms);
    if r != [] {
      var l, s := Listed(o), Take(r, 4);
      forall i | 0 <= i < |l| ensures l[i] == r[i].author {
        if i > 0 { assert l[i] == MapSeq(AuthorOf, s[1..])[i - 1] == AuthorOf(s[1..][i - 1]); }
      }
    }
  }

  lemma ListedBeforeOmitted(r: seq<Tally>, l: seq<string>, a: string, i: nat, j: nat)
    requires i < |l| <= |r| && a !in l && j < |r| && r[j].author == a
    requires forall k :: 0 <= k < |l| ==> l[k] == r[k].author
    requires forall j, k :: 0 <= j < k < |r| ==> r[j].count >= r[k].count
    ensures r[i].count >= r[j].count
  {
    assert j >= |l|;
  }

  lemma ShareBounds(r: seq<Tally>)
    requires r != [] && forall i :: 0 <= i < |r| ==> 1 <= r[i].count <= r[0].count
    ensures Sum(r) >= r[0].count
    ensures 1.0 / |r| as real <= r[0].count as real / Sum(r) as real <= 1.0
  {
    SumBound(r, r[0].count);
    var c, n, t := r[0].count as real, |r| as real, Sum(r) as real;
    assert t <= c * n && t >= c > 0.0;
    Cross(c, n, t);
  }

  lemma Cross(c: real, n: real, t: real)
    requires n > 0.0 && t >= c > 0.0 && t <= c * n
    ensures 1.0 / n <= c / t <= 1.0
  {
    var x, y := 1.0 / n, c / t;
    assert x * n == 1.0 && y * t == c;
  }

  // ---- Owners in terms of commits -----------------------------------------------------------------------------

  /** The number of an author's commits that name a file. */
  function CommitsBy(commits: seq<Commit>, file: string, author: string): nat {
    if commits == [] then 0
    else
      var c := commits[|commits| - 1];
      CommitsBy(commits[..|commits| - 1], file, author) + if file in c.files && c.author == author then 1 else 0
  }

  lemma {:induction false} CountConcat(ms: seq<Mention>, ns: seq<Mention>, file: string, author: string)
    ensures Count(ms + ns, file, author) == Count(ms, file, author) + Count(ns, file, author)
  {
    if ns == [] {
      assert ms + ns == ms;
    } else {
      var n := |ns| - 1;
      CountConcat(ms, ns[..n], file, author);
      assert (ms + ns)[..|ms + ns| - 1] == ms + ns[..n];
    }
  }

  /** All mentions of a file in one commit are its author's. */
  lemma {:induction false} CountOfCommit(files: seq<string>, committer: string, file: string, author: string)
    ensures Count(FileMentions(files, committer), file, author) == if author == committer then CountFile(FileMentions(files, committer), file) else 0
  {
    if files != [] {
      var n := |files| - 1;
      assert FileMentions(files, committer)[..n] == FileMentions(files[..n], committer);
      CountOfCommit(files[..n], committer, file, author);
    }
  }

  lemma {:induction false} CountIsCommitsBy(commits: seq<Commit>, file: string, author: string)
    requires forall c :: c in commits ==> NamedOnce(c.files, file)
    ensures Count(Mentions(commits), file, author) == CommitsBy(commits, file, author)
  {
    if commits != [] {
      var n := |commits| - 1;
      var c := commits[n];
      assert commits == commits[..n] + [c];
      CountIsCommitsBy(commits[..n], file, author);
      CountConcat(Mentions(commits[..n]), FileMentions(c.files, c.author), file, author);
      CountOfCommit(c.files, c.author, file, author);
      CountFileOfCommit(c.files, c.author, file);
    }
  }

  /**
   The ownership of a file as the commits give it: the counts are the numbers of commits by each author that name the
   file and add up to the number of commits naming it; the listed owners are the authors with the most, in order; the
   share is the primary owner's part. A file no commit names belongs to its last author.
   */
  ghost predicate OwnerCounts(o: Ownership, file: FileNode, commits: seq<Commit>) {
    var f, n, l, ts := file.path, CommitsNaming(commits, file.path), Listed(o), Counts(Mentions(commits), file.path);
    && o.file == f
    && Sum(ts) == n && KL.UniqueKeys(ts, AuthorOf)
    && (forall a :: CountIn(ts, a) == CommitsBy(commits, f, a))
    && (n == 0 ==> o == Ownership(f, file.lastAuthor, [], 1.0))
    && (n > 0 ==>
          && ts != [] && |l| == (if |ts| < 4 then |ts| else 4)
          && (forall i, j :: 0 <= i < j < |l| ==> l[i] != l[j] && CommitsBy(commits, f, l[i]) >= CommitsBy(commits, f, l[j]))
          && (forall a, i :: 0 <= i < |l| && a !in l ==> CommitsBy(commits, f, l[i]) >= CommitsBy(commits, f, a))
          && o.share == CommitsBy(commits, f, o.primaryOwner) as real / n as real
          && 1.0 / |ts| as real <= o.share <= 1.0)
  }

  lemma OwnerOfCommits(file: FileNode, commits: seq<Commit>)
    requires forall c :: c in commits ==> NamedOnce(c.files, file.path)
    ensures OwnerCounts(OwnerOf(file, Mentions(commits)), file, commits)
  {
    var f, ms := file.path, Mentions(commits);
    forall a ensures Count(ms, f, a) == CommitsBy(commits, f, a) { CountIsCommitsBy(commits, f, a); }
    MentionsAreCommits(commits, f);
    CountsExact(ms, f);
    SortPermutes(Counts(ms, f), MoreOften);
    OwnersMostFrequent(file, ms);
    if CommitsNaming(commits, f) > 0 { OwnershipShare(file, commits); }
  }

  // ---- The loops of the source --------------------------------------------------------------------------------

  function Scores(scores: map<string, seq<Tally>>, f: string): seq<Tally> { if f in scores then scores[f] else [] }

  method TallyCommits(commits: seq<Commit>) returns (scores: map<string, seq<Tally>>)
    ensures forall f :: Scores(scores, f) == Counts(Mentions(commits), f)
  {
    scores := map[];
    for i := 0 to |commits|
      invariant forall f :: Scores(scores, f) == Counts(Mentions(commits[..i]), f)
    {
      var commit := commits[i];
      ghost var ms := Mentions(commits[..i]);
      assert ms + FileMentions(commit.files[..0], commit.author) == ms;
      for j := 0 to |commit.files|
        invariant forall f :: Scores(scores, f) == Counts(ms + FileMentions(commit.files[..j], commit.author), f)
      {
        var file := commit.files[j];
        ghost var seen := ms + FileMentions(commit.files[..j], commit.author);
        assert ms + FileMentions(commit.files[..j + 1], commit.author) == seen + [Mention(file, commit.author)];
        CountsSnoc(seen, Mention(file, commit.author));
        hide Counts, Bump;
        scores := scores[file := Bump(Scores(scores, file), commit.author)];
      }
      assert commit.files[..|commit.files|] == commit.files;
      assert commits[..i + 1][..i] == commits[..i];
    }
    assert commits[..|commits|] == commits;
  }

  method RecomputeOwnership(files: seq<FileNode>, commits: seq<Commit>) returns (owners: seq<Ownership>)
    ensures owners == Owners(files, commits)
  {
    var scores := TallyCommits(commits);
    owners := [];
    hide Counts, Mentions, Sort, Sum;
    for i := 0 to |files|
      invariant |owners| == i && forall k :: 0 <= k < i ==> owners[k] == OwnerOf(files[k], Mentions(commits))
    {
      var ranked := Sort(Scores(scores, files[i].path), MoreOften);
      var total := Sum(ranked);
      var secondary := Take(ranked, 4);
      owners := owners + [Ownership(
        files[i].path,
        if ranked != [] then ranked[0].author else files[i].lastAuthor,
        if secondary != [] then MapSeq(AuthorOf, secondary[1..]) else [],
        if total > 0 && ranked != [] then ranked[0].count as real / total as real else 1.0)];
    }
  }

  lemma CountsSnoc(ms: seq<Mention>, m: Mention)
    ensures forall f :: Counts(ms + [m], f) == if m.file == f then Bump(Counts(ms, f), m.author) else Counts(ms, f)
  {
    assert (ms + [m])[..|ms|] == ms;
  }
}
