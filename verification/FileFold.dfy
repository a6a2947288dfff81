/** updateFiles: file changes folded over the stored tree (src/cache/graphCache.ts). */
module FileFold {
  import opened Wrappers
  import opened GraphModel
  import opened StableSort
  import KL = KeyedList
  import NF = NewestFirst

  datatype ChangeStatus = Added | Modified | Removed | Renamed

  datatype ChangedFile = ChangedFile(
    path: string, previousPath: Option<string>, status: ChangeStatus,
    size: Option<int>, sha: Option<string>, lastModified: Option<int>, lastAuthor: Option<string>)

  /** The node a change writes: its own fields, else those of the file at the same path, else the defaults. */
  function Written(c: ChangedFile, previous: Option<FileNode>, now: int): FileNode {
    var p := Or(previous, FileNode(c.path, 0, now, "unknown", ""));
    FileNode(c.path, Or(c.size, p.size), Or(c.lastModified, p.lastModified), Or(c.lastAuthor, p.lastAuthor), Or(c.sha, p.sha))
  }

  predicate Moves(c: ChangedFile) {
    c.previousPath.Some? && c.previousPath.value != "" && c.previousPath.value != c.path
  }

  // ---- The fold over an insertion-ordered Map, as the source runs it, and over a plain map ----------------------

  function Apply(files: seq<FileNode>, c: ChangedFile, now: int): seq<FileNode> {
    var left := if Moves(c) then KL.Remove(files, PathOf, c.previousPath.value) else files;
    if c.status.Removed? then KL.Remove(left, PathOf, c.path)
    else KL.Put(left, PathOf, Written(c, KL.Find(left, PathOf, c.path), now))
  }

  function Fold(files: seq<FileNode>, cs: seq<ChangedFile>, now: int): seq<FileNode>
    decreases |cs|
  {
    if cs == [] then files else Fold(Apply(files, cs[0], now), cs[1..], now)
  }

  type Tree = map<string, FileNode>

  function Lookup(t: Tree, p: string): Option<FileNode> { if p in t then Some(t[p]) else None }

  function ApplyTree(t: Tree, c: ChangedFile, now: int): Tree {
    var left := if Moves(c) then t - {c.previousPath.value} else t;
    if c.status.Removed? then left - {c.path} else left[c.path := Written(c, Lookup(left, c.path), now)]
  }

  function FoldTree(t: Tree, cs: seq<ChangedFile>, now: int): Tree
    decreases |cs|
  {
    if cs == [] then t else FoldTree(ApplyTree(t, cs[0], now), cs[1..], now)
  }

  /** The list holds, path by path, what the tree holds. */
  ghost predicate Represents(files: seq<FileNode>, t: Tree) {
    && KL.UniqueKeys(files, PathOf)
    && forall p :: KL.Find(files, PathOf, p) == Lookup(t, p)
  }

  lemma ApplyRefines(files: seq<FileNode>, t: Tree, c: ChangedFile, now: int)
    requires Represents(files, t)
    ensures Represents(Apply(files, c, now), ApplyTree(t, c, now))
  {
    var left := if Moves(c) then KL.Remove(files, PathOf, c.previousPath.value) else files;
    var leftTree := if Moves(c) then t - {c.previousPath.value} else t;
    if Moves(c) { RemoveRefines(files, t, c.previousPath.value); }
    if c.status.Removed? {
      RemoveRefines(left, leftTree, c.path);
    } else {
      var w := Written(c, KL.Find(left, PathOf, c.path), now);
      KL.PutUnique(left, PathOf, w);
      forall p ensures KL.Find(KL.Put(left, PathOf, w), PathOf, p) == Lookup(leftTree[c.path := w], p) {
        KL.FindPut(left, PathOf, w, p);
      }
    }
  }

  lemma RemoveRefines(files: seq<FileNode>, t: Tree, k: string)
    requires Represents(files, t)
    ensures Represents(KL.Remove(files, PathOf, k), t - {k})
  {
    KL.RemoveMembers(files, PathOf, k);
    forall p ensures KL.Find(KL.Remove(files, PathOf, k), PathOf, p) == Lookup(t - {k}, p) {
      KL.FindRemove(files, PathOf, k, p);
    }
  }

  lemma {:induction false} FoldRefines(files: seq<FileNode>, t: Tree, cs: seq<ChangedFile>, now: int)
    requires Represents(files, t)
    ensures Represents(Fold(files, cs, now), FoldTree(t, cs, now))
    decreases |cs|
  {
    if cs != [] {
      ApplyRefines(files, t, cs[0], now);
      FoldRefines(Apply(files, cs[0], now), ApplyTree(t, cs[0], now), cs[1..], now);
    }
  }

  // ---- The stored tree ----------------------------------------------------------------------------------------

  function ByPath(leq: (string, string) -> bool): (FileNode, FileNode) -> bool {
    (a: FileNode, b: FileNode) => leq(a.path, b.path)
  }

  lemma ByPathOrders(leq: (string, string) -> bool)
    requires TotalPreorder(leq)
    ensures TotalPreorder(ByPath(leq))
  {
    var ord := ByPath(leq);
    forall a: FileNode, b: FileNode ensures ord(a, b) || ord(b, a) {
      assert leq(a.path, b.path) || leq(b.path, a.path);
    }
    forall a: FileNode, b: FileNode, c: FileNode | ord(a, b) && ord(b, c) ensures ord(a, c) {
      assert leq(a.path, b.path) && leq(b.path, c.path);
    }
  }

  ghost predicate TotalOrder(leq: (string, string) -> bool) {
    && TotalPreorder(leq)
    && forall a, b :: leq(a, b) && leq(b, a) ==> a == b
  }

  /** The stored tree as a map from path to file; on a repeated path the last file counts. */
  function TreeOf(files: seq<FileNode>): Tree {
    var m := KL.PutAll([], PathOf, files);
    map p | p in (set i | 0 <= i < |m| :: m[i].path) :: Or(KL.Find(m, PathOf, p), FileNode(p, 0, 0, "", ""))
  }

  lemma TreeOfRepresents(files: seq<FileNode>)
    ensures Represents(KL.PutAll([], PathOf, files), TreeOf(files))
    ensures KL.UniqueKeys(files, PathOf) ==> Represents(files, TreeOf(files))
  {
    var m := KL.PutAll([], PathOf, files);
    KL.PutAllUnique([], PathOf, files);
    forall p ensures KL.Find(m, PathOf, p) == Lookup(TreeOf(files), p) {
      if KL.HasKey(m, PathOf, p) {
        var i :| 0 <= i < |m| && PathOf(m[i]) == p;
        assert p in TreeOf(files);
      }
    }
    if KL.UniqueKeys(files, PathOf) { NF.PutAllOfUnique(files, PathOf); }
  }

  function UpdatedTree(tree: seq<FileNode>, cs: seq<ChangedFile>, now: int, leq: (string, string) -> bool): seq<FileNode> {
    Sort(Fold(KL.PutAll([], PathOf, tree), cs, now), ByPath(leq))
  }

  lemma SortRepresents(files: seq<FileNode>, t: Tree, leq: (string, string) -> bool)
    requires Represents(files, t)
    ensures Represents(Sort(files, ByPath(leq)), t)
  {
    var s := Sort(files, ByPath(leq));
    NF.SortKeepsUnique(files, PathOf, ByPath(leq));
    SortMembers(files, ByPath(leq));
    forall p ensures KL.Find(s, PathOf, p) == KL.Find(files, PathOf, p) {
      if KL.HasKey(files, PathOf, p) {
        var f := KL.Find(files, PathOf, p).value;
        assert f in s;
        KL.FindIn(s, PathOf, f);
      } else if KL.HasKey(s, PathOf, p) {
        KL.HasKeyWithin(s, files, PathOf, p);
      }
    }
  }

  /** updateFiles leaves a path-sorted tree with unique paths that holds exactly the changes folded over the old one. */
  lemma UpdatedTreeIsFold(tree: seq<FileNode>, cs: seq<ChangedFile>, now: int, leq: (string, string) -> bool)
    requires TotalOrder(leq)
    ensures var r := UpdatedTree(tree, cs, now, leq);
      && KL.UniqueKeys(r, PathOf)
      && (forall i, j :: 0 <= i < j < |r| ==> leq(r[i].path, r[j].path) && !leq(r[j].path, r[i].path))
      && Represents(r, FoldTree(TreeOf(tree), cs, now))
      && TreeOf(r) == FoldTree(TreeOf(tree), cs, now)
  {
    var r := UpdatedTree(tree, cs, now, leq);
    var m := Fold(KL.PutAll([], PathOf, tree), cs, now);
    TreeOfRepresents(tree);
    FoldRefines(KL.PutAll([], PathOf, tree), TreeOf(tree), cs, now);
    SortRepresents(m, FoldTree(TreeOf(tree), cs, now), leq);
    ByPathOrders(leq);
    SortSorted(m, ByPath(leq));
    forall i, j | 0 <= i < j < |r| ensures leq(r[i].path, r[j].path) && !leq(r[j].path, r[i].path) {
      assert ByPath(leq)(r[i], r[j]);
      assert PathOf(r[i]) != PathOf(r[j]);
    }
    TreeOfRepresents(r);
    SameTree(r, TreeOf(r), FoldTree(TreeOf(tree), cs, now));
  }

  lemma SameTree(files: seq<FileNode>, t: Tree, u: Tree)
    requires Represents(files, t) && Represents(files, u)
    ensures t == u
  {
    forall p ensures Lookup(t, p) == Lookup(u, p) { assert KL.Find(files, PathOf, p) == Lookup(t, p); }
    forall p ensures p in t <==> p in u { assert Lookup(t, p) == Lookup(u, p); }
    forall p | p in t ensures t[p] == u[p] { assert Lookup(t, p) == Lookup(u, p); }
  }

  // ---- Two batches in turn ------------------------------------------------------------------------------------

  // What a batch fixes regardless of the clock: everything but lastModified.
  datatype Shape = Shape(path: string, size: int, lastAuthor: string, sha: string)

  function ShapeOf(f: FileNode): Shape { Shape(f.path, f.size, f.lastAuthor, f.sha) }

  ghost predicate SameShapes(t: Tree, u: Tree) {
    t.Keys == u.Keys && forall p :: p in t ==> ShapeOf(t[p]) == ShapeOf(u[p])
  }

  lemma ApplySameShapes(t: Tree, u: Tree, c: ChangedFile, now: int, now': int)
    requires SameShapes(t, u)
    ensures SameShapes(ApplyTree(t, c, now), ApplyTree(u, c, now'))
  {
    var t', u' := ApplyTree(t, c, now), ApplyTree(u, c, now');
    assert t'.Keys == u'.Keys;
  }

  lemma {:induction false} FoldSameShapes(t: Tree, u: Tree, cs: seq<ChangedFile>, now: int, now': int)
    requires SameShapes(t, u)
    ensures SameShapes(FoldTree(t, cs, now), FoldTree(u, cs, now'))
    decreases |cs|
  {
    if cs != [] {
      ApplySameShapes(t, u, cs[0], now, now');
      FoldSameShapes(ApplyTree(t, cs[0], now), ApplyTree(u, cs[0], now'), cs[1..], now, now');
    }
  }

  lemma {:induction false} FoldTreeConcat(t: Tree, cs: seq<ChangedFile>, ds: seq<ChangedFile>, now: int)
    ensures FoldTree(t, cs + ds, now) == FoldTree(FoldTree(t, cs, now), ds, now)
    decreases |cs|
  {
    if cs == [] {
      assert cs + ds == ds;
    } else {
      assert (cs + ds)[0] == cs[0] && (cs + ds)[1..] == cs[1..] + ds;
      FoldTreeConcat(ApplyTree(t, cs[0], now), cs[1..], ds, now);
    }
  }

  function ShapeOrder(leq: (string, string) -> bool): (Shape, Shape) -> bool {
    (a: Shape, b: Shape) => leq(a.path, b.path)
  }

  /** Two batches in turn leave the same paths, sizes, authors and shas, in the same order, as one batch with both. */
  lemma FileBatchesCompose(tree: seq<FileNode>, cs: seq<ChangedFile>, ds: seq<ChangedFile>, n1: int, n2: int, n: int, leq: (string, string) -> bool)
    requires TotalOrder(leq)
    ensures MapSeq(ShapeOf, UpdatedTree(UpdatedTree(tree, cs, n1, leq), ds, n2, leq)) == MapSeq(ShapeOf, UpdatedTree(tree, cs + ds, n, leq))
  {
    hide UpdatedTree, FoldTree, TreeOf;
    var first := UpdatedTree(tree, cs, n1, leq);
    var two, one := UpdatedTree(first, ds, n2, leq), UpdatedTree(tree, cs + ds, n, leq);
    UpdatedTreeIsFold(tree, cs, n1, leq);
    UpdatedTreeIsFold(first, ds, n2, leq);
    UpdatedTreeIsFold(tree, cs + ds, n, leq);
    FoldTreeConcat(TreeOf(tree), cs, ds, n);
    FoldSameShapes(TreeOf(tree), TreeOf(tree), cs, n1, n);
    FoldSameShapes(TreeOf(first), FoldTree(TreeOf(tree), cs, n), ds, n2, n);
    ShapesWithin(two, one, TreeOf(two), TreeOf(one));
    ShapesWithin(one, two, TreeOf(one), TreeOf(two));
    ShapesSorted(two, leq);
    ShapesSorted(one, leq);
    StrictlySortedSame(MapSeq(ShapeOf, two), MapSeq(ShapeOf, one), ShapeOrder(leq));
  }

  lemma ShapesSorted(r: seq<FileNode>, leq: (string, string) -> bool)
    requires forall i, j :: 0 <= i < j < |r| ==> leq(r[i].path, r[j].path) && !leq(r[j].path, r[i].path)
    ensures var s := MapSeq(ShapeOf, r);
      Sorted(s, ShapeOrder(leq)) && forall i, j :: 0 <= i < j < |s| ==> !ShapeOrder(leq)(s[j], s[i])
  {
    var s, ord := MapSeq(ShapeOf, r), ShapeOrder(leq);
    forall i, j | 0 <= i < j < |s| ensures ord(s[i], s[j]) && !ord(s[j], s[i]) {
      assert leq(r[i].path, r[j].path) && !leq(r[j].path, r[i].path);
    }
  }

  lemma ShapesWithin(a: seq<FileNode>, b: seq<FileNode>, t: Tree, u: Tree)
    requires Represents(a, t) && Represents(b, u) && SameShapes(t, u)
    ensures forall x :: x in MapSeq(ShapeOf, a) ==> x in MapSeq(ShapeOf, b)
  {
    forall x | x in MapSeq(ShapeOf, a) ensures x in MapSeq(ShapeOf, b) {
      var i :| 0 <= i < |a| && MapSeq(ShapeOf, a)[i] == x;
      KL.FindIn(a, PathOf, a[i]);
      var p := a[i].path;
      assert Lookup(t, p) == Some(a[i]);
      assert KL.Find(b, PathOf, p) == Some(u[p]);
      var j :| 0 <= j < |b| && b[j] == u[p];
      assert MapSeq(ShapeOf, b)[j] == x;
    }
  }

  // ---- What a fold stores under a path --------------------------------------------------------------------------

  /** The change takes the file at p away: it moves it elsewhere, or removes it. */
  predicate Clears(c: ChangedFile, p: string) {
    (c.previousPath == Some(p) && p != "" && p != c.path) || (c.status.Removed? && c.path == p)
  }

  /** The change leaves a file at p. */
  predicate Leaves(c: ChangedFile, p: string) { !c.status.Removed? && c.path == p }

  /**
   A field of the file at p after the changes: what the last change that gives it says, since the path was last
   absent; otherwise the field of the old file, and for a path that was absent the default.
   */
  function LastGiven<T>(cs: seq<ChangedFile>, p: string, given: ChangedFile -> Option<T>, before: Option<T>, default: T): T {
    if cs == [] then Or(before, default)
    else
      var c := cs[|cs| - 1];
      if Clears(c, p) then default
      else if Leaves(c, p) && given(c).Some? then given(c).value
      else LastGiven(cs[..|cs| - 1], p, given, before, default)
  }

  /** Whether a file stands at p after the changes: one was left there, or was there before, and none took it away. */
  predicate Present(cs: seq<ChangedFile>, p: string, before: bool) {
    if cs == [] then before
    else
      var c := cs[|cs| - 1];
      !Clears(c, p) && (Leaves(c, p) || Present(cs[..|cs| - 1], p, before))
  }

  function OldSize(t: Tree, p: string): Option<int> { if p in t then Some(t[p].size) else None }
  function OldModified(t: Tree, p: string): Option<int> { if p in t then Some(t[p].lastModified) else None }
  function OldAuthor(t: Tree, p: string): Option<string> { if p in t then Some(t[p].lastAuthor) else None }
  function OldSha(t: Tree, p: string): Option<string> { if p in t then Some(t[p].sha) else None }

  /** Whether a file stands at p after the changes, and all its fields. */
  ghost predicate FileFollows(t: Tree, cs: seq<ChangedFile>, now: int, r: Tree, p: string) {
    && (p in r <==> Present(cs, p, p in t))
    && (p in r ==>
          && r[p].path == p
          && r[p].size == LastGiven(cs, p, (c: ChangedFile) => c.size, OldSize(t, p), 0)
          && r[p].lastModified == LastGiven(cs, p, (c: ChangedFile) => c.lastModified, OldModified(t, p), now)
          && r[p].lastAuthor == LastGiven(cs, p, (c: ChangedFile) => c.lastAuthor, OldAuthor(t, p), "unknown")
          && r[p].sha == LastGiven(cs, p, (c: ChangedFile) => c.sha, OldSha(t, p), ""))
  }

  lemma FoldTreeLast(t: Tree, cs: seq<ChangedFile>, now: int)
    requires cs != []
    ensures FoldTree(t, cs, now) == ApplyTree(FoldTree(t, cs[..|cs| - 1], now), cs[|cs| - 1], now)
  {
    var n := |cs| - 1;
    assert cs == cs[..n] + [cs[n]];
    FoldTreeConcat(t, cs[..n], [cs[n]], now);
    var u := FoldTree(t, cs[..n], now);
    assert FoldTree(u, [cs[n]], now) == ApplyTree(u, cs[n], now);
  }

  /** Where no file stands after the changes, every field has its default. */
  lemma {:induction false} AbsentGivesDefault<T>(cs: seq<ChangedFile>, p: string, given: ChangedFile -> Option<T>, before: Option<T>, default: T)
    requires !Present(cs, p, before.Some?)
    ensures LastGiven(cs, p, given, before, default) == default
  {
    if cs != [] && !Clears(cs[|cs| - 1], p) { AbsentGivesDefault(cs[..|cs| - 1], p, given, before, default); }
  }

  /** The fold stores, path by path, the fields that the last change giving them gives. */
  lemma {:induction false} FoldFollows(t: Tree, cs: seq<ChangedFile>, now: int, p: string)
    requires p in t ==> t[p].path == p
    ensures FileFollows(t, cs, now, FoldTree(t, cs, now), p)
  {
    if cs != [] {
      var n := |cs| - 1;
      var init := cs[..n];
      FoldFollows(t, init, now, p);
      FoldTreeLast(t, cs, now);
      if !Present(init, p, p in t) {
        AbsentGivesDefault(init, p, (c: ChangedFile) => c.size, OldSize(t, p), 0);
        AbsentGivesDefault(init, p, (c: ChangedFile) => c.lastModified, OldModified(t, p), now);
        AbsentGivesDefault(init, p, (c: ChangedFile) => c.lastAuthor, OldAuthor(t, p), "unknown");
        AbsentGivesDefault(init, p, (c: ChangedFile) => c.sha, OldSha(t, p), "");
      }
    }
  }

  lemma TreeOfPaths(files: seq<FileNode>, p: string)
    requires p in TreeOf(files)
    ensures TreeOf(files)[p].path == p
  {
    TreeOfRepresents(files);
    assert KL.Find(KL.PutAll([], PathOf, files), PathOf, p) == Lookup(TreeOf(files), p);
  }

  // ---- Dependencies follow the tree ---------------------------------------------------------------------------

  /** The edges with both ends among the given paths, in order. */
  function Within(deps: seq<Edge>, paths: set<string>): seq<Edge> {
    if deps == [] then []
    else
      var n := |deps| - 1;
      Within(deps[..n], paths) + if deps[n].from in paths && deps[n].to in paths then [deps[n]] else []
  }

  lemma {:induction false} WithinMembers(deps: seq<Edge>, paths: set<string>)
    ensures forall e :: e in Within(deps, paths) <==> e in deps && e.from in paths && e.to in paths
    ensures KL.Subsequence(Within(deps, paths), deps)
  {
    if deps != [] {
      var n := |deps| - 1;
      assert deps == deps[..n] + [deps[n]];
      WithinMembers(deps[..n], paths);
      KL.SubsequenceConcat(Within(deps[..n], paths), deps[..n],
        if deps[n].from in paths && deps[n].to in paths then [deps[n]] else [], [deps[n]]);
    }
  }

  /**
   A dependency survives two batches exactly as it survives one, unless an end of it left the tree in between: the
   edge lists agree if and only if every edge that ends inside the final tree was inside the tree in between.
   */
  lemma {:induction false} BatchesDropDependencies(deps: seq<Edge>, between: set<string>, after: set<string>)
    ensures Within(Within(deps, between), after) == Within(deps, after)
      <==> forall e :: e in deps && e.from in after && e.to in after ==> e.from in between && e.to in between
  {
    WithinMembers(deps, between);
    WithinMembers(Within(deps, between), after);
    WithinMembers(deps, after);
    if forall e :: e in deps && e.from in after && e.to in after ==> e.from in between && e.to in between {
      WithinTwice(deps, between, after);
    } else {
      var e :| e in deps && e.from in after && e.to in after && !(e.from in between && e.to in between);
      assert e in Within(deps, after) && e !in Within(Within(deps, between), after);
    }
  }

  lemma {:induction false} WithinSnoc(deps: seq<Edge>, e: Edge, paths: set<string>)
    ensures Within(deps + [e], paths) == Within(deps, paths) + (if e.from in paths && e.to in paths then [e] else [])
  {
    var s := deps + [e];
    var n := |s| - 1;
    assert s[..n] == deps && s[n] == e;
  }

  lemma {:induction false} WithinTwice(deps: seq<Edge>, between: set<string>, after: set<string>)
    requires forall e :: e in deps && e.from in after && e.to in after ==> e.from in between && e.to in between
    ensures Within(Within(deps, between), after) == Within(deps, after)
  {
    if deps != [] {
      var n := |deps| - 1;
      var t, e := deps[..n], deps[n];
      assert deps == t + [e] && e in deps;
      WithinTwice(t, between, after);
      WithinSnoc(t, e, between);
      WithinSnoc(t, e, after);
      WithinSnoc(Within(t, between), e, after);
      if e.from in between && e.to in between {
        assert Within(deps, between) == Within(t, between) + [e];
      } else {
        assert Within(deps, between) == Within(t, between) && Within(deps, after) == Within(t, after);
      }
    }
  }

  // ---- The loop of the source -----------------------------------------------------------------------------------

  method FoldChanges(tree: seq<FileNode>, changes: seq<ChangedFile>, now: int) returns (files: seq<FileNode>)
    ensures files == Fold(KL.PutAll([], PathOf, tree), changes, now)
  {
    files := KL.PutAll([], PathOf, tree);
    ghost var start := files;
    for i := 0 to |changes|
      invariant Fold(files, changes[i..], now) == Fold(start, changes, now)
    {
      var change := changes[i];
      assert changes[i..][0] == change && changes[i..][1..] == changes[i + 1..];
      ghost var before := files;
      if change.previousPath.Some? && change.previousPath.value != "" && change.previousPath.value != change.path {
        files := KL.Remove(files, PathOf, change.previousPath.value);
      }
      if change.status.Removed? {
        files := KL.Remove(files, PathOf, change.path);
        continue;
      }
      var previous := KL.Find(files, PathOf, change.path);
      files := KL.Put(files, PathOf, Written(change, previous, now));
      assert files == Apply(before, change, now);
    }
  }
}
