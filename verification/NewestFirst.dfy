/**
 The bounded newest-first lists of the cache: new items are merged into the stored ones by id, sorted by time and cut
 to a maximum length. addCommits merges a batch; the upserts of audit records merge a batch of one.
 */
module NewestFirst {
  import opened Wrappers
  import opened StableSort
  import KL = KeyedList

  function ByStamp<T>(stamp: T -> int): (T, T) -> bool {
    (a, b) => stamp(a) >= stamp(b)
  }

  /** The insertion-ordered map from id to item: the stored items first, then the batch over them. */
  function Merged<T>(base: seq<T>, batch: seq<T>, id: T -> string): seq<T> {
    KL.PutAll(KL.PutAll([], id, base), id, batch)
  }

  function MergeNewest<T>(base: seq<T>, batch: seq<T>, id: T -> string, stamp: T -> int, cap: nat): seq<T> {
    Take(Sort(Merged(base, batch, id), ByStamp(stamp)), cap)
  }

  /** Under every id the merge holds the batch's last item, or the last stored one. */
  lemma MergedFinds<T>(base: seq<T>, batch: seq<T>, id: T -> string, k: string)
    ensures KL.UniqueKeys(Merged(base, batch, id), id)
    ensures KL.Find(Merged(base, batch, id), id, k) ==
      if KL.Latest(batch, id, k).Some? then KL.Latest(batch, id, k) else KL.Latest(base, id, k)
  {
    KL.PutAllUnique([], id, base);
    KL.PutAllUnique(KL.PutAll([], id, base), id, batch);
    KL.FindPutAll([], id, base, k);
    KL.FindPutAll(KL.PutAll([], id, base), id, batch, k);
  }

  lemma {:induction false} SortKeepsUnique<T>(s: seq<T>, id: T -> string, leq: (T, T) -> bool)
    requires KL.UniqueKeys(s, id)
    ensures KL.UniqueKeys(Sort(s, leq), id)
  {
    if s != [] {
      var t := s[1..];
      assert KL.UniqueKeys(t, id) by {
        forall i, j | 0 <= i < j < |t| ensures id(t[i]) != id(t[j]) { assert t[i] == s[i + 1] && t[j] == s[j + 1]; }
      }
      SortKeepsUnique(t, id, leq);
      SortMembers(t, leq);
      forall y | y in Sort(t, leq) ensures id(y) != id(s[0]) {
        var m :| 0 <= m < |t| && t[m] == y;
        assert t[m] == s[m + 1];
      }
      InsertKeepsUnique(s[0], Sort(t, leq), id, leq);
    }
  }

  lemma {:induction false} InsertKeepsUnique<T>(x: T, s: seq<T>, id: T -> string, leq: (T, T) -> bool)
    requires KL.UniqueKeys(s, id) && forall y :: y in s ==> id(y) != id(x)
    ensures KL.UniqueKeys(Insert(x, s, leq), id)
  {
    if s != [] && !leq(x, s[0]) {
      var t := s[1..];
      assert KL.UniqueKeys(t, id) by {
        forall i, j | 0 <= i < j < |t| ensures id(t[i]) != id(t[j]) { assert t[i] == s[i + 1] && t[j] == s[j + 1]; }
      }
      InsertKeepsUnique(x, t, id, leq);
      var r := Insert(x, t, leq);
      InsertPermutes(x, t, leq);
      forall j | 0 <= j < |r| ensures id(r[j]) != id(s[0]) {
        assert r[j] in multiset(r);
        if r[j] != x { assert r[j] in t; var m :| 0 <= m < |t| && t[m] == r[j]; assert t[m] == s[m + 1]; }
      }
    }
  }

  lemma ByStampOrders<T(!new)>(stamp: T -> int)
    ensures TotalPreorder(ByStamp(stamp))
  {
  }

  /** The stored list has unique ids, runs newest first, and is the newest `cap` items of the merge. */
  lemma MergeNewestKeeps<T(!new)>(base: seq<T>, batch: seq<T>, id: T -> string, stamp: T -> int, cap: nat)
    ensures var m, r := Merged(base, batch, id), MergeNewest(base, batch, id, stamp, cap);
      && KL.UniqueKeys(r, id)
      && (forall i, j :: 0 <= i < j < |r| ==> stamp(r[i]) >= stamp(r[j]))
      && |r| == (if cap <= |m| then cap else |m|)
      && (forall x :: x in r ==> x in m)
      && (forall x, y :: x in r && y in m && y !in r ==> stamp(x) >= stamp(y))
      && (|r| < cap ==> forall y :: y in m ==> y in r)
  {
    var leq := ByStamp(stamp);
    var m, r := Merged(base, batch, id), MergeNewest(base, batch, id, stamp, cap);
    var s := Sort(m, leq);
    ByStampOrders(stamp);
    MergedFinds(base, batch, id, "");
    SortSorted(m, leq);
    SortPermutes(m, leq);
    SortMembers(m, leq);
    SortKeepsUnique(m, id, leq);
    forall i, j | 0 <= i < j < |r| ensures stamp(r[i]) >= stamp(r[j]) {
      assert leq(s[i], s[j]);
    }
    forall x, y | x in r && y in m && y !in r ensures stamp(x) >= stamp(y) {
      assert y in s;
      var i :| 0 <= i < |r| && r[i] == x;
      var j :| 0 <= j < |s| && s[j] == y;
      assert leq(s[i], s[j]);
    }
    if |r| < cap { assert r == s; }
  }

  lemma {:induction false} PutAllOfUnique<T>(s: seq<T>, id: T -> string)
    requires KL.UniqueKeys(s, id)
    ensures KL.PutAll([], id, s) == s
    decreases |s|
  {
    if s != [] {
      var n := |s| - 1;
      var t := s[..n];
      assert s == t + [s[n]];
      PutAllOfUnique(t, id);
      KL.PutAllConcat([], id, t, [s[n]]);
      assert !KL.HasKey(t, id, id(s[n]));
      KL.PutShape(t, id, s[n]);
      assert KL.PutAll(t, id, [s[n]]) == KL.Put(t, id, s[n]);
    }
  }

  /** Adding two batches in turn gives the list of adding them at once, if the second brings no known id. */
  lemma BatchesCompose<T(!new)>(base: seq<T>, b: seq<T>, c: seq<T>, id: T -> string, stamp: T -> int, cap: nat)
    requires forall x :: x in c ==> !KL.HasKey(base, id, id(x)) && !KL.HasKey(b, id, id(x))
    ensures MergeNewest(MergeNewest(base, b, id, stamp, cap), c, id, stamp, cap) == MergeNewest(base, b + c, id, stamp, cap)
  {
    var leq := ByStamp(stamp);
    ByStampOrders(stamp);
    var m, n, d := Merged(base, b, id), MergeNewest(base, b, id, stamp, cap), KL.PutAll([], id, c);
    MergeNewestKeeps(base, b, id, stamp, cap);
    forall x | x in c ensures !KL.HasKey(m, id, id(x)) && !KL.HasKey(n, id, id(x)) {
      MergedFinds(base, b, id, id(x));
      if KL.HasKey(n, id, id(x)) { KL.HasKeyWithin(n, m, id, id(x)); }
    }
    PutAllOfUnique(n, id);
    KL.PutAllAppends(n, id, c);
    assert Merged(n, c, id) == n + d;
    KL.PutAllConcat(KL.PutAll([], id, base), id, b, c);
    KL.PutAllAppends(m, id, c);
    assert Merged(base, b + c, id) == m + d;
    TakeSortConcat(m, d, cap, leq);
  }

  ghost predicate DistinctStamps<T(!new)>(m: seq<T>, stamp: T -> int) {
    forall x, y :: x in m && y in m && x != y ==> stamp(x) != stamp(y)
  }

  ghost function Newer<T(!new)>(m: seq<T>, stamp: T -> int, x: T): set<T> { set y | y in m && stamp(y) > stamp(x) }

  /** x is in the list, and fewer than cap others are newer. */
  ghost predicate AmongNewest<T(!new)>(m: seq<T>, stamp: T -> int, cap: nat, x: T) {
    x in m && |Newer(m, stamp, x)| < cap
  }

  ghost function Elements<T>(s: seq<T>): set<T> { set x | x in s }

  lemma {:induction false} ElementsCount<T>(s: seq<T>, id: T -> string)
    requires KL.UniqueKeys(s, id)
    ensures |Elements(s)| == |s|
  {
    if s != [] {
      var n := |s| - 1;
      ElementsCount(s[..n], id);
      assert s == s[..n] + [s[n]];
      assert Elements(s) == Elements(s[..n]) + {s[n]};
      assert forall i :: 0 <= i < n ==> id(s[i]) != id(s[n]);
    }
  }

  lemma FewerElements<T>(a: set<T>, b: set<T>)
    requires a <= b
    ensures |a| <= |b|
  {
    assert b == a + (b - a);
  }

  /** Of items with distinct times the stored list keeps exactly those with fewer than cap newer ones in the merge. */
  lemma MergeNewestExact<T(!new)>(base: seq<T>, batch: seq<T>, id: T -> string, stamp: T -> int, cap: nat, x: T)
    requires DistinctStamps(Merged(base, batch, id), stamp)
    ensures x in MergeNewest(base, batch, id, stamp, cap) <==> AmongNewest(Merged(base, batch, id), stamp, cap, x)
  {
    var m, r := Merged(base, batch, id), MergeNewest(base, batch, id, stamp, cap);
    MergeNewestKeeps(base, batch, id, stamp, cap);
    hide Merged, MergeNewest;
    ElementsCount(r, id);
    if x in r {
      FewerElements(Newer(m, stamp, x), Elements(r) - {x});
      assert x in Elements(r);
    } else if x in m {
      FewerElements(Elements(r), Newer(m, stamp, x));
    }
  }

  lemma PutAllMembers<T>(s: seq<T>, id: T -> string, c: seq<T>, x: T)
    requires KL.UniqueKeys(s, id)
    ensures x in KL.PutAll(s, id, c) <==>
      if KL.Latest(c, id, id(x)).Some? then KL.Latest(c, id, id(x)) == Some(x) else x in s
  {
    KL.PutAllUnique(s, id, c);
    KL.FindPutAll(s, id, c, id(x));
    if x in s { KL.FindIn(s, id, x); }
    if x in KL.PutAll(s, id, c) { KL.FindIn(KL.PutAll(s, id, c), id, x); }
  }

  /** An item the first of two batches cut off, and the second does not write again. */
  ghost predicate Lost<T>(base: seq<T>, b: seq<T>, c: seq<T>, id: T -> string, stamp: T -> int, cap: nat, x: T) {
    x in Merged(base, b, id) && x !in MergeNewest(base, b, id, stamp, cap) && KL.Latest(c, id, id(x)).None?
  }

  /** Merging two batches in turn misses of the merge at once exactly what was lost in between. */
  lemma TwoMergesMiss<T(!new)>(base: seq<T>, b: seq<T>, c: seq<T>, id: T -> string, stamp: T -> int, cap: nat, x: T)
    ensures x in Merged(MergeNewest(base, b, id, stamp, cap), c, id)
      <==> x in Merged(base, b + c, id) && !Lost(base, b, c, id, stamp, cap, x)
  {
    var m, n := Merged(base, b, id), MergeNewest(base, b, id, stamp, cap);
    MergedFinds(base, b, id, id(x));
    MergeNewestKeeps(base, b, id, stamp, cap);
    PutAllOfUnique(n, id);
    KL.PutAllConcat(KL.PutAll([], id, base), id, b, c);
    PutAllMembers(n, id, c, x);
    PutAllMembers(m, id, c, x);
  }

  /**
   With distinct times, two batches in turn give the list of both at once exactly when nothing the first cut off, and
   the second does not write again, is among the newest cap items of the merge.
   */
  lemma BatchesComposeExactly<T(!new)>(base: seq<T>, b: seq<T>, c: seq<T>, id: T -> string, stamp: T -> int, cap: nat)
    requires DistinctStamps(Merged(base, b + c, id), stamp)
    ensures MergeNewest(MergeNewest(base, b, id, stamp, cap), c, id, stamp, cap) == MergeNewest(base, b + c, id, stamp, cap)
      <==> forall x :: Lost(base, b, c, id, stamp, cap, x) ==> !AmongNewest(Merged(base, b + c, id), stamp, cap, x)
  {
    var n := MergeNewest(base, b, id, stamp, cap);
    var some, all := Merged(n, c, id), Merged(base, b + c, id);
    var two, one := MergeNewest(n, c, id, stamp, cap), MergeNewest(base, b + c, id, stamp, cap);
    forall x ensures x in some <==> x in all && !Lost(base, b, c, id, stamp, cap, x) {
      TwoMergesMiss(base, b, c, id, stamp, cap, x);
    }
    forall x ensures x in one <==> AmongNewest(all, stamp, cap, x) { MergeNewestExact(base, b + c, id, stamp, cap, x); }
    MergeNewestKeeps(n, c, id, stamp, cap);
    MergeNewestKeeps(base, b + c, id, stamp, cap);
    hide Merged, MergeNewest, Lost, AmongNewest;
    if forall x :: Lost(base, b, c, id, stamp, cap, x) ==> !AmongNewest(all, stamp, cap, x) {
      assert forall x :: x in one ==> x in some;
      SameNewest(two, one, some, all, id, stamp, cap);
    }
  }

  /** If the newest of the larger list are all in the smaller one, they are the newest of both. */
  lemma SameNewest<T(!new)>(two: seq<T>, one: seq<T>, some: seq<T>, all: seq<T>, id: T -> string, stamp: T -> int, cap: nat)
    requires DistinctStamps(all, stamp) && (forall x :: x in some ==> x in all) && (forall x :: x in one ==> x in some)
    requires KL.UniqueKeys(one, id) && KL.UniqueKeys(two, id)
    requires forall i, j :: 0 <= i < j < |one| ==> stamp(one[i]) >= stamp(one[j])
    requires forall i, j :: 0 <= i < j < |two| ==> stamp(two[i]) >= stamp(two[j])
    requires forall x :: x in two ==> x in some
    requires forall x, y :: x in one && y in all && y !in one ==> stamp(x) >= stamp(y)
    requires forall x, y :: x in two && y in some && y !in two ==> stamp(x) >= stamp(y)
    requires |one| <= cap && |two| <= cap
    requires |one| < cap ==> forall y :: y in all ==> y in one
    requires |two| < cap ==> forall y :: y in some ==> y in two
    ensures two == one
  {
    ElementsCount(one, id);
    ElementsCount(two, id);
    forall x | x in one ensures x in two {
      if x !in two {
        assert forall y :: y in two ==> stamp(y) > stamp(x) && y in one;
        FewerElements(Elements(two) + {x}, Elements(one));
      }
    }
    forall x | x in two ensures x in one {
      if x !in one {
        assert forall y :: y in one ==> stamp(y) > stamp(x) && y in two;
        FewerElements(Elements(one) + {x}, Elements(two));
      }
    }
    StrictlyNewest(one, all, id, stamp);
    StrictlyNewest(two, all, id, stamp);
    StrictlySortedSame(two, one, ByStamp(stamp));
  }

  lemma StrictlyNewest<T(!new)>(r: seq<T>, all: seq<T>, id: T -> string, stamp: T -> int)
    requires DistinctStamps(all, stamp) && KL.UniqueKeys(r, id) && forall x :: x in r ==> x in all
    requires forall i, j :: 0 <= i < j < |r| ==> stamp(r[i]) >= stamp(r[j])
    ensures Sorted(r, ByStamp(stamp)) && forall i, j :: 0 <= i < j < |r| ==> !ByStamp(stamp)(r[j], r[i])
  {
    forall i, j | 0 <= i < j < |r| ensures !ByStamp(stamp)(r[j], r[i]) {
      assert id(r[i]) != id(r[j]) && r[i] in all && r[j] in all;
    }
  }

  /** As long as the first batch cuts nothing off, two batches in turn are one. */
  lemma BatchesComposeWithoutCut<T(!new)>(base: seq<T>, b: seq<T>, c: seq<T>, id: T -> string, stamp: T -> int, cap: nat)
    requires DistinctStamps(Merged(base, b + c, id), stamp) && |Merged(base, b, id)| <= cap
    ensures MergeNewest(MergeNewest(base, b, id, stamp, cap), c, id, stamp, cap) == MergeNewest(base, b + c, id, stamp, cap)
  {
    BatchesComposeExactly(base, b, c, id, stamp, cap);
    MergeNewestKeeps(base, b, id, stamp, cap);
    var m := Merged(base, b, id);
    SortMembers(m, ByStamp(stamp));
    SortPermutes(m, ByStamp(stamp));
    assert MergeNewest(base, b, id, stamp, cap) == Sort(m, ByStamp(stamp));
  }

  /** Repeating a batch changes nothing. */
  lemma BatchTwice<T(!new)>(base: seq<T>, b: seq<T>, id: T -> string, stamp: T -> int, cap: nat)
    ensures MergeNewest(MergeNewest(base, b, id, stamp, cap), b, id, stamp, cap) == MergeNewest(base, b, id, stamp, cap)
  {
    var leq := ByStamp(stamp);
    ByStampOrders(stamp);
    var m, n := Merged(base, b, id), MergeNewest(base, b, id, stamp, cap);
    MergeNewestKeeps(base, b, id, stamp, cap);
    PutAllOfUnique(n, id);
    var p := KL.PutAll(n, id, b);
    var r := RepeatAppends(base, b, id, n, p);
    assert Merged(n, b, id) == n + r;
    assert Sorted(n, leq);
    if |n| < cap {
      assert r == [];
      assert n + r == n;
      SortOfSorted(n, leq);
    } else {
      SortSortedPrefix(n, r, leq);
    }
  }

  lemma RepeatAppends<T(!new)>(base: seq<T>, b: seq<T>, id: T -> string, n: seq<T>, p: seq<T>) returns (r: seq<T>)
    requires KL.UniqueKeys(n, id) && (forall x :: x in n ==> x in Merged(base, b, id))
    requires p == KL.PutAll(n, id, b)
    ensures r == [] || (r[0] in Merged(base, b, id) && r[0] !in n)
    ensures p == n + r && forall i :: 0 <= i < |r| ==> r[i] in Merged(base, b, id) && r[i] !in n
  {
    var m := Merged(base, b, id);
    MergedFinds(base, b, id, "");
    KL.PutAllUnique(n, id, b);
    KL.PutAllShape(n, id, b);
    r := p[|n|..];
    forall i | 0 <= i < |n| ensures p[i] == n[i] {
      var k := id(n[i]);
      assert p[i] in p && n[i] in n && n[i] in m;
      KL.FindIn(p, id, p[i]);
      KL.FindIn(n, id, n[i]);
      KL.FindIn(m, id, n[i]);
      KL.FindPutAll(n, id, b, k);
      MergedFinds(base, b, id, k);
    }
    forall i | 0 <= i < |r| ensures r[i] in m && r[i] !in n {
      var y := r[i];
      assert p[|n| + i] == y && y in p;
      var k := id(y);
      assert !KL.HasKey(n, id, k) by { assert forall j :: 0 <= j < |n| ==> id(n[j]) == id(p[j]); }
      KL.FindIn(p, id, y);
      KL.FindPutAll(n, id, b, k);
      MergedFinds(base, b, id, k);
      assert KL.Find(m, id, k) == Some(y);
    }
  }

  /** With room for one item, the newest of the merge is the whole list. */
  lemma TopOne<T(!new)>(base: seq<T>, batch: seq<T>, id: T -> string, stamp: T -> int, x: T)
    requires x in Merged(base, batch, id)
    requires forall y :: y in Merged(base, batch, id) && y != x ==> stamp(y) < stamp(x)
    ensures MergeNewest(base, batch, id, stamp, 1) == [x]
  {
    var r := MergeNewest(base, batch, id, stamp, 1);
    MergeNewestKeeps(base, batch, id, stamp, 1);
    assert |r| == 1 && r[0] in r;
  }
}
