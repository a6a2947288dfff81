// Values and insertion-ordered collections shared by the models.

module Wrappers {
  datatype Option<+T> = None | Some(value: T)

  datatype Result<+T, +E> = Ok(value: T) | Err(error: E)

  function Or<T>(o: Option<T>, default: T): T { if o.Some? then o.value else default }
}

/** Tests on JavaScript strings. */
module Texts {
  predicate EndsWith(text: string, tail: string) { |tail| <= |text| && text[|text| - |tail|..] == tail }

  predicate OccursAt(text: string, pattern: string, i: int) {
    0 <= i && i + |pattern| <= |text| && text[i..i + |pattern|] == pattern
  }
}

/**
 An insertion-ordered JavaScript Map whose key is a function of the stored value: a sequence of values with
 distinct keys. Setting a present key replaces the value in place; setting a new key appends.
 */
module KeyedList {
  import opened Wrappers

  ghost predicate UniqueKeys<T, K>(s: seq<T>, id: T -> K) {
    forall i, j :: 0 <= i < j < |s| ==> id(s[i]) != id(s[j])
  }

  ghost predicate HasKey<T, K>(s: seq<T>, id: T -> K, k: K) {
    exists i :: 0 <= i < |s| && id(s[i]) == k
  }

  function Find<T, K(==)>(s: seq<T>, id: T -> K, k: K): (r: Option<T>)
    ensures r.Some? ==> r.value in s && id(r.value) == k
    ensures r.None? <==> !HasKey(s, id, k)
  {
    if s == [] then None
    else if id(s[0]) == k then
      assert HasKey(s, id, k);
      Some(s[0])
    else
      HasKeyTail(s, id, k);
      Find(s[1..], id, k)
  }

  lemma HasKeyTail<T, K>(s: seq<T>, id: T -> K, k: K)
    requires s != []
    ensures HasKey(s, id, k) <==> id(s[0]) == k || HasKey(s[1..], id, k)
  {
    if HasKey(s, id, k) {
      var i :| 0 <= i < |s| && id(s[i]) == k;
      if i > 0 { assert id(s[1..][i - 1]) == k; }
    }
    if HasKey(s[1..], id, k) {
      var i :| 0 <= i < |s[1..]| && id(s[1..][i]) == k;
      assert id(s[i + 1]) == k;
    }
  }

  lemma HasKeyWithin<T, K>(s: seq<T>, t: seq<T>, id: T -> K, k: K)
    requires forall x :: x in s ==> x in t
    requires HasKey(s, id, k)
    ensures HasKey(t, id, k)
  {
    var i :| 0 <= i < |s| && id(s[i]) == k;
    assert s[i] in t;
  }

  function Put<T, K(==)>(s: seq<T>, id: T -> K, x: T): (r: seq<T>) {
    if s == [] then [x]
    else if id(s[0]) == id(x) then [x] + s[1..]
    else [s[0]] + Put(s[1..], id, x)
  }

  function Remove<T, K(==)>(s: seq<T>, id: T -> K, k: K): (r: seq<T>) {
    if s == [] then []
    else if id(s[0]) == k then Remove(s[1..], id, k)
    else [s[0]] + Remove(s[1..], id, k)
  }

  function PutAll<T, K(==)>(s: seq<T>, id: T -> K, xs: seq<T>): (r: seq<T>)
    decreases |xs|
  {
    if xs == [] then s else PutAll(Put(s, id, xs[0]), id, xs[1..])
  }

  lemma FindIn<T, K>(s: seq<T>, id: T -> K, x: T)
    requires UniqueKeys(s, id) && x in s
    ensures Find(s, id, id(x)) == Some(x)
  {
    assert HasKey(s, id, id(x));
    var r := Find(s, id, id(x)).value;
    var i :| 0 <= i < |s| && s[i] == x;
    var j :| 0 <= j < |s| && s[j] == r;
    if i < j { assert false; } else if j < i { assert false; }
  }

  /** Put is a map update: it changes what is found under its own key and nothing else. */
  lemma {:induction false} FindPut<T, K>(s: seq<T>, id: T -> K, x: T, k: K)
    ensures Find(Put(s, id, x), id, k) == if k == id(x) then Some(x) else Find(s, id, k)
  {
    if s != [] && id(s[0]) != id(x) {
      FindPut(s[1..], id, x, k);
      assert ([s[0]] + Put(s[1..], id, x))[1..] == Put(s[1..], id, x);
    } else if s != [] {
      assert ([x] + s[1..])[1..] == s[1..];
    }
  }

  lemma {:induction false} FindRemove<T, K>(s: seq<T>, id: T -> K, k: K, j: K)
    ensures Find(Remove(s, id, k), id, j) == if j == k then None else Find(s, id, j)
  {
    if s != [] {
      FindRemove(s[1..], id, k, j);
      if id(s[0]) != k {
        assert ([s[0]] + Remove(s[1..], id, k))[1..] == Remove(s[1..], id, k);
      }
    }
  }

  /** Put keeps the position of every key already present and appends a new one at the end. */
  lemma {:induction false} PutShape<T, K>(s: seq<T>, id: T -> K, x: T)
    ensures var r := Put(s, id, x);
      && |s| <= |r| <= |s| + 1
      && (|r| == |s| <==> HasKey(s, id, id(x)))
      && (|r| == |s| + 1 ==> r == s + [x])
      && (forall i :: 0 <= i < |s| ==> id(r[i]) == id(s[i]))
  {
    if s == [] {
    } else if id(s[0]) == id(x) {
      assert HasKey(s, id, id(x));
    } else {
      var t, r := s[1..], Put(s, id, x);
      PutShape(t, id, x);
      assert r[1..] == Put(t, id, x);
      HasKeyTail(s, id, id(x));
      forall i | 0 < i < |s| ensures id(r[i]) == id(s[i]) {
        assert r[i] == Put(t, id, x)[i - 1] && s[i] == t[i - 1];
      }
    }
  }

  lemma PutUnique<T, K>(s: seq<T>, id: T -> K, x: T)
    requires UniqueKeys(s, id)
    ensures UniqueKeys(Put(s, id, x), id)
    ensures |s| <= |Put(s, id, x)|
    ensures forall i :: 0 <= i < |s| ==> Put(s, id, x)[i] == if id(s[i]) == id(x) then x else s[i]
    ensures forall y :: y in Put(s, id, x) ==> y == x || (y in s && id(y) != id(x))
  {
    PutShape(s, id, x);
    var r := Put(s, id, x);
    forall i | 0 <= i < |s| ensures r[i] == if id(s[i]) == id(x) then x else s[i] {
      if id(s[i]) == id(x) { PutReplaces(s, id, x, i); } else { PutKeepsOther(s, id, x, i); }
    }
  }

  lemma {:induction false} PutKeepsOther<T, K>(s: seq<T>, id: T -> K, x: T, i: nat)
    requires i < |s| && id(s[i]) != id(x)
    ensures i < |Put(s, id, x)| && Put(s, id, x)[i] == s[i]
  {
    if i > 0 && id(s[0]) != id(x) { PutKeepsOther(s[1..], id, x, i - 1); }
  }

  lemma {:induction false} PutReplaces<T, K>(s: seq<T>, id: T -> K, x: T, i: nat)
    requires UniqueKeys(s, id) && i < |s| && id(s[i]) == id(x)
    ensures i < |Put(s, id, x)| && Put(s, id, x)[i] == x
  {
    if i > 0 { PutReplaces(s[1..], id, x, i - 1); }
  }

  lemma {:induction false} RemoveMembers<T, K>(s: seq<T>, id: T -> K, k: K)
    ensures forall y :: y in Remove(s, id, k) ==> y in s && id(y) != k
    ensures forall y :: y in s && id(y) != k ==> y in Remove(s, id, k)
    ensures |Remove(s, id, k)| <= |s|
    ensures HasKey(s, id, k) ==> |Remove(s, id, k)| < |s|
    ensures UniqueKeys(s, id) ==> UniqueKeys(Remove(s, id, k), id)
  {
    if s != [] {
      var t := s[1..];
      RemoveMembers(t, id, k);
      assert forall y :: y in s <==> y == s[0] || y in t;
      if HasKey(s, id, k) && id(s[0]) != k {
        var i :| 0 <= i < |s| && id(s[i]) == k;
        assert id(t[i - 1]) == k;
      }
      if UniqueKeys(s, id) && id(s[0]) != k {
        var r := Remove(t, id, k);
        assert UniqueKeys(t, id) by { forall i, j | 0 <= i < j < |t| ensures id(t[i]) != id(t[j]) { assert t[i] == s[i + 1] && t[j] == s[j + 1]; } }
        forall j | 0 <= j < |r| ensures id(r[j]) != id(s[0]) {
          assert r[j] in r;
          var m :| 0 <= m < |t| && t[m] == r[j];
          assert t[m] == s[m + 1];
        }
      }
    }
  }

  lemma {:induction false} PutAllUnique<T, K>(s: seq<T>, id: T -> K, xs: seq<T>)
    requires UniqueKeys(s, id)
    ensures UniqueKeys(PutAll(s, id, xs), id)
    ensures forall y :: y in PutAll(s, id, xs) ==> y in s || y in xs
    decreases |xs|
  {
    if xs != [] {
      PutUnique(s, id, xs[0]);
      PutAllUnique(Put(s, id, xs[0]), id, xs[1..]);
    }
  }

  /** The first element under each key, in order: Array.filter with a "seen" set. */
  function KeepFirst<T, K(==)>(xs: seq<T>, id: T -> K): (r: seq<T>) {
    if xs == [] then []
    else
      var n := |xs| - 1;
      var r := KeepFirst(xs[..n], id);
      if Find(r, id, id(xs[n])).Some? then r else r + [xs[n]]
  }

  lemma {:induction false} FindAppend<T, K>(s: seq<T>, id: T -> K, x: T, k: K)
    ensures Find(s + [x], id, k) ==
      if Find(s, id, k).Some? then Find(s, id, k) else if id(x) == k then Some(x) else None
  {
    if s != [] {
      assert (s + [x])[0] == s[0] && (s + [x])[1..] == s[1..] + [x];
      FindAppend(s[1..], id, x, k);
    }
  }

  lemma HasKeyAppend<T, K(!new)>(s: seq<T>, id: T -> K, x: T)
    ensures forall k :: HasKey(s + [x], id, k) <==> HasKey(s, id, k) || k == id(x)
  {
    var t := s + [x];
    forall k ensures HasKey(t, id, k) <==> HasKey(s, id, k) || k == id(x) {
      assert id(t[|s|]) == id(x);
      if HasKey(s, id, k) {
        var i :| 0 <= i < |s| && id(s[i]) == k;
        assert id(t[i]) == k;
      }
      if HasKey(t, id, k) {
        var i :| 0 <= i < |t| && id(t[i]) == k;
        if i < |s| { assert id(s[i]) == k; }
      }
    }
  }

  /** What KeepFirst keeps: each key once, with its first value, in the order of first appearance. */
  lemma {:induction false} KeepFirstFinds<T, K>(xs: seq<T>, id: T -> K)
    ensures UniqueKeys(KeepFirst(xs, id), id)
    ensures forall k :: Find(KeepFirst(xs, id), id, k) == Find(xs, id, k)
    ensures forall x :: x in KeepFirst(xs, id) ==> x in xs
    ensures Subsequence(KeepFirst(xs, id), xs)
  {
    if xs != [] {
      var n := |xs| - 1;
      var t, x, r := xs[..n], xs[n], KeepFirst(xs[..n], id);
      assert xs == t + [x];
      KeepFirstFinds(t, id);
      forall k ensures Find(KeepFirst(xs, id), id, k) == Find(xs, id, k) {
        FindAppend(t, id, x, k);
        FindAppend(r, id, x, k);
      }
      if Find(r, id, id(x)).None? {
        assert !HasKey(r, id, id(x));
        assert UniqueKeys(r + [x], id);
        SubsequenceConcat(r, t, [x], [x]);
      } else {
        SubsequenceConcat(r, t, [], [x]);
        assert r + [] == r;
      }
    }
  }

  lemma {:induction false} KeepFirstOfUnique<T, K>(xs: seq<T>, id: T -> K)
    requires UniqueKeys(xs, id)
    ensures KeepFirst(xs, id) == xs
  {
    if xs != [] {
      var n := |xs| - 1;
      KeepFirstOfUnique(xs[..n], id);
      assert xs == xs[..n] + [xs[n]];
    }
  }

  /** a can be obtained from b by dropping elements. */
  predicate Subsequence<T(==)>(a: seq<T>, b: seq<T>) {
    if a == [] then true
    else if b == [] then false
    else if a[0] == b[0] then Subsequence(a[1..], b[1..])
    else Subsequence(a, b[1..])
  }

  /** Dropping the head of the pattern, or adding a head to the text, keeps a subsequence a subsequence. */
  lemma {:induction false} SubsequenceWeaken<T>(a: seq<T>, b: seq<T>)
    requires a != [] && Subsequence(a, b)
    ensures b != [] && Subsequence(a[1..], b[1..])
    decreases |b|
  {
    if a[0] != b[0] {
      SubsequenceWeaken(a, b[1..]);
      SubsequenceSkip(a[1..], b[1..]);
    }
  }

  lemma {:induction false} SubsequenceSkip<T>(a: seq<T>, b: seq<T>)
    requires b != [] && Subsequence(a, b[1..])
    ensures Subsequence(a, b)
    decreases |b|
  {
    if a != [] && a[0] == b[0] { SubsequenceWeaken(a, b[1..]); SubsequenceSkip(a[1..], b[1..]); }
  }

  lemma {:induction false} SubsequenceConcat<T>(a: seq<T>, b: seq<T>, c: seq<T>, d: seq<T>)
    requires Subsequence(a, b) && Subsequence(c, d)
    ensures Subsequence(a + c, b + d)
    decreases |b|
  {
    if b == [] {
      assert a + c == c && b + d == d;
    } else if a == [] {
      SubsequenceConcat(a, b[1..], c, d);
      assert (b + d)[1..] == b[1..] + d;
      SubsequenceSkip(a + c, b + d);
    } else {
      assert (b + d)[1..] == b[1..] + d;
      assert (a + c)[1..] == a[1..] + c;
      if a[0] == b[0] { SubsequenceConcat(a[1..], b[1..], c, d); } else { SubsequenceConcat(a, b[1..], c, d); }
    }
  }

  /** The elements that satisfy a predicate, in order: Array.filter. */
  function Filter<T>(s: seq<T>, p: T -> bool): seq<T> {
    if s == [] then [] else Filter(s[..|s| - 1], p) + if p(s[|s| - 1]) then [s[|s| - 1]] else []
  }

  lemma {:induction false} FilterMembers<T>(s: seq<T>, p: T -> bool)
    ensures forall x :: x in Filter(s, p) ==> x in s && p(x)
    ensures forall x :: x in s && p(x) ==> x in Filter(s, p)
    ensures Subsequence(Filter(s, p), s)
  {
    if s != [] {
      var n := |s| - 1;
      assert s == s[..n] + [s[n]];
      FilterMembers(s[..n], p);
      SubsequenceConcat(Filter(s[..n], p), s[..n], if p(s[n]) then [s[n]] else [], [s[n]]);
    }
  }

  lemma {:induction false} SubsequenceMembers<T>(a: seq<T>, b: seq<T>)
    requires Subsequence(a, b)
    ensures forall x :: x in a ==> x in b
    decreases |b|
  {
    if a != [] {
      if a[0] == b[0] { SubsequenceMembers(a[1..], b[1..]); } else { SubsequenceMembers(a, b[1..]); }
      assert forall x :: x in a ==> x == a[0] || x in a[1..];
    }
  }

  lemma {:induction false} SubsequenceUnique<T, K>(a: seq<T>, b: seq<T>, id: T -> K)
    requires Subsequence(a, b) && UniqueKeys(b, id)
    ensures UniqueKeys(a, id)
    decreases |b|
  {
    if a != [] {
      var t := b[1..];
      assert UniqueKeys(t, id) by { forall i, j | 0 <= i < j < |t| ensures id(t[i]) != id(t[j]) { assert t[i] == b[i + 1] && t[j] == b[j + 1]; } }
      if a[0] == b[0] {
        SubsequenceUnique(a[1..], t, id);
        SubsequenceMembers(a[1..], t);
        forall j | 1 <= j < |a| ensures id(a[j]) != id(a[0]) {
          assert a[1..][j - 1] in t;
          var m :| 0 <= m < |t| && t[m] == a[j];
          assert b[m + 1] == a[j];
        }
        forall i, j | 0 <= i < j < |a| ensures id(a[i]) != id(a[j]) {
          if i > 0 { assert id(a[1..][i - 1]) != id(a[1..][j - 1]); }
        }
      } else {
        SubsequenceUnique(a, t, id);
      }
    }
  }

  lemma {:induction false} SubsequenceTrans<T>(a: seq<T>, b: seq<T>, c: seq<T>)
    requires Subsequence(a, b) && Subsequence(b, c)
    ensures Subsequence(a, c)
    decreases |c|
  {
    if a != [] {
      if b[0] == c[0] {
        if a[0] == b[0] { SubsequenceTrans(a[1..], b[1..], c[1..]); } else { SubsequenceTrans(a, b[1..], c[1..]); SubsequenceSkip(a, c); }
      } else {
        SubsequenceTrans(a, b, c[1..]);
        SubsequenceSkip(a, c);
      }
    }
  }

  /** The value a sequence of writes leaves under a key: the last one written. */
  function Latest<T, K(==)>(xs: seq<T>, id: T -> K, k: K): (r: Option<T>)
    ensures r.None? <==> forall i :: 0 <= i < |xs| ==> id(xs[i]) != k
    ensures r.Some? ==> r.value in xs && id(r.value) == k
  {
    if xs == [] then None
    else if id(xs[|xs| - 1]) == k then Some(xs[|xs| - 1])
    else Latest(xs[..|xs| - 1], id, k)
  }

  lemma {:induction false} PutAllConcat<T, K>(s: seq<T>, id: T -> K, xs: seq<T>, ys: seq<T>)
    ensures PutAll(s, id, xs + ys) == PutAll(PutAll(s, id, xs), id, ys)
    decreases |xs|
  {
    if xs == [] {
      assert xs + ys == ys;
    } else {
      assert (xs + ys)[0] == xs[0] && (xs + ys)[1..] == xs[1..] + ys;
      PutAllConcat(Put(s, id, xs[0]), id, xs[1..], ys);
    }
  }

  /** Writing a batch leaves, under every key, the batch's last value for it, or the old value if it has none. */
  lemma {:induction false} FindPutAll<T, K>(s: seq<T>, id: T -> K, xs: seq<T>, k: K)
    ensures Find(PutAll(s, id, xs), id, k) == if Latest(xs, id, k).Some? then Latest(xs, id, k) else Find(s, id, k)
    decreases |xs|
  {
    if xs != [] {
      var n := |xs| - 1;
      assert xs == xs[..n] + [xs[n]];
      PutAllConcat(s, id, xs[..n], [xs[n]]);
      FindPut(PutAll(s, id, xs[..n]), id, xs[n], k);
      FindPutAll(s, id, xs[..n], k);
    }
  }

  /** Present keys keep their positions under a batch of writes; the rest of the result is new. */
  lemma {:induction false} PutAllShape<T, K>(s: seq<T>, id: T -> K, xs: seq<T>)
    requires UniqueKeys(s, id)
    ensures |s| <= |PutAll(s, id, xs)|
    ensures forall i :: 0 <= i < |s| ==> id(PutAll(s, id, xs)[i]) == id(s[i])
    ensures (forall x :: x in xs ==> HasKey(s, id, id(x))) ==> |PutAll(s, id, xs)| == |s|
    decreases |xs|
  {
    if xs != [] {
      var t := Put(s, id, xs[0]);
      PutShape(s, id, xs[0]);
      PutUnique(s, id, xs[0]);
      PutAllShape(t, id, xs[1..]);
      if forall x :: x in xs ==> HasKey(s, id, id(x)) {
        assert xs[0] in xs;
        forall x | x in xs[1..] ensures HasKey(t, id, id(x)) {
          assert x in xs;
          var i :| 0 <= i < |s| && id(s[i]) == id(x);
          assert id(t[i]) == id(x);
        }
      }
    }
  }

  /** Writes to keys a list does not hold leave the list itself alone: they only append. */
  lemma {:induction false} PutAllAppends<T, K>(s: seq<T>, id: T -> K, xs: seq<T>)
    requires forall x :: x in xs ==> !HasKey(s, id, id(x))
    ensures PutAll(s, id, xs) == s + PutAll([], id, xs)
    decreases |xs|
  {
    if xs == [] {
      assert s + [] == s;
    } else {
      var n := |xs| - 1;
      var x := xs[n];
      assert xs == xs[..n] + [x];
      forall y | y in xs[..n] ensures !HasKey(s, id, id(y)) { assert y in xs; }
      PutAllAppends(s, id, xs[..n]);
      PutAllConcat(s, id, xs[..n], [x]);
      PutAllConcat([], id, xs[..n], [x]);
      assert x in xs;
      PutPastPrefix(s, id, PutAll([], id, xs[..n]), x);
    }
  }

  lemma {:induction false} PutPastPrefix<T, K>(s: seq<T>, id: T -> K, t: seq<T>, x: T)
    requires !HasKey(s, id, id(x))
    ensures Put(s + t, id, x) == s + Put(t, id, x)
  {
    if s == [] {
      assert s + t == t && s + Put(t, id, x) == Put(t, id, x);
    } else {
      HasKeyTail(s, id, id(x));
      assert (s + t)[0] == s[0] && (s + t)[1..] == s[1..] + t;
      PutPastPrefix(s[1..], id, t, x);
      assert [s[0]] + (s[1..] + Put(t, id, x)) == s + Put(t, id, x);
    }
  }
}

/** The stable sort of JavaScript arrays (ECMAScript 2019 and later), as insertion from the right. */
module StableSort {
  import KL = KeyedList

  ghost predicate TotalPreorder<T(!new)>(leq: (T, T) -> bool) {
    && (forall a, b :: leq(a, b) || leq(b, a))
    && (forall a, b, c :: leq(a, b) && leq(b, c) ==> leq(a, c))
  }

  ghost predicate Sorted<T>(s: seq<T>, leq: (T, T) -> bool) {
    forall i, j :: 0 <= i < j < |s| ==> leq(s[i], s[j])
  }

  function Insert<T>(x: T, s: seq<T>, leq: (T, T) -> bool): (r: seq<T>) {
    if s == [] then [x]
    else if leq(x, s[0]) then [x] + s
    else [s[0]] + Insert(x, s[1..], leq)
  }

  function Sort<T>(s: seq<T>, leq: (T, T) -> bool): (r: seq<T>) {
    if s == [] then [] else Insert(s[0], Sort(s[1..], leq), leq)
  }

  lemma {:induction false} InsertPermutes<T>(x: T, s: seq<T>, leq: (T, T) -> bool)
    ensures multiset(Insert(x, s, leq)) == multiset{x} + multiset(s)
  {
    if s != [] {
      assert s == [s[0]] + s[1..];
      if !leq(x, s[0]) { InsertPermutes(x, s[1..], leq); }
    }
  }

  lemma {:induction false} SortPermutes<T>(s: seq<T>, leq: (T, T) -> bool)
    ensures multiset(Sort(s, leq)) == multiset(s)
    ensures |Sort(s, leq)| == |s|
  {
    if s != [] {
      assert s == [s[0]] + s[1..];
      SortPermutes(s[1..], leq);
      InsertPermutes(s[0], Sort(s[1..], leq), leq);
      assert |Sort(s, leq)| == |multiset(Sort(s, leq))|;
    }
  }

  lemma SortMembers<T>(s: seq<T>, leq: (T, T) -> bool)
    ensures forall x :: x in Sort(s, leq) ==> x in s
    ensures forall x :: x in s ==> x in Sort(s, leq)
  {
    SortPermutes(s, leq);
    forall x | x in Sort(s, leq) ensures x in s { assert x in multiset(Sort(s, leq)); }
    forall x | x in s ensures x in Sort(s, leq) { assert x in multiset(s); }
  }

  lemma {:induction false} InsertSorted<T(!new)>(x: T, s: seq<T>, leq: (T, T) -> bool)
    requires TotalPreorder(leq) && Sorted(s, leq)
    ensures Sorted(Insert(x, s, leq), leq)
  {
    if s != [] && !leq(x, s[0]) {
      var t := s[1..];
      InsertSorted(x, t, leq);
      var r := Insert(x, t, leq);
      InsertPermutes(x, t, leq);
      forall j | 0 <= j < |r| ensures leq(s[0], r[j]) {
        assert r[j] in multiset(r);
        if r[j] != x { assert r[j] in t; var m :| 0 <= m < |t| && t[m] == r[j]; assert t[m] == s[m + 1]; }
      }
    }
  }

  lemma {:induction false} SortSorted<T(!new)>(s: seq<T>, leq: (T, T) -> bool)
    requires TotalPreorder(leq)
    ensures Sorted(Sort(s, leq), leq)
  {
    if s != [] {
      SortSorted(s[1..], leq);
      InsertSorted(s[0], Sort(s[1..], leq), leq);
    }
  }

  /** Sorting what already stands sorted before everything else leaves it in place. */
  lemma {:induction false} SortSortedPrefix<T(!new)>(a: seq<T>, b: seq<T>, leq: (T, T) -> bool)
    requires TotalPreorder(leq) && Sorted(a, leq)
    requires forall x, y :: x in a && y in b ==> leq(x, y)
    ensures Sort(a + b, leq) == a + Sort(b, leq)
  {
    if a == [] {
      assert a + b == b && a + Sort(b, leq) == Sort(b, leq);
    } else {
      assert (a + b)[1..] == a[1..] + b;
      TailSorted(a, leq);
      SortSortedPrefix(a[1..], b, leq);
      var s := a[1..] + Sort(b, leq);
      SortMembers(b, leq);
      if s != [] {
        if |a| > 1 { assert s[0] == a[1]; } else { assert s[0] in Sort(b, leq); assert a[0] in a; }
        assert leq(a[0], s[0]);
      }
      assert a + Sort(b, leq) == [a[0]] + s;
    }
  }

  lemma SortOfSorted<T(!new)>(s: seq<T>, leq: (T, T) -> bool)
    requires TotalPreorder(leq) && Sorted(s, leq)
    ensures Sort(s, leq) == s
  {
    SortSortedPrefix(s, [], leq);
    assert s + [] == s;
  }

  /** Merging two sorted lists, the left one first on ties. */
  function Merge<T>(a: seq<T>, b: seq<T>, leq: (T, T) -> bool): (r: seq<T>)
    decreases |a| + |b|
  {
    if a == [] then b
    else if b == [] then a
    else if leq(a[0], b[0]) then [a[0]] + Merge(a[1..], b, leq)
    else [b[0]] + Merge(a, b[1..], leq)
  }

  lemma {:induction false} InsertMerge<T(!new)>(x: T, a: seq<T>, b: seq<T>, leq: (T, T) -> bool)
    requires TotalPreorder(leq) && Sorted(a, leq) && Sorted(b, leq)
    ensures Insert(x, Merge(a, b, leq), leq) == Merge(Insert(x, a, leq), b, leq)
    decreases |a| + |b|
  {
    var m, ins := Merge(a, b, leq), Insert(x, a, leq);
    if b == [] {
    } else if a == [] {
      if !leq(x, b[0]) {
        InsertMerge(x, a, b[1..], leq);
        assert m[1..] == b[1..];
        assert Merge(a, b[1..], leq) == b[1..];
      }
    } else if leq(a[0], b[0]) {
      assert m[0] == a[0] && m[1..] == Merge(a[1..], b, leq);
      if leq(x, a[0]) {
        assert ins[1..] == a;
        assert leq(x, b[0]);
      } else {
        assert ins[0] == a[0] && ins[1..] == Insert(x, a[1..], leq);
        InsertMerge(x, a[1..], b, leq);
      }
    } else {
      assert m[0] == b[0] && m[1..] == Merge(a, b[1..], leq);
      if leq(x, b[0]) {
        assert leq(x, a[0]);
        assert ins[0] == x && ins[1..] == a;
      } else {
        InsertMerge(x, a, b[1..], leq);
        assert ins[0] == if leq(x, a[0]) then x else a[0];
        assert !leq(ins[0], b[0]);
      }
    }
  }

  /** Sorting a concatenation is merging the two sorted halves. */
  lemma {:induction false} SortConcat<T(!new)>(a: seq<T>, b: seq<T>, leq: (T, T) -> bool)
    requires TotalPreorder(leq)
    ensures Sort(a + b, leq) == Merge(Sort(a, leq), Sort(b, leq), leq)
  {
    if a == [] {
      assert a + b == b;
    } else {
      assert (a + b)[0] == a[0] && (a + b)[1..] == a[1..] + b;
      SortConcat(a[1..], b, leq);
      SortSorted(a[1..], leq);
      SortSorted(b, leq);
      InsertMerge(a[0], Sort(a[1..], leq), Sort(b, leq), leq);
    }
  }

  /**
   A stable sort under a preorder is the sort under any order that agrees with it on elements taken in their
   original order, so ties may be read as broken by position.
   */
  lemma {:induction false} SortRefined<T(!new)>(s: seq<T>, leq: (T, T) -> bool, finer: (T, T) -> bool)
    requires forall i, j :: 0 <= i < j < |s| ==> (leq(s[i], s[j]) <==> finer(s[i], s[j]))
    ensures Sort(s, leq) == Sort(s, finer)
  {
    if s != [] {
      var t := s[1..];
      forall i, j | 0 <= i < j < |t| ensures leq(t[i], t[j]) <==> finer(t[i], t[j]) {
        assert t[i] == s[i + 1] && t[j] == s[j + 1];
      }
      SortRefined(t, leq, finer);
      SortMembers(t, leq);
      forall y | y in Sort(t, leq) ensures leq(s[0], y) <==> finer(s[0], y) {
        var j :| 0 <= j < |t| && t[j] == y;
        assert s[j + 1] == y;
      }
      InsertRefined(s[0], Sort(t, leq), leq, finer);
    }
  }

  lemma {:induction false} InsertRefined<T(!new)>(x: T, s: seq<T>, leq: (T, T) -> bool, finer: (T, T) -> bool)
    requires forall y :: y in s ==> (leq(x, y) <==> finer(x, y))
    ensures Insert(x, s, leq) == Insert(x, s, finer)
  {
    if s != [] {
      assert s[0] in s;
      InsertRefined(x, s[1..], leq, finer);
    }
  }

  /** A subsequence of a sorted list is sorted. */
  lemma {:induction false} SubsequenceSorted<T(!new)>(a: seq<T>, b: seq<T>, leq: (T, T) -> bool)
    requires KL.Subsequence(a, b) && Sorted(b, leq)
    ensures Sorted(a, leq)
    decreases |b|
  {
    if a != [] {
      TailSorted(b, leq);
      if a[0] == b[0] {
        SubsequenceSorted(a[1..], b[1..], leq);
        KL.SubsequenceMembers(a[1..], b[1..]);
        forall j | 1 <= j < |a| ensures leq(a[0], a[j]) {
          assert a[1..][j - 1] in b[1..];
          var m :| 0 <= m < |b[1..]| && b[1..][m] == a[j];
          assert b[m + 1] == a[j];
        }
        forall i, j | 0 <= i < j < |a| ensures leq(a[i], a[j]) {
          if i > 0 { assert leq(a[1..][i - 1], a[1..][j - 1]); }
        }
      } else {
        SubsequenceSorted(a, b[1..], leq);
      }
    }
  }

  /** In a sorted list the first element under a key comes before all others under it. */
  lemma {:induction false} FirstIsLeast<T(!new), K>(s: seq<T>, id: T -> K, k: K, leq: (T, T) -> bool)
    requires TotalPreorder(leq) && Sorted(s, leq) && KL.Find(s, id, k).Some?
    ensures forall y :: y in s && id(y) == k ==> leq(KL.Find(s, id, k).value, y)
  {
    if id(s[0]) == k {
      forall y | y in s && id(y) == k ensures leq(s[0], y) {
        assert leq(s[0], s[0]);
        var i :| 0 <= i < |s| && s[i] == y;
      }
    } else {
      TailSorted(s, leq);
      FirstIsLeast(s[1..], id, k, leq);
      assert forall y :: y in s && id(y) == k ==> y in s[1..];
    }
  }

  /** The first n elements, or all of them: JavaScript's slice(0, n) for n at least 0. */
  function Take<T>(s: seq<T>, n: nat): (r: seq<T>) {
    if n <= |s| then s[..n] else s
  }

  /** The first n elements of a merge depend on the first n elements of the left list only. */
  lemma {:induction false} TakeMerge<T>(a: seq<T>, b: seq<T>, n: nat, leq: (T, T) -> bool)
    ensures Take(Merge(Take(a, n), b, leq), n) == Take(Merge(a, b, leq), n)
    decreases |a| + |b|
  {
    if n == 0 || a == [] || b == [] {
    } else if leq(a[0], b[0]) {
      TakeMerge(a[1..], b, n - 1, leq);
      var t := Take(a, n);
      assert t[0] == a[0] && t[1..] == Take(a[1..], n - 1);
      TakeCons(a[0], Merge(t[1..], b, leq), n);
      TakeCons(a[0], Merge(a[1..], b, leq), n);
    } else {
      var t := Take(a, n);
      TakeMerge(t, b[1..], n - 1, leq);
      TakeMerge(a, b[1..], n - 1, leq);
      assert t[0] == a[0] && Take(t, n - 1) == Take(a, n - 1);
      TakeCons(b[0], Merge(t, b[1..], leq), n);
      TakeCons(b[0], Merge(a, b[1..], leq), n);
    }
  }

  lemma TakeCons<T>(x: T, s: seq<T>, n: nat)
    requires n > 0
    ensures Take([x] + s, n) == [x] + Take(s, n - 1)
  {
  }

  /** Cutting to the newest n before adding more loses nothing the final cut would keep. */
  lemma TakeSortConcat<T(!new)>(a: seq<T>, b: seq<T>, n: nat, leq: (T, T) -> bool)
    requires TotalPreorder(leq)
    ensures Take(Sort(Take(Sort(a, leq), n) + b, leq), n) == Take(Sort(a + b, leq), n)
  {
    var s := Take(Sort(a, leq), n);
    SortSorted(a, leq);
    SortOfSorted(s, leq);
    SortConcat(s, b, leq);
    SortConcat(a, b, leq);
    TakeMerge(Sort(a, leq), Sort(b, leq), n, leq);
  }

  lemma TailSorted<T>(s: seq<T>, leq: (T, T) -> bool)
    requires Sorted(s, leq) && s != []
    ensures Sorted(s[1..], leq)
  {
    var t := s[1..];
    forall i, j | 0 <= i < j < |t| ensures leq(t[i], t[j]) { assert t[i] == s[i + 1] && t[j] == s[j + 1]; }
  }

  /** Two lists in strictly ascending order with the same elements are equal. */
  lemma {:induction false} StrictlySortedSame<T(!new)>(a: seq<T>, b: seq<T>, leq: (T, T) -> bool)
    requires Sorted(a, leq) && Sorted(b, leq)
    requires forall i, j :: 0 <= i < j < |a| ==> !leq(a[j], a[i])
    requires forall i, j :: 0 <= i < j < |b| ==> !leq(b[j], b[i])
    requires (forall x :: x in a ==> x in b) && (forall x :: x in b ==> x in a)
    ensures a == b
  {
    if a == [] {
      if b != [] { ElementIn(b, 0); assert false; }
    } else {
      ElementIn(a, 0);
      ElementIn(b, 0);
      var i :| 0 <= i < |b| && b[i] == a[0];
      var j :| 0 <= j < |a| && a[j] == b[0];
      assert i == 0 || j == 0;
      var t, u := a[1..], b[1..];
      forall x | x in t ensures x in u {
        var m :| 0 <= m < |t| && t[m] == x;
        assert a[m + 1] == x && x in a;
        var n :| 0 <= n < |b| && b[n] == x;
        assert !leq(a[m + 1], a[0]);
        assert u[n - 1] == x;
      }
      forall x | x in u ensures x in t {
        var m :| 0 <= m < |u| && u[m] == x;
        assert b[m + 1] == x && x in b;
        var n :| 0 <= n < |a| && a[n] == x;
        assert !leq(b[m + 1], b[0]);
        assert t[n - 1] == x;
      }
      TailSorted(a, leq);
      TailSorted(b, leq);
      TailStrict(a, leq);
      TailStrict(b, leq);
      StrictlySortedSame(t, u, leq);
    }
  }

  lemma ElementIn<T>(s: seq<T>, i: nat)
    requires i < |s|
    ensures s[i] in s
  {
  }

  lemma TailStrict<T>(s: seq<T>, leq: (T, T) -> bool)
    requires s != [] && forall i, j :: 0 <= i < j < |s| ==> !leq(s[j], s[i])
    ensures var t := s[1..]; forall i, j :: 0 <= i < j < |t| ==> !leq(t[j], t[i])
  {
    var t := s[1..];
    forall i, j | 0 <= i < j < |t| ensures !leq(t[j], t[i]) { assert t[i] == s[i + 1] && t[j] == s[j + 1]; }
  }
}
