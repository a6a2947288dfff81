// Ranking one batch of suggestions: clean, drop repeats, sort, collapse near duplicates, prefer known members, cut.
// The text rules (cleaning, keys, scores, member checks) are parameters; the pipeline around them is the model.

module CompletionFilter {
  import opened Wrappers
  import KL = KeyedList
  import SS = StableSort

  datatype Quality = Quality(included: bool, score: real)
  datatype Ranked = Ranked(text: string, score: real)

  /** The text rules of one call, with the code context and the settings already applied to them. */
  datatype Rules = Rules(
    clean: string -> string,
    memberKey: string -> string,
    quality: string -> Quality,
    nearKey: string -> string,
    afterDot: bool,
    rejectsAfterDot: string -> bool,
    hasSample: bool,
    unknownMember: string -> bool,
    showMultiple: bool)
  {
    function Key(text: string): string { if afterDot then memberKey(text) else text }
    function Near(item: Ranked): string { nearKey(item.text) }
    function Limit(): nat { if showMultiple then 3 else 1 }
    predicate Allowed(item: Ranked) { !afterDot || !rejectsAfterDot(item.text) }
    predicate Known(item: Ranked) { !unknownMember(item.text) }
    function Score(text: string): Ranked { Ranked(text, quality(text).score) }
  }

  function HigherFirst(): (Ranked, Ranked) -> bool { (a: Ranked, b: Ranked) => a.score >= b.score }

  // ---- The pipeline as functions -------------------------------------------------------------------------------

  function Cleaned(raw: seq<string>, rules: Rules): (r: seq<string>) {
    if raw == [] then []
    else
      var text := rules.clean(raw[|raw| - 1]);
      Cleaned(raw[..|raw| - 1], rules) + if text == "" then [] else [text]
  }

  function Firsts(raw: seq<string>, rules: Rules): (r: seq<string>) {
    KL.KeepFirst(Cleaned(raw, rules), (text: string) => rules.Key(text))
  }

  function Included(texts: seq<string>, rules: Rules): (r: seq<Ranked>) {
    if texts == [] then []
    else
      var text := texts[|texts| - 1];
      Included(texts[..|texts| - 1], rules) + if rules.quality(text).included then [rules.Score(text)] else []
  }

  function Candidates(raw: seq<string>, rules: Rules): (r: seq<Ranked>) { Included(Firsts(raw, rules), rules) }

  function Distinct(ranked: seq<Ranked>, rules: Rules): (r: seq<Ranked>) {
    KL.KeepFirst(ranked, (item: Ranked) => rules.Near(item))
  }

  function AllowedOnly(items: seq<Ranked>, rules: Rules): (r: seq<Ranked>) {
    KL.Filter(items, (item: Ranked) => rules.Allowed(item))
  }

  function PreferKnown(items: seq<Ranked>, rules: Rules): (r: seq<Ranked>) {
    if !rules.hasSample || items == [] then items
    else
      var known := KL.Filter(items, (item: Ranked) => rules.Known(item));
      if known != [] then known else items
  }

  /** The list the limit cuts: the suggestions that may be shown, best first. */
  function Pool(raw: seq<string>, rules: Rules): (r: seq<Ranked>) {
    PreferKnown(AllowedOnly(Distinct(SS.Sort(Candidates(raw, rules), HigherFirst()), rules), rules), rules)
  }

  function Result(raw: seq<string>, rules: Rules): (r: seq<Ranked>) { SS.Take(Pool(raw, rules), rules.Limit()) }

  // ---- What the pipeline should keep, without the pipeline -------------------------------------------------------

  /** raw[i] cleans to the non-empty text t, and no earlier suggestion cleans to a text with the same key. */
  ghost predicate Introduces(raw: seq<string>, rules: Rules, i: int, t: string) {
    && 0 <= i < |raw|
    && rules.clean(raw[i]) == t != ""
    && forall j :: 0 <= j < i ==> !HasKeyText(rules, raw[j], rules.Key(t))
  }

  ghost predicate HasKeyText(rules: Rules, item: string, k: string) {
    rules.clean(item) != "" && rules.Key(rules.clean(item)) == k
  }

  function Position(items: seq<Ranked>, x: Ranked): (r: nat) {
    if items == [] || items[0] == x then 0 else 1 + Position(items[1..], x)
  }

  /** x ranks no later than y: a higher score, or the same score and no later in the batch. */
  predicate Before(items: seq<Ranked>, x: Ranked, y: Ranked) {
    x.score > y.score || (x.score == y.score && Position(items, x) <= Position(items, y))
  }

  /** x ranks first among its near duplicates. */
  ghost predicate Representative(items: seq<Ranked>, rules: Rules, x: Ranked) {
    x in items && forall y :: y in items && rules.Near(y) == rules.Near(x) ==> Before(items, x, y)
  }

  ghost predicate Survives(items: seq<Ranked>, rules: Rules, x: Ranked) {
    Representative(items, rules, x) && rules.Allowed(x)
  }

  ghost predicate SomeKnown(items: seq<Ranked>, rules: Rules) {
    exists x :: Survives(items, rules, x) && rules.Known(x)
  }

  /** The survivors the answer is chosen from: the known members, or all of them when none is known. */
  ghost predicate Eligible(items: seq<Ranked>, rules: Rules, x: Ranked) {
    Survives(items, rules, x) && (rules.hasSample && SomeKnown(items, rules) ==> rules.Known(x))
  }

  // ---- Candidates ------------------------------------------------------------------------------------------------

  function FirstOf(raw: seq<string>, rules: Rules, k: string): (r: Option<string>) {
    KL.Find(Cleaned(raw, rules), (text: string) => rules.Key(text), k)
  }

  lemma FirstOfAppend(raw: seq<string>, rules: Rules, k: string)
    requires raw != []
    ensures var n := |raw| - 1;
      FirstOf(raw, rules, k) ==
        if FirstOf(raw[..n], rules, k).Some? then FirstOf(raw[..n], rules, k)
        else if HasKeyText(rules, raw[n], k) then Some(rules.clean(raw[n]))
        else None
  {
    var n := |raw| - 1;
    var t, rest := rules.clean(raw[n]), Cleaned(raw[..n], rules);
    if t != "" {
      KL.FindAppend(rest, (text: string) => rules.Key(text), t, k);
      assert Cleaned(raw, rules) == rest + [t];
    } else {
      assert Cleaned(raw, rules) == rest;
    }
  }

  lemma FirstOfNothing(rules: Rules, k: string)
    ensures FirstOf([], rules, k) == None
  {
  }

  lemma StillIntroduces(raw: seq<string>, rules: Rules, i: int, t: string)
    requires raw != [] && Introduces(raw[..|raw| - 1], rules, i, t)
    ensures Introduces(raw, rules, i, t)
  {
    hide HasKeyText;
  }

  lemma LastIntroduces(init: seq<string>, item: string, rules: Rules, k: string)
    requires HasKeyText(rules, item, k)
    requires forall j :: 0 <= j < |init| ==> !HasKeyText(rules, init[j], k)
    ensures var t := rules.clean(item); rules.Key(t) == k && Introduces(init + [item], rules, |init|, t)
  {
  }

  /** The first text of a key is the one some suggestion introduces, if any cleans to that key. */
  lemma {:induction false} FirstOfExact(raw: seq<string>, rules: Rules, k: string) returns (i: int)
    ensures FirstOf(raw, rules, k).None? ==> forall j :: 0 <= j < |raw| ==> !HasKeyText(rules, raw[j], k)
    ensures FirstOf(raw, rules, k).Some? ==>
      rules.Key(FirstOf(raw, rules, k).value) == k && Introduces(raw, rules, i, FirstOf(raw, rules, k).value)
  {
    hide FirstOf, HasKeyText, Introduces;
    i := 0;
    if raw == [] {
      FirstOfNothing(rules, k);
    } else {
      var n := |raw| - 1;
      i := FirstOfExact(raw[..n], rules, k);
      FirstOfAppend(raw, rules, k);
      if FirstOf(raw[..n], rules, k).Some? {
        StillIntroduces(raw, rules, i, FirstOf(raw, rules, k).value);
      } else {
        i := n;
        assert raw == raw[..n] + [raw[n]];
        if HasKeyText(rules, raw[n], k) { LastIntroduces(raw[..n], raw[n], rules, k); }
      }
    }
  }

  lemma {:induction false} IncludedExact(texts: seq<string>, rules: Rules)
    requires KL.UniqueKeys(texts, (text: string) => rules.Key(text))
    ensures forall x :: x in Included(texts, rules) <==> x.text in texts && rules.quality(x.text) == Quality(true, x.score)
    ensures KL.UniqueKeys(Included(texts, rules), (x: Ranked) => rules.Key(x.text))
  {
    if texts != [] {
      var n := |texts| - 1;
      var t := texts[n];
      assert texts == texts[..n] + [t];
      assert KL.UniqueKeys(texts[..n], (text: string) => rules.Key(text));
      IncludedExact(texts[..n], rules);
      var r := Included(texts[..n], rules);
      forall i | 0 <= i < |r| ensures rules.Key(r[i].text) != rules.Key(t) {
        assert r[i] in r;
        var j :| 0 <= j < n && texts[..n][j] == r[i].text;
        assert texts[j] == r[i].text;
      }
    }
  }

  lemma FirstIsIntroduced(raw: seq<string>, rules: Rules, t: string)
    requires t in Firsts(raw, rules)
    ensures exists i :: Introduces(raw, rules, i, t)
  {
    var key := (text: string) => rules.Key(text);
    var cleaned, firsts := Cleaned(raw, rules), Firsts(raw, rules);
    hide Cleaned, Introduces, HasKeyText;
    KL.KeepFirstFinds(cleaned, key);
    KL.FindIn(firsts, key, t);
    assert KL.Find(firsts, key, key(t)) == KL.Find(cleaned, key, key(t));
    assert FirstOf(raw, rules, rules.Key(t)) == Some(t);
    hide FirstOf, Firsts;
    var i := FirstOfExact(raw, rules, rules.Key(t));
  }

  lemma IntroducedIsFirst(raw: seq<string>, rules: Rules, i: int, t: string)
    requires Introduces(raw, rules, i, t)
    ensures t in Firsts(raw, rules)
  {
    var k := rules.Key(t);
    IntroducedIsFirstOf(raw, rules, i, t);
    var key := (text: string) => rules.Key(text);
    var cleaned, firsts := Cleaned(raw, rules), Firsts(raw, rules);
    hide Cleaned, Introduces, HasKeyText;
    KL.KeepFirstFinds(cleaned, key);
    assert KL.Find(firsts, key, k) == KL.Find(cleaned, key, k) == FirstOf(raw, rules, k);
  }

  lemma IntroducedIsFirstOf(raw: seq<string>, rules: Rules, i: int, t: string)
    requires Introduces(raw, rules, i, t)
    ensures FirstOf(raw, rules, rules.Key(t)) == Some(t)
  {
    hide FirstOf, Cleaned;
    var k := rules.Key(t);
    var j := FirstOfExact(raw, rules, k);
    assert HasKeyText(rules, raw[i], k);
    assert HasKeyText(rules, raw[j], k);
    assert i <= j && j <= i;
  }

  lemma FirstsExact(raw: seq<string>, rules: Rules)
    ensures forall t :: t in Firsts(raw, rules) <==> exists i :: Introduces(raw, rules, i, t)
    ensures KL.UniqueKeys(Firsts(raw, rules), (text: string) => rules.Key(text))
  {
    KL.KeepFirstFinds(Cleaned(raw, rules), (text: string) => rules.Key(text));
    hide Cleaned, Introduces;
    forall t | t in Firsts(raw, rules) ensures exists i :: Introduces(raw, rules, i, t) { FirstIsIntroduced(raw, rules, t); }
    forall t, i | Introduces(raw, rules, i, t) ensures t in Firsts(raw, rules) { IntroducedIsFirst(raw, rules, i, t); }
  }

  /**
   The candidates are exactly the acceptable suggestions that are the first of their key: a later suggestion of a
   key counts for nothing, even when the first was rejected. No two candidates share a key.
   */
  lemma CandidatesExact(raw: seq<string>, rules: Rules)
    ensures forall x :: x in Candidates(raw, rules) <==>
      (exists i :: Introduces(raw, rules, i, x.text)) && rules.quality(x.text) == Quality(true, x.score)
    ensures KL.UniqueKeys(Candidates(raw, rules), (x: Ranked) => rules.Key(x.text))
  {
    FirstsExact(raw, rules);
    IncludedExact(Firsts(raw, rules), rules);
  }

  // ---- The answer -------------------------------------------------------------------------------------------------

  lemma {:induction false} PositionOf(items: seq<Ranked>, i: nat)
    requires i < |items| && forall j :: 0 <= j < i ==> items[j] != items[i]
    ensures Position(items, items[i]) == i
  {
    if i > 0 {
      assert items[0] != items[i];
      assert forall j :: 0 <= j < i - 1 ==> items[1..][j] == items[j + 1];
      PositionOf(items[1..], i - 1);
    }
  }

  lemma BeforeOrders(items: seq<Ranked>)
    ensures SS.TotalPreorder((x, y) => Before(items, x, y))
  {
  }

  /** The stable sort by score ranks ties by their place in the batch. */
  lemma SortRanks(items: seq<Ranked>)
    requires forall i, j :: 0 <= i < j < |items| ==> items[i] != items[j]
    ensures SS.Sort(items, HigherFirst()) == SS.Sort(items, (x, y) => Before(items, x, y))
    ensures SS.Sorted(SS.Sort(items, HigherFirst()), (x, y) => Before(items, x, y))
  {
    var finer := (x, y) => Before(items, x, y);
    forall i, j | 0 <= i < j < |items| ensures HigherFirst()(items[i], items[j]) <==> finer(items[i], items[j]) {
      PositionOf(items, i);
      PositionOf(items, j);
    }
    SS.SortRefined(items, HigherFirst(), finer);
    BeforeOrders(items);
    SS.SortSorted(items, finer);
  }

  /** Collapsing the sorted list keeps, of each near-duplicate class, the member that ranks first. */
  lemma DistinctExact(items: seq<Ranked>, rules: Rules)
    requires forall i, j :: 0 <= i < j < |items| ==> items[i] != items[j]
    ensures var r := Distinct(SS.Sort(items, HigherFirst()), rules);
      && (forall x :: x in r <==> Representative(items, rules, x))
      && SS.Sorted(r, (x, y) => Before(items, x, y))
      && KL.UniqueKeys(r, (x: Ranked) => rules.Near(x))
  {
    var near := (x: Ranked) => rules.Near(x);
    var before := (x, y) => Before(items, x, y);
    var sorted := SS.Sort(items, HigherFirst());
    var r := Distinct(sorted, rules);
    SortRanks(items);
    SS.SortMembers(items, HigherFirst());
    BeforeOrders(items);
    KL.KeepFirstFinds(sorted, near);
    SS.SubsequenceSorted(r, sorted, before);
    forall x | x in r ensures Representative(items, rules, x) {
      KL.FindIn(r, near, x);
      SS.FirstIsLeast(sorted, near, rules.Near(x), before);
    }
    forall x | Representative(items, rules, x) ensures x in r {
      assert x in sorted;
      var i :| 0 <= i < |sorted| && sorted[i] == x;
      assert KL.HasKey(sorted, near, near(x)) by { assert near(sorted[i]) == near(x); }
      var y := KL.Find(sorted, near, near(x)).value;
      SS.FirstIsLeast(sorted, near, rules.Near(x), before);
      assert Before(items, x, y) && Before(items, y, x);
      SamePosition(items, x, y);
      assert KL.Find(r, near, near(x)) == Some(y);
    }
  }

  lemma {:induction false} SamePosition(items: seq<Ranked>, x: Ranked, y: Ranked)
    requires x in items && y in items && Position(items, x) == Position(items, y)
    ensures x == y
  {
    if items[0] != x && items[0] != y { SamePosition(items[1..], x, y); }
  }

  lemma CandidatesDiffer(raw: seq<string>, rules: Rules)
    ensures var items := Candidates(raw, rules); forall i, j :: 0 <= i < j < |items| ==> items[i] != items[j]
  {
    CandidatesExact(raw, rules);
    var items, key := Candidates(raw, rules), (x: Ranked) => rules.Key(x.text);
    forall i, j | 0 <= i < j < |items| ensures items[i] != items[j] { assert key(items[i]) != key(items[j]); }
  }

  lemma PoolExact(raw: seq<string>, rules: Rules)
    ensures var items, r := Candidates(raw, rules), Pool(raw, rules);
      && (forall x :: x in r <==> Eligible(items, rules, x))
      && SS.Sorted(r, (x, y) => Before(items, x, y))
      && KL.UniqueKeys(r, (x: Ranked) => rules.Near(x))
      && (r == [] <==> !exists x :: Survives(items, rules, x))
  {
    var items := Candidates(raw, rules);
    var distinct := Distinct(SS.Sort(items, HigherFirst()), rules);
    var allowed := AllowedOnly(distinct, rules);
    CandidatesDiffer(raw, rules);
    DistinctExact(items, rules);
    KL.FilterMembers(distinct, (x: Ranked) => rules.Allowed(x));
    KL.FilterMembers(allowed, (x: Ranked) => rules.Known(x));
    assert forall x :: x in allowed <==> Survives(items, rules, x);
    var known := KL.Filter(allowed, (x: Ranked) => rules.Known(x));
    assert forall x :: x in known <==> Survives(items, rules, x) && rules.Known(x);
    assert SomeKnown(items, rules) <==> known != [] by { if known != [] { assert known[0] in known; } }
    assert allowed != [] ==> allowed[0] in allowed;
    KL.SubsequenceTrans(known, allowed, distinct);
    var r := Pool(raw, rules);
    assert r == known || r == allowed;
    SS.SubsequenceSorted(r, distinct, (x, y) => Before(items, x, y));
    KL.SubsequenceUnique(r, distinct, (x: Ranked) => rules.Near(x));
  }

  /**
   The answer for a batch: at most the limit of suggestions, in rank order, none standing for the same class as
   another, each eligible; an eligible suggestion is left out only when the answer is full of better-ranked ones;
   and the answer is empty only when no candidate survives.
   */
  lemma AnswerExact(raw: seq<string>, rules: Rules)
    ensures var items, r := Candidates(raw, rules), Result(raw, rules);
      && |r| <= (if rules.showMultiple then 3 else 1)
      && SS.Sorted(r, (x, y) => Before(items, x, y))
      && KL.UniqueKeys(r, (x: Ranked) => rules.Near(x))
      && (forall x :: x in r ==> Eligible(items, rules, x))
      && (forall x, y :: Eligible(items, rules, y) && y !in r && x in r ==> Before(items, x, y))
      && (forall y :: Eligible(items, rules, y) && y !in r ==> |r| == if rules.showMultiple then 3 else 1)
      && (r == [] <==> !exists x :: Survives(items, rules, x))
  {
    hide Candidates, Pool, Eligible, Survives, Before;
    PoolExact(raw, rules);
    var items, pool, r := Candidates(raw, rules), Pool(raw, rules), Result(raw, rules);
    forall x | x in r ensures Eligible(items, rules, x) { assert x in pool; }
    assert forall k :: 0 <= k < |r| ==> pool[k] == r[k] && pool[k] in r;
    forall x, y | Eligible(items, rules, y) && y !in r && x in r ensures Before(items, x, y) {
      var i :| 0 <= i < |r| && r[i] == x;
      var j :| 0 <= j < |pool| && pool[j] == y;
    }
  }

  /** The head of the answer is a known member when one survives, and it outranks every other eligible suggestion. */
  lemma HeadIsBest(raw: seq<string>, rules: Rules)
    requires Result(raw, rules) != []
    ensures var items, x := Candidates(raw, rules), Result(raw, rules)[0];
      && Survives(items, rules, x)
      && (rules.hasSample && SomeKnown(items, rules) ==> rules.Known(x))
      && (forall y :: Eligible(items, rules, y) && y != x ==>
            x.score > y.score || (x.score == y.score && Position(items, x) < Position(items, y)))
  {
    AnswerExact(raw, rules);
    var items, r := Candidates(raw, rules), Result(raw, rules);
    hide Candidates, Result;
    var x := r[0];
    assert Eligible(items, rules, x) by { assert r[0] in r; }
    forall y | Eligible(items, rules, y) && y != x
      ensures x.score > y.score || (x.score == y.score && Position(items, x) < Position(items, y))
    {
      assert Before(items, x, y) by {
        if y in r { var j :| 0 <= j < |r| && r[j] == y; }
      }
      assert x in items && y in items;
      if Position(items, x) == Position(items, y) { SamePosition(items, x, y); assert false; }
    }
  }

  /** No two shown suggestions share a dedupe key, and each one is the cleaned form of some raw suggestion. */
  lemma AnswerIsFromBatch(raw: seq<string>, rules: Rules)
    ensures var r := Result(raw, rules);
      && KL.UniqueKeys(r, (x: Ranked) => rules.Key(x.text))
      && (forall x :: x in r ==> x.text != "" && exists i :: 0 <= i < |raw| && rules.clean(raw[i]) == x.text)
      && (forall x :: x in r ==> rules.quality(x.text) == Quality(true, x.score) && rules.Allowed(x))
  {
    AnswerExact(raw, rules);
    CandidatesExact(raw, rules);
    var items, r, key := Candidates(raw, rules), Result(raw, rules), (x: Ranked) => rules.Key(x.text);
    hide Candidates, Result;
    forall x | x in r ensures x in items && rules.Allowed(x) { assert Eligible(items, rules, x); }
    forall x | x in r ensures x.text != "" && exists i :: 0 <= i < |raw| && rules.clean(raw[i]) == x.text {
      var i :| Introduces(raw, rules, i, x.text);
    }
    forall i, j | 0 <= i < j < |r| ensures key(r[i]) != key(r[j]) {
      assert r[i] in r && r[j] in r;
      var near := (x: Ranked) => rules.Near(x);
      assert near(r[i]) != near(r[j]);
      if key(r[i]) == key(r[j]) { KL.FindIn(items, key, r[i]); KL.FindIn(items, key, r[j]); }
    }
  }

  /**
   The answer in terms of the rules themselves: scores do not rise; no two texts, near-duplicate keys or, after a dot,
   members are the same; nothing the after-dot rule rejects is shown; and a known member is never shown beside an
   unknown one.
   */
  lemma AnswerMeans(raw: seq<string>, rules: Rules)
    ensures var r := Result(raw, rules);
      && (forall i, j :: 0 <= i < j < |r| ==>
            && r[i].score >= r[j].score && r[i].text != r[j].text
            && rules.nearKey(r[i].text) != rules.nearKey(r[j].text)
            && (rules.afterDot ==> rules.memberKey(r[i].text) != rules.memberKey(r[j].text)))
      && (rules.afterDot ==> forall x :: x in r ==> !rules.rejectsAfterDot(x.text))
      && (rules.hasSample ==> forall x, y :: x in r && y in r && !rules.unknownMember(x.text) ==> !rules.unknownMember(y.text))
  {
    AnswerExact(raw, rules);
    AnswerIsFromBatch(raw, rules);
    var items, r := Candidates(raw, rules), Result(raw, rules);
    hide Candidates, Result;
    var key, near := (x: Ranked) => rules.Key(x.text), (x: Ranked) => rules.Near(x);
    forall i, j | 0 <= i < j < |r|
      ensures r[i].score >= r[j].score && rules.Key(r[i].text) != rules.Key(r[j].text) && rules.Near(r[i]) != rules.Near(r[j])
    {
      assert Before(items, r[i], r[j]);
      assert key(r[i]) != key(r[j]) && near(r[i]) != near(r[j]);
    }
    forall x, y | rules.hasSample && x in r && y in r && !rules.unknownMember(x.text) ensures !rules.unknownMember(y.text) {
      assert Eligible(items, rules, x) && Eligible(items, rules, y);
      assert Survives(items, rules, x) && rules.Known(x);
    }
  }

  /** A suggestion stands for its near-duplicate class when none of the class scores higher or, scoring the same, comes earlier. */
  lemma SurvivesMeans(items: seq<Ranked>, rules: Rules, x: Ranked)
    ensures Survives(items, rules, x) <==>
      && x in items
      && (rules.afterDot ==> !rules.rejectsAfterDot(x.text))
      && forall y :: y in items && rules.nearKey(y.text) == rules.nearKey(x.text) ==>
           y.score < x.score || (y.score == x.score && Position(items, x) <= Position(items, y))
  {
    assert forall y :: rules.Near(y) == rules.nearKey(y.text);
  }

  // ---- What one key's first suggestion hides -----------------------------------------------------------------------

  /** Away from a dot, texts are their own keys, so every acceptable suggestion is a candidate. */
  lemma NothingHiddenAwayFromDot(raw: seq<string>, rules: Rules, i: nat)
    requires !rules.afterDot && i < |raw| && rules.clean(raw[i]) != "" && rules.quality(rules.clean(raw[i])).included
    ensures rules.Score(rules.clean(raw[i])) in Candidates(raw, rules)
  {
    CandidatesExact(raw, rules);
    var t := rules.clean(raw[i]);
    var j := FirstOfExact(raw, rules, rules.Key(t));
    assert HasKeyText(rules, raw[i], rules.Key(t));
    assert Introduces(raw, rules, j, t);
  }

  /** An acceptable suggestion is a candidate when no earlier one cleans to its text or, after a dot, to its member. */
  lemma FirstIsCandidate(raw: seq<string>, rules: Rules, i: nat)
    requires i < |raw| && rules.clean(raw[i]) != "" && rules.quality(rules.clean(raw[i])).included
    requires forall j :: 0 <= j < i && rules.clean(raw[j]) != "" ==>
      if rules.afterDot then rules.memberKey(rules.clean(raw[j])) != rules.memberKey(rules.clean(raw[i]))
      else rules.clean(raw[j]) != rules.clean(raw[i])
    ensures Ranked(rules.clean(raw[i]), rules.quality(rules.clean(raw[i])).score) in Candidates(raw, rules)
  {
    CandidatesExact(raw, rules);
    assert Introduces(raw, rules, i, rules.clean(raw[i]));
  }

  /** A key has a candidate exactly when its first suggestion is acceptable. */
  lemma KeyHasCandidate(raw: seq<string>, rules: Rules, i: int, t: string)
    requires Introduces(raw, rules, i, t)
    ensures (exists x :: x in Candidates(raw, rules) && rules.Key(x.text) == rules.Key(t)) <==> rules.quality(t).included
  {
    CandidatesExact(raw, rules);
    assert HasKeyText(rules, raw[i], rules.Key(t));
    if rules.quality(t).included { assert rules.Score(t) in Candidates(raw, rules); }
    forall x | x in Candidates(raw, rules) && rules.Key(x.text) == rules.Key(t) ensures x.text == t {
      var j :| Introduces(raw, rules, j, x.text);
      assert HasKeyText(rules, raw[j], rules.Key(t));
      assert i <= j && j <= i;
    }
  }

  /** When the first suggestion of a key is unacceptable, no suggestion of that key is shown, however good. */
  lemma RejectedFirstHidesMember(raw: seq<string>, rules: Rules, i: int, t: string)
    requires Introduces(raw, rules, i, t) && !rules.quality(t).included
    ensures forall x :: x in Result(raw, rules) ==> rules.Key(x.text) != rules.Key(t)
  {
    KeyHasCandidate(raw, rules, i, t);
    AnswerExact(raw, rules);
    hide Result, Candidates;
    forall x | x in Result(raw, rules) ensures x in Candidates(raw, rules) {
      assert Eligible(Candidates(raw, rules), rules, x);
    }
  }

  // ---- The loops ---------------------------------------------------------------------------------------------------

  method FilterAndRank(raw: seq<string>, rules: Rules) returns (r: seq<Ranked>)
    ensures r == Result(raw, rules)
  {
    var key := (text: string) => rules.Key(text);
    var seen: set<string> := {};
    var ranked: seq<Ranked> := [];
    ghost var firsts: seq<string> := [];
    for i := 0 to |raw|
      invariant firsts == Firsts(raw[..i], rules)
      invariant forall k :: k in seen <==> KL.HasKey(firsts, key, k)
      invariant ranked == Included(firsts, rules)
    {
      assert raw[..i + 1][..i] == raw[..i];
      var text := rules.clean(raw[i]);
      if text == "" {
        assert Cleaned(raw[..i + 1], rules) == Cleaned(raw[..i], rules);
        continue;
      }
      assert Cleaned(raw[..i + 1], rules) == Cleaned(raw[..i], rules) + [text];
      if key(text) in seen { continue; }
      seen := seen + {key(text)};
      KL.HasKeyAppend(firsts, key, text);
      firsts := firsts + [text];
      var quality := rules.quality(text);
      if !quality.included { continue; }
      ranked := ranked + [Ranked(text, quality.score)];
    }
    assert raw[..|raw|] == raw;
    var distinct := CollapseNearDuplicates(SS.Sort(ranked, HigherFirst()), rules);
    r := SS.Take(PreferKnown(AllowedOnly(distinct, rules), rules), rules.Limit());
  }

  method CollapseNearDuplicates(ranked: seq<Ranked>, rules: Rules) returns (distinct: seq<Ranked>)
    ensures distinct == Distinct(ranked, rules)
  {
    var near := (x: Ranked) => rules.Near(x);
    var seen: set<string> := {};
    distinct := [];
    for i := 0 to |ranked|
      invariant distinct == KL.KeepFirst(ranked[..i], near)
      invariant forall k :: k in seen <==> KL.HasKey(distinct, near, k)
    {
      assert ranked[..i + 1][..i] == ranked[..i];
      var item := ranked[i];
      if near(item) in seen { continue; }
      seen := seen + {near(item)};
      KL.HasKeyAppend(distinct, near, item);
      distinct := distinct + [item];
    }
    assert ranked[..|ranked|] == ranked;
  }
}
