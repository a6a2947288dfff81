// Two text loops of the completion filter: cutting what is already typed, and finding a class body.

module CompletionText {
  import opened Wrappers
  import opened Texts

  // ---- Cutting what is already typed -----------------------------------------------------------------------------

  /** The last `size` characters before the cursor are the first `size` characters of the completion. */
  predicate Overlaps(prefix: string, completion: string, size: nat) {
    size <= |prefix| && size <= |completion| && prefix[|prefix| - size..] == completion[..size]
  }

  /** A text that ends with the completion once typed, and is no longer than it, is the completion less an overlap. */
  lemma EndingIsOverlap(prefix: string, completion: string, s: string)
    requires |s| <= |completion|
    ensures EndsWith(prefix + s, completion) <==>
      Overlaps(prefix, completion, |completion| - |s|) && s == completion[|completion| - |s|..]
  {
    var size := |completion| - |s|;
    if size <= |prefix| {
      assert (prefix + s)[|prefix| - size..] == prefix[|prefix| - size..] + s;
      assert completion == completion[..size] + completion[size..];
      if prefix[|prefix| - size..] + s == completion {
        assert completion[..size] == prefix[|prefix| - size..];
        assert completion[size..] == s;
      }
    }
  }

  lemma LargestOverlapIsShortest(prefix: string, completion: string, size: nat, result: string)
    requires Overlaps(prefix, completion, size) && result == completion[size..]
    requires forall k: nat :: Overlaps(prefix, completion, k) ==> k <= size
    ensures EndsWith(prefix + result, completion)
    ensures forall s: string :: EndsWith(prefix + s, completion) ==> |result| <= |s|
  {
    EndingIsOverlap(prefix, completion, result);
    forall s: string | EndsWith(prefix + s, completion) ensures |result| <= |s| {
      if |s| <= |completion| { EndingIsOverlap(prefix, completion, s); }
    }
  }

  /**
   The inserted text is the shortest that, typed after the prefix, makes the line end with the whole completion:
   nothing is typed twice and nothing of the completion is lost.
   */
  method StripOverlapWithPrefix(prefix: string, completion: string) returns (result: string)
    ensures EndsWith(prefix + result, completion)
    ensures forall s: string :: EndsWith(prefix + s, completion) ==> |result| <= |s|
  {
    result := completion;
    var size := if |prefix| <= |completion| then |prefix| else |completion|;
    while size > 0
      invariant 0 <= size <= |prefix| && size <= |completion|
      invariant result == completion
      invariant forall k: nat :: Overlaps(prefix, completion, k) ==> k <= size
    {
      var tail := prefix[|prefix| - size..];
      if tail <= result {
        assert Overlaps(prefix, completion, size);
        result := result[size..];
        break;
      }
      assert !Overlaps(prefix, completion, size);
      size := size - 1;
    }
    LargestOverlapIsShortest(prefix, completion, size, result);
  }

  // ---- Finding a class body -----------------------------------------------------------------------------------------

  ghost predicate FirstAt(text: string, pattern: string, start: int, i: int) {
    start <= i && OccursAt(text, pattern, i) && forall j :: start <= j < i ==> !OccursAt(text, pattern, j)
  }

  /** String.indexOf: the first occurrence at or after a position. */
  method IndexOf(text: string, pattern: string, start: nat) returns (r: Option<nat>)
    requires start <= |text|
    ensures r.Some? ==> r.value + |pattern| <= |text| && FirstAt(text, pattern, start, r.value)
    ensures r.None? ==> forall j :: start <= j ==> !OccursAt(text, pattern, j)
  {
    var i := start;
    while i + |pattern| <= |text|
      invariant forall j :: start <= j < i ==> !OccursAt(text, pattern, j)
    {
      if text[i..i + |pattern|] == pattern { return Some(i); }
      i := i + 1;
    }
    r := None;
  }

  /** Opening minus closing braces; every other character counts nothing, wherever it stands. */
  function Depth(s: string): (r: int) {
    if s == [] then 0
    else
      var c := s[|s| - 1];
      Depth(s[..|s| - 1]) + if c == '{' then 1 else if c == '}' then -1 else 0
  }

  /** Every closing brace has its opening brace before it, and every opening brace is closed. */
  ghost predicate BraceBalanced(s: string) {
    Depth(s) == 0 && NeverCloses(s)
  }

  ghost predicate NeverCloses(s: string) {
    forall k :: 0 <= k <= |s| ==> Depth(s[..k]) >= 0
  }

  /** The body of the first declaration of a class: its braces are balanced and the next one closes the class. */
  ghost predicate ClassBody(className: string, text: string, start: int, brace: int, body: string) {
    && FirstAt(text, "class " + className, 0, start)
    && FirstAt(text, "{", start, brace)
    && BraceBalanced(body)
    && body + "}" <= text[brace + 1..]
  }

  /** What scanning n characters of the text after the class's opening brace has found. */
  ghost predicate Scanned(rest: string, n: int, depth: int) {
    && 0 <= n <= |rest|
    && depth == 1 + Depth(rest[..n]) >= 0
    && (depth > 0 ==> NeverCloses(rest[..n]))
    && (depth == 0 ==> n > 0 && rest[n - 1] == '}' && BraceBalanced(rest[..n - 1]))
  }

  lemma ScanStart(rest: string)
    ensures Scanned(rest, 0, 1)
  {
  }

  lemma ScanStep(rest: string, n: int, depth: int)
    requires Scanned(rest, n, depth) && depth > 0 && n < |rest|
    ensures Scanned(rest, n + 1, depth + if rest[n] == '{' then 1 else if rest[n] == '}' then -1 else 0)
  {
    StepDepth(rest, n);
  }

  method ExtractClassBody(className: string, text: string) returns (body: Option<string>)
    ensures body.Some? ==> exists start, brace :: ClassBody(className, text, start, brace, body.value)
    ensures body.None? ==> forall start, brace, b :: !ClassBody(className, text, start, brace, b)
  {
    hide FirstAt, OccursAt, NeverCloses, BraceBalanced, Depth, Scanned;
    var found := IndexOf(text, "class " + className, 0);
    if found.None? {
      NoHeader(className, text);
      return None;
    }
    var start := found.value;
    var open := IndexOf(text, "{", start);
    if open.None? {
      NoBrace(className, text, start);
      return None;
    }
    var brace := open.value;
    ghost var rest := text[brace + 1..];
    var depth, index := 1, brace + 1;
    ScanStart(rest);
    while index < |text| && depth > 0
      invariant brace + 1 <= index <= |text|
      invariant Scanned(rest, index - brace - 1, depth)
    {
      ScanStep(rest, index - brace - 1, depth);
      assert rest[index - brace - 1] == text[index];
      if text[index] == '{' { depth := depth + 1; } else if text[index] == '}' { depth := depth - 1; }
      index := index + 1;
    }
    if depth != 0 {
      NeverClosed(className, text, start, brace, depth);
      return None;
    }
    ClosedBody(className, text, start, brace, index - brace - 1);
    body := Some(text[brace + 1..index - 1]);
  }

  lemma ClosedBody(className: string, text: string, start: nat, brace: nat, n: int)
    requires FirstAt(text, "class " + className, 0, start) && FirstAt(text, "{", start, brace)
    requires Scanned(text[brace + 1..], n, 0)
    ensures n > 0 && ClassBody(className, text, start, brace, text[brace + 1..brace + n])
  {
    var rest, r := text[brace + 1..], text[brace + 1..brace + n];
    assert r == rest[..n - 1];
    assert r + "}" == rest[..n];
  }

  lemma NoHeader(className: string, text: string)
    requires forall j :: 0 <= j ==> !OccursAt(text, "class " + className, j)
    ensures forall s, c, b :: !ClassBody(className, text, s, c, b)
  {
  }

  lemma NoBrace(className: string, text: string, start: nat)
    requires FirstAt(text, "class " + className, 0, start)
    requires forall j :: start <= j ==> !OccursAt(text, "{", j)
    ensures forall s, c, b :: !ClassBody(className, text, s, c, b)
  {
    forall s, c, b ensures !ClassBody(className, text, s, c, b) {
      if ClassBody(className, text, s, c, b) { FirstAtUnique(text, "class " + className, 0, s, start); }
    }
  }

  lemma FirstAtUnique(text: string, pattern: string, start: int, i: int, j: int)
    requires FirstAt(text, pattern, start, i) && FirstAt(text, pattern, start, j)
    ensures i == j
  {
  }

  lemma StepDepth(rest: string, n: nat)
    requires n < |rest|
    ensures Depth(rest[..n + 1]) == Depth(rest[..n]) + if rest[n] == '{' then 1 else if rest[n] == '}' then -1 else 0
    ensures NeverCloses(rest[..n]) && Depth(rest[..n + 1]) >= 0 ==> NeverCloses(rest[..n + 1])
  {
    assert rest[..n + 1][..n] == rest[..n];
    var t := rest[..n + 1];
    assert t[..n + 1] == t;
    forall k | 0 <= k <= n ensures t[..k] == rest[..n][..k] {}
    if NeverCloses(rest[..n]) && Depth(t) >= 0 {
      forall k | 0 <= k <= |t| ensures Depth(t[..k]) >= 0 {
        if k <= n { assert t[..k] == rest[..n][..k]; } else { assert t[..k] == t; }
      }
    }
  }

  /** A balanced body followed by a closing brace takes the depth below zero. */
  lemma ClosedSomewhere(rest: string, b: string)
    requires BraceBalanced(b) && b + "}" <= rest
    ensures !NeverCloses(rest)
  {
    var n := |b|;
    assert rest[..n] == b by { assert (b + "}")[..n] == b; }
    assert (b + "}")[n] == '}';
    StepDepth(rest, n);
    assert Depth(rest[..n + 1]) == -1;
  }

  lemma NeverClosed(className: string, text: string, start: nat, brace: nat, depth: int)
    requires FirstAt(text, "class " + className, 0, start) && FirstAt(text, "{", start, brace)
    requires Scanned(text[brace + 1..], |text| - brace - 1, depth) && depth > 0
    ensures forall s, c, b :: !ClassBody(className, text, s, c, b)
  {
    forall s, c, b ensures !ClassBody(className, text, s, c, b) {
      if ClassBody(className, text, s, c, b) {
        FirstAtUnique(text, "class " + className, 0, s, start);
        FirstAtUnique(text, "{", start, c, brace);
        assert text[brace + 1..][..|text| - brace - 1] == text[brace + 1..];
        ClosedSomewhere(text[brace + 1..], b);
      }
    }
  }

  /** A class has at most one body. */
  lemma ClassBodyUnique(className: string, text: string, s: int, c: int, a: string, t: int, d: int, b: string)
    requires ClassBody(className, text, s, c, a) && ClassBody(className, text, t, d, b)
    ensures a == b
  {
    FirstAtUnique(text, "class " + className, 0, s, t);
    FirstAtUnique(text, "{", s, c, d);
    var rest := text[c + 1..];
    if |a| < |b| { ShorterCloses(rest, a, b); } else if |b| < |a| { ShorterCloses(rest, b, a); }
    assert a == rest[..|a|] && b == rest[..|b|];
  }

  lemma ShorterCloses(rest: string, a: string, b: string)
    requires BraceBalanced(a) && a + "}" <= rest && b + "}" <= rest && |a| < |b|
    ensures !BraceBalanced(b)
  {
    assert b == rest[..|b|] by { assert (b + "}")[..|b|] == b; }
    assert a + "}" <= b by { assert b[..|a| + 1] == rest[..|a| + 1] == a + "}"; }
    ClosedSomewhere(b, a);
  }
}
