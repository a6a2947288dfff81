/**
 The bracket check and the lexical scan of the completion context (hasUnbalancedBrackets and scanLexicalState of
 src/autocomplete/contextAnalyzer.ts).
 */
module Brackets {
  import opened Wrappers
  import opened Texts

  predicate IsQuote(c: char) { c == '"' || c == '\'' || c == '`' }
  predicate IsOpen(c: char) { c == '(' || c == '[' || c == '{' }
  predicate IsClose(c: char) { c == ')' || c == ']' || c == '}' }

  function Closing(c: char): char { if c == '(' then ')' else if c == '[' then ']' else '}' }

  // ---- What the scanner sees --------------------------------------------------------------------------------------

  /** One character of the scan: which quote, if any, is open after it. */
  function AfterChar(text: string, i: nat, quote: Option<char>): Option<char>
    requires i < |text|
  {
    match quote
    case Some(q) => if text[i] == q && (i == 0 || text[i - 1] != '\\') then None else quote
    case None => if IsQuote(text[i]) then Some(text[i]) else None
  }

  /** The brackets from position i on that stand outside quoted regions, as the scanner delimits them. */
  function Visible(text: string, i: nat, quote: Option<char>): string
    requires i <= |text|
    decreases |text| - i
  {
    if i == |text| then ""
    else
      var rest := Visible(text, i + 1, AfterChar(text, i, quote));
      if quote.None? && (IsOpen(text[i]) || IsClose(text[i])) then [text[i]] + rest else rest
  }

  // ---- The stack machine and the grammar --------------------------------------------------------------------------

  /** The stack left after a word of brackets; None once a closing bracket does not match. */
  function Run(stack: seq<char>, word: string): Option<seq<char>>
    decreases |word|
  {
    if word == "" then Some(stack)
    else if IsOpen(word[0]) then Run(stack + [word[0]], word[1..])
    else if stack != [] && word[0] == Closing(stack[|stack| - 1]) then Run(stack[..|stack| - 1], word[1..])
    else None
  }

  // A derivation of the Dyck grammar of three bracket kinds: empty, or a nested word followed by a word.
  datatype Derivation = Empty | Nest(open: char, inner: Derivation, rest: Derivation)

  ghost predicate Proper(d: Derivation) {
    d.Nest? ==> IsOpen(d.open) && Proper(d.inner) && Proper(d.rest)
  }

  function Yield(d: Derivation): string {
    match d
    case Empty => ""
    case Nest(c, inner, rest) => [c] + Yield(inner) + [Closing(c)] + Yield(rest)
  }

  ghost predicate Dyck(word: string) { exists d :: Proper(d) && Yield(d) == word }

  lemma Shuffle(c: char, a: string, e: char, b: string, r: string)
    ensures ([c] + a + [e] + b) + r == [c] + (a + ([e] + (b + r)))
  {
  }

  lemma RunOpen(stack: seq<char>, c: char, word: string)
    requires IsOpen(c)
    ensures Run(stack, [c] + word) == Run(stack + [c], word)
  {
    assert ([c] + word)[1..] == word;
  }

  lemma RunClose(stack: seq<char>, c: char, word: string)
    requires IsOpen(c)
    ensures Run(stack + [c], [Closing(c)] + word) == Run(stack, word)
  {
    assert ([Closing(c)] + word)[1..] == word && (stack + [c])[..|stack|] == stack;
  }

  /** A derived word leaves the stack as it found it. */
  lemma {:induction false} DerivedWordRuns(d: Derivation, stack: seq<char>, more: string)
    requires Proper(d)
    ensures Run(stack, Yield(d) + more) == Run(stack, more)
    decreases d
  {
    match d
    case Empty => assert "" + more == more;
    case Nest(c, inner, rest) =>
      var last := Yield(rest) + more;
      var after := [Closing(c)] + last;
      Shuffle(c, Yield(inner), Closing(c), Yield(rest), more);
      RunOpen(stack, c, Yield(inner) + after);
      DerivedWordRuns(inner, stack + [c], after);
      RunClose(stack, c, last);
      DerivedWordRuns(rest, stack, more);
  }

  /** The word that closes every bracket on the stack, with a derived word before each closing bracket and at the end. */
  function Assemble(stack: seq<char>, ds: seq<Derivation>): string
    requires |ds| == |stack| + 1
    decreases |stack|
  {
    Yield(ds[0]) + if stack == [] then "" else [Closing(stack[|stack| - 1])] + Assemble(stack[..|stack| - 1], ds[1..])
  }

  /** A word that empties the stack splits into derived words between the closing brackets the stack asks for. */
  lemma {:induction false} EmptyingWordDerives(stack: seq<char>, word: string) returns (ds: seq<Derivation>)
    requires forall i :: 0 <= i < |stack| ==> IsOpen(stack[i])
    requires Run(stack, word) == Some([])
    ensures |ds| == |stack| + 1 && (forall i :: 0 <= i < |ds| ==> Proper(ds[i])) && Assemble(stack, ds) == word
    decreases |word|
  {
    if word == "" {
      ds := [Empty];
    } else if IsOpen(word[0]) {
      var c := word[0];
      var inner := EmptyingWordDerives(stack + [c], word[1..]);
      ds := [Nest(c, inner[0], inner[1])] + inner[2..];
      NestAssembles(stack, c, inner);
      assert word == [c] + word[1..];
    } else {
      var top := |stack| - 1;
      var rest := EmptyingWordDerives(stack[..top], word[1..]);
      ds := [Empty] + rest;
      assert ds[1..] == rest;
      assert word == [word[0]] + word[1..];
    }
  }

  lemma NestAssembles(stack: seq<char>, c: char, inner: seq<Derivation>)
    requires |inner| == |stack| + 2
    ensures Assemble(stack, [Nest(c, inner[0], inner[1])] + inner[2..]) == [c] + Assemble(stack + [c], inner)
  {
    var ds := [Nest(c, inner[0], inner[1])] + inner[2..];
    assert ds[1..] == inner[2..] == inner[1..][1..] && inner[1..][0] == inner[1];
    var r := if stack == [] then "" else [Closing(stack[|stack| - 1])] + Assemble(stack[..|stack| - 1], inner[2..]);
    Shuffle(c, Yield(inner[0]), Closing(c), Yield(inner[1]), r);
    PopOne(stack, c, inner);
  }

  lemma PopOne(stack: seq<char>, c: char, inner: seq<Derivation>)
    requires |inner| == |stack| + 2
    ensures Assemble(stack + [c], inner) == Yield(inner[0]) + ([Closing(c)] + Assemble(stack, inner[1..]))
  {
    assert (stack + [c])[..|stack|] == stack;
  }

  /** The machine accepts exactly the words of the Dyck grammar. */
  lemma RunAcceptsDyck(word: string)
    ensures Run([], word) == Some([]) <==> Dyck(word)
  {
    if Run([], word) == Some([]) {
      var ds := EmptyingWordDerives([], word);
      assert Proper(ds[0]) && Yield(ds[0]) == word;
    }
    if Dyck(word) {
      var d :| Proper(d) && Yield(d) == word;
      DerivedWordRuns(d, [], "");
      assert word + "" == word;
    }
  }

  /**
   The check answers false exactly for texts whose brackets outside quoted regions form a word of the three-bracket
   Dyck grammar.
   */
  method HasUnbalancedBrackets(text: string) returns (unbalanced: bool)
    ensures unbalanced <==> !Dyck(Visible(text, 0, None))
  {
    RunAcceptsDyck(Visible(text, 0, None));
    hide Dyck;
    var stack: seq<char> := [];
    var inString, quote := false, '"';
    for i := 0 to |text|
      invariant Run(stack, Visible(text, i, if inString then Some(quote) else None)) == Run([], Visible(text, 0, None))
      invariant forall k :: 0 <= k < |stack| ==> IsOpen(stack[k])
    {
      var ch := text[i];
      if inString {
        if ch == quote && (i == 0 || text[i - 1] != '\\') { inString := false; }
        continue;
      }
      if ch == '"' || ch == '\'' || ch == '`' {
        inString, quote := true, ch;
        continue;
      }
      ghost var rest := Visible(text, i + 1, None);
      if IsOpen(ch) || IsClose(ch) { assert Visible(text, i, None) == [ch] + rest && ([ch] + rest)[1..] == rest; }
      if ch == '(' || ch == '[' || ch == '{' {
        stack := stack + [ch];
      } else if ch == ')' || ch == ']' || ch == '}' {
        var expected := if ch == ')' then '(' else if ch == ']' then '[' else '{';
        if stack == [] || stack[|stack| - 1] != expected { return true; }
        stack := stack[..|stack| - 1];
      }
    }
    return stack != [];
  }

  // ---- The lexical scan -------------------------------------------------------------------------------------------

  datatype Lexical = Code | LineComment | BlockComment | InString(quote: char)

  /** One step of scanLexicalState: the state after the character at i and how many characters were consumed. */
  function LexStep(text: string, i: nat, st: Lexical, lineComment: string): (Lexical, nat)
    requires i < |text| && lineComment != ""
    ensures LexStep(text, i, st, lineComment).1 >= 1
  {
    match st
    case BlockComment => if OccursAt(text, "*/", i) then (Code, 2) else (st, 1)
    case InString(q) => if text[i] == '\\' then (st, 2) else if text[i] == q then (Code, 1) else (st, 1)
    case LineComment => if text[i] == '\n' then (Code, 1) else (st, 1)
    case Code =>
      if OccursAt(text, "/*", i) then (BlockComment, 2)
      else if OccursAt(text, lineComment, i) then (LineComment, |lineComment|)
      else if IsQuote(text[i]) then (InString(text[i]), 1)
      else (Code, 1)
  }

  function Lex(text: string, i: nat, offset: nat, st: Lexical, lineComment: string): Lexical
    requires lineComment != ""
    decreases offset - i
  {
    if i < offset && i < |text| then
      var (next, n) := LexStep(text, i, st, lineComment);
      Lex(text, i + n, offset, next, lineComment)
    else st
  }

  method ScanLexicalState(text: string, offset: nat, python: bool) returns (inComment: bool, inString: bool)
    ensures var st := Lex(text, 0, offset, Code, if python then "#" else "//");
      inComment == (st.LineComment? || st.BlockComment?) && inString == st.InString?
  {
    var lineComment := if python then "#" else "//";
    var inLine, inBlock, quote := false, false, None;
    var i := 0;
    while i < offset && i < |text|
      invariant !(inLine && inBlock) && (quote.Some? ==> !inLine && !inBlock)
      invariant Lex(text, i, offset, if inBlock then BlockComment else if inLine then LineComment else if quote.Some? then InString(quote.value) else Code, lineComment)
             == Lex(text, 0, offset, Code, lineComment)
      decreases offset - i
    {
      if inBlock {
        if OccursAt(text, "*/", i) {
          inBlock := false;
          i := i + 1;
        }
      } else if quote.Some? {
        if text[i] == '\\' {
          i := i + 1;
        } else if text[i] == quote.value {
          quote := None;
        }
      } else if inLine {
        if text[i] == '\n' { inLine := false; }
      } else if OccursAt(text, "/*", i) {
        inBlock := true;
        i := i + 1;
      } else if OccursAt(text, lineComment, i) {
        inLine := true;
        i := i + |lineComment| - 1;
      } else if IsQuote(text[i]) {
        quote := Some(text[i]);
      }
      i := i + 1;
    }
    inComment, inString := inLine || inBlock, quote.Some?;
  }

  /** The quote the bracket check has open at an offset. */
  function QuoteAt(text: string, i: nat, offset: nat, quote: Option<char>): Option<char>
    decreases offset - i
  {
    if i < offset && i < |text| then QuoteAt(text, i + 1, offset, AfterChar(text, i, quote)) else quote
  }

  // ---- The regions of a text ----------------------------------------------------------------------------------------

  lemma {:induction false} QuoteAtNext(text: string, i: nat, n: nat, quote: Option<char>)
    requires i <= n < |text|
    ensures QuoteAt(text, i, n + 1, quote) == AfterChar(text, n, QuoteAt(text, i, n, quote))
    decreases n - i
  {
    if i < n { QuoteAtNext(text, i + 1, n, AfterChar(text, i, quote)); }
  }

  /** At j, outside any quoted region, stands a quote character. */
  ghost predicate OpensAt(text: string, j: int, q: char) {
    0 <= j < |text| && text[j] == q && q in "\"'`" && QuoteAt(text, 0, j, None) == None
  }

  /** Between j and n no quote character q stands without a backslash before it. */
  ghost predicate OpenUntil(text: string, j: nat, q: char, n: nat) {
    forall k :: j < k < n && k < |text| ==> text[k] != q || text[k - 1] == '\\'
  }

  /** What the bracket check takes for a quoted region: from its quote character to the next one without a backslash. */
  lemma {:induction false} QuotedRegions(text: string, n: nat, q: char)
    requires n <= |text|
    ensures QuoteAt(text, 0, n, None) == Some(q) <==> exists j: nat :: j < n && OpensAt(text, j, q) && OpenUntil(text, j, q, n)
  {
    if n > 0 {
      QuotedRegions(text, n - 1, q);
      QuoteAtNext(text, 0, n - 1, None);
      var before := QuoteAt(text, 0, n - 1, None);
      if QuoteAt(text, 0, n, None) == Some(q) {
        if before == Some(q) {
          var j: nat :| j < n - 1 && OpensAt(text, j, q) && OpenUntil(text, j, q, n - 1);
          assert OpenUntil(text, j, q, n);
        } else {
          assert OpensAt(text, n - 1, q) && OpenUntil(text, n - 1, q, n);
        }
      }
      if j: nat :| j < n && OpensAt(text, j, q) && OpenUntil(text, j, q, n) {
        if j < n - 1 { assert OpenUntil(text, j, q, n - 1); }
      }
    }
  }

  /** The brackets outside quoted regions, from position i on. */
  function Outside(text: string, i: nat): string
    requires i <= |text|
    decreases |text| - i
  {
    if i == |text| then ""
    else (if QuoteAt(text, 0, i, None).None? && text[i] in "()[]{}" then [text[i]] else "") + Outside(text, i + 1)
  }

  lemma {:induction false} VisibleIsOutside(text: string, i: nat)
    requires i <= |text|
    ensures Visible(text, i, QuoteAt(text, 0, i, None)) == Outside(text, i)
    decreases |text| - i
  {
    if i < |text| {
      VisibleIsOutside(text, i + 1);
      QuoteAtNext(text, 0, i, None);
    }
  }

  /** The pairs that match. */
  lemma TwoBrackets(a: char, b: char)
    ensures Dyck([a, b]) <==> [a, b] in {"()", "[]", "{}"}
  {
    RunAcceptsDyck([a, b]);
    var w := [a, b];
    assert w[1..] == [b] && w[1..][1..] == "";
    assert [] + [a] == [a] && ([a] + [b])[..1] == [a];
    assert Run([a], [b]) == if IsOpen(b) then Run([a] + [b], "") else if b == Closing(a) then Run([], "") else None;
  }

  /** A block comment lasts to the first "*" + "/" at or after its text, which takes two characters. */
  lemma {:induction false} BlockCommentRuns(text: string, i: nat, end: nat, offset: nat, lineComment: string)
    requires lineComment != "" && i <= end && forall k :: i <= k < end ==> !OccursAt(text, "*/", k)
    ensures offset <= end ==> Lex(text, i, offset, BlockComment, lineComment) == BlockComment
    ensures end < offset && OccursAt(text, "*/", end) ==>
      Lex(text, i, offset, BlockComment, lineComment) == Lex(text, end + 2, offset, Code, lineComment)
    decreases end - i
  {
    if i < end { BlockCommentRuns(text, i + 1, end, offset, lineComment); }
  }

  /** A line comment lasts to the next newline. */
  lemma {:induction false} LineCommentRuns(text: string, i: nat, end: nat, offset: nat, lineComment: string)
    requires lineComment != "" && i <= end && forall k :: i <= k < end && k < |text| ==> text[k] != '\n'
    ensures offset <= end ==> Lex(text, i, offset, LineComment, lineComment) == LineComment
    ensures end < offset && end < |text| && text[end] == '\n' ==>
      Lex(text, i, offset, LineComment, lineComment) == Lex(text, end + 1, offset, Code, lineComment)
    decreases end - i
  {
    if i < end { LineCommentRuns(text, i + 1, end, offset, lineComment); }
  }

  /** A string lasts to the next quote of its kind, and a backslash before that takes the next character with it. */
  lemma {:induction false} StringRuns(text: string, i: nat, end: nat, offset: nat, q: char, lineComment: string)
    requires lineComment != "" && i <= end && forall k :: i <= k < end && k < |text| ==> text[k] != q && text[k] != '\\'
    ensures offset <= end ==> Lex(text, i, offset, InString(q), lineComment) == InString(q)
    ensures end < offset && end < |text| && text[end] == '\\' ==>
      Lex(text, i, offset, InString(q), lineComment) == Lex(text, end + 2, offset, InString(q), lineComment)
    ensures end < offset && end < |text| && text[end] == q != '\\' ==>
      Lex(text, i, offset, InString(q), lineComment) == Lex(text, end + 1, offset, Code, lineComment)
    decreases end - i
  {
    if i < end { StringRuns(text, i + 1, end, offset, q, lineComment); }
  }

  /** Something that ends a stretch of code starts at k. */
  predicate Opener(text: string, k: nat, lineComment: string) {
    OccursAt(text, "/*", k) || OccursAt(text, lineComment, k) || (k < |text| && text[k] in "\"'`")
  }

  /** Code lasts to the first comment opener or quote, and that one decides what follows it. */
  lemma {:induction false} CodeRuns(text: string, i: nat, end: nat, offset: nat, lineComment: string)
    requires lineComment == "//" || lineComment == "#"
    requires i <= end && forall k :: i <= k < end ==> !Opener(text, k, lineComment)
    ensures offset <= end ==> Lex(text, i, offset, Code, lineComment) == Code
    ensures end < offset && OccursAt(text, "/*", end) ==>
      Lex(text, i, offset, Code, lineComment) == Lex(text, end + 2, offset, BlockComment, lineComment)
    ensures end < offset && OccursAt(text, lineComment, end) ==>
      Lex(text, i, offset, Code, lineComment) == Lex(text, end + |lineComment|, offset, LineComment, lineComment)
    ensures end < offset && end < |text| && text[end] in "\"'`" ==>
      Lex(text, i, offset, Code, lineComment) == Lex(text, end + 1, offset, InString(text[end]), lineComment)
    decreases end - i
  {
    if i < end {
      assert !Opener(text, i, lineComment);
      CodeRuns(text, i + 1, end, offset, lineComment);
    } else if end < |text| {
      if OccursAt(text, "/*", end) { StartsWith(text, end, "/*"); assert text[end + 1] == '*'; }
      if OccursAt(text, lineComment, end) {
        StartsWith(text, end, lineComment);
        assert text[end] == lineComment[0];
        assert |lineComment| == 2 ==> text[end + 1] == lineComment[1];
      }
    }
  }

  lemma StartsElsewhere(text: string, i: nat, p: string)
    requires p != "" && i < |text| && text[i] != p[0]
    ensures !OccursAt(text, p, i)
  {
    assert i + |p| <= |text| ==> text[i..i + |p|][0] == text[i];
  }

  lemma StartsWith(text: string, i: nat, p: string)
    requires OccursAt(text, p, i)
    ensures forall k :: 0 <= k < |p| ==> text[i + k] == p[k]
  {
    forall k | 0 <= k < |p| ensures text[i + k] == p[k] { assert text[i..i + |p|][k] == text[i + k]; }
  }

  function Quoted(st: Lexical): Option<char> { if st.InString? then Some(st.quote) else None }

  /**
   What the bracket check overlooks, along the steps of the lexical scan: a quote inside a comment, and an escaped
   backslash directly before the quote that closes its string.
   */
  predicate Misread(text: string, i: nat, st: Lexical)
    requires i < |text|
  {
    match st
    case Code => false
    case InString(q) => text[i] == '\\' && i + 2 < |text| && text[i + 1] == '\\' && text[i + 2] == q
    case _ => IsQuote(text[i])
  }

  /** No step of the lexical scan from i on meets a place the bracket check misreads. */
  predicate NeverMisread(text: string, i: nat, st: Lexical, lineComment: string)
    requires lineComment != ""
    decreases |text| - i
  {
    i < |text| ==>
      var (next, n) := LexStep(text, i, st, lineComment);
      !Misread(text, i, st) && NeverMisread(text, i + n, next, lineComment)
  }

  /** The two scanners have the same quote open at an offset. */
  predicate SameQuote(text: string, i: nat, offset: nat, st: Lexical, lineComment: string)
    requires lineComment != ""
  {
    Quoted(Lex(text, i, offset, st, lineComment)) == QuoteAt(text, i, offset, Quoted(st))
  }

  /** A string is open at i, and if its closing quote follows, no backslash stands before it. */
  predicate Ready(text: string, i: nat, st: Lexical) {
    st.InString? ==> IsQuote(st.quote) && (i < |text| && text[i] == st.quote ==> i > 0 && text[i - 1] != '\\')
  }

  /** Where nothing is misread, a lexical step leaves both scanners in the same state, also half-way through it. */
  lemma StepTogether(text: string, i: nat, st: Lexical, lineComment: string)
    requires lineComment == "//" || lineComment == "#"
    requires i < |text| && Ready(text, i, st) && !Misread(text, i, st)
    ensures var (next, n) := LexStep(text, i, st, lineComment);
      && Ready(text, i + n, next) && (n == 1 || n == 2)
      && (n == 1 ==> AfterChar(text, i, Quoted(st)) == Quoted(next))
      && (n == 2 && i + 1 < |text| ==> AfterChar(text, i + 1, AfterChar(text, i, Quoted(st))) == Quoted(next))
      && (n == 2 ==> AfterChar(text, i, Quoted(st)) == Quoted(next))
  {
    match st
    case BlockComment => if OccursAt(text, "*/", i) { StartsWith(text, i, "*/"); assert text[i + 1] == '/'; }
    case LineComment =>
    case InString(q) =>
    case Code =>
      if OccursAt(text, "/*", i) {
        StartsWith(text, i, "/*");
        assert text[i] == '/' && text[i + 1] == '*';
      } else if OccursAt(text, lineComment, i) {
        StartsWith(text, i, lineComment);
        assert text[i] == lineComment[0] && !IsQuote(text[i]);
        assert |lineComment| == 2 ==> text[i + 1] == lineComment[1] == '/';
      }
  }

  /** At a place that is misread the scanners part: one or three characters on, they differ. */
  lemma StepApart(text: string, i: nat, st: Lexical, lineComment: string)
    requires lineComment == "//" || lineComment == "#"
    requires i < |text| && Ready(text, i, st) && Misread(text, i, st)
    ensures !AgreeFrom(text, i, st, lineComment)
  {
    if st.InString? {
      var q := Some(st.quote);
      assert QuoteAt(text, i, i + 3, q) == QuoteAt(text, i + 1, i + 3, q) == QuoteAt(text, i + 2, i + 3, q) == QuoteAt(text, i + 3, i + 3, q) == q;
      assert Lex(text, i, i + 3, st, lineComment) == Lex(text, i + 2, i + 3, st, lineComment) == Lex(text, i + 3, i + 3, Code, lineComment) == Code;
      assert !SameQuote(text, i, i + 3, st, lineComment);
    } else {
      StartsElsewhere(text, i, "*/");
      var (next, n) := LexStep(text, i, st, lineComment);
      assert Lex(text, i, i + 1, st, lineComment) == Lex(text, i + n, i + 1, next, lineComment) == next;
      assert QuoteAt(text, i, i + 1, None) == QuoteAt(text, i + 1, i + 1, Some(text[i])) == Some(text[i]);
      assert !SameQuote(text, i, i + 1, st, lineComment);
    }
  }

  /** Past a step made together, the scanners agree at an offset as they do from the end of the step. */
  lemma StepAgrees(text: string, i: nat, offset: nat, st: Lexical, lineComment: string)
    requires lineComment == "//" || lineComment == "#"
    requires i < |text| && i < offset && Ready(text, i, st) && !Misread(text, i, st)
    ensures var (next, n) := LexStep(text, i, st, lineComment);
      SameQuote(text, i, offset, st, lineComment) <==> offset < i + n || SameQuote(text, i + n, offset, next, lineComment)
  {
    StepTogether(text, i, st, lineComment);
    var (next, n) := LexStep(text, i, st, lineComment);
    hide LexStep, AfterChar, Misread, Ready;
    LexUnfold(text, i, offset, st, lineComment);
    QuoteUnfold(text, i, offset, Quoted(st));
    if n == 2 && i + 1 < offset && i + 1 < |text| { QuoteUnfold(text, i + 1, offset, Quoted(next)); }
  }

  lemma LexUnfold(text: string, i: nat, offset: nat, st: Lexical, lineComment: string)
    requires lineComment != "" && i < offset && i < |text|
    ensures var (next, n) := LexStep(text, i, st, lineComment);
      && Lex(text, i, offset, st, lineComment) == Lex(text, i + n, offset, next, lineComment)
      && (offset <= i + n ==> Lex(text, i, offset, st, lineComment) == next)
  {
  }

  lemma QuoteUnfold(text: string, i: nat, offset: nat, quote: Option<char>)
    requires i < |text| && i < offset
    ensures QuoteAt(text, i, offset, quote) == QuoteAt(text, i + 1, offset, AfterChar(text, i, quote))
    ensures offset == i + 1 ==> QuoteAt(text, i, offset, quote) == AfterChar(text, i, quote)
  {
  }

  ghost predicate AgreeFrom(text: string, i: nat, st: Lexical, lineComment: string)
    requires lineComment != ""
  {
    forall offset: nat :: i <= offset ==> SameQuote(text, i, offset, st, lineComment)
  }

  lemma {:induction false} AgreeExactly(text: string, i: nat, st: Lexical, lineComment: string)
    requires lineComment == "//" || lineComment == "#"
    requires Ready(text, i, st)
    ensures AgreeFrom(text, i, st, lineComment) <==> NeverMisread(text, i, st, lineComment)
    decreases |text| - i
  {
    hide AgreeFrom, SameQuote, Ready, Misread, LexStep;
    if i >= |text| {
      AgreeAtEnd(text, i, st, lineComment);
    } else {
      if Misread(text, i, st) {
        StepApart(text, i, st, lineComment);
      } else {
        var (next, n) := LexStep(text, i, st, lineComment);
        StepTogether(text, i, st, lineComment);
        AgreeExactly(text, i + n, next, lineComment);
        AgreeStep(text, i, st, lineComment);
      }
    }
  }

  lemma AgreeAtEnd(text: string, i: nat, st: Lexical, lineComment: string)
    requires lineComment != "" && i >= |text|
    ensures AgreeFrom(text, i, st, lineComment)
  {
  }

  lemma AgreeStep(text: string, i: nat, st: Lexical, lineComment: string)
    requires lineComment == "//" || lineComment == "#"
    requires i < |text| && Ready(text, i, st) && !Misread(text, i, st)
    ensures var (next, n) := LexStep(text, i, st, lineComment);
      AgreeFrom(text, i, st, lineComment) <==> AgreeFrom(text, i + n, next, lineComment)
  {
    hide LexStep, Misread, Ready;
    var (next, n) := LexStep(text, i, st, lineComment);
    var j := i + n;
    assert SameQuote(text, i, i, st, lineComment);
    hide SameQuote;
    if AgreeFrom(text, i, st, lineComment) {
      forall offset: nat | j <= offset ensures SameQuote(text, j, offset, next, lineComment) {
        StepAgrees(text, i, offset, st, lineComment);
      }
    }
    if AgreeFrom(text, j, next, lineComment) {
      forall offset: nat | i <= offset ensures SameQuote(text, i, offset, st, lineComment) {
        if i < offset { StepAgrees(text, i, offset, st, lineComment); }
      }
    }
  }

  /**
   The two scanners of the file agree at every offset on which quote is open exactly when the text has no quote inside
   a comment and no escaped backslash directly before a closing quote.
   */
  lemma ScannersAgree(text: string, python: bool)
    ensures var lineComment := if python then "#" else "//";
      (forall offset: nat :: SameQuote(text, 0, offset, Code, lineComment)) <==> NeverMisread(text, 0, Code, lineComment)
  {
    var lineComment := if python then "#" else "//";
    AgreeExactly(text, 0, Code, lineComment);
    assert AgreeFrom(text, 0, Code, lineComment) <==> forall offset: nat :: SameQuote(text, 0, offset, Code, lineComment);
  }

  /** After a string that ends in an escaped backslash they do not: the bracket check still reads a string. */
  lemma EscapedBackslashDisagrees()
    ensures var text := "\"\\\\\"(";
      QuoteAt(text, 0, 5, None) == Some('"') && Lex(text, 0, 5, Code, "//") == Code && Dyck(Visible(text, 0, None))
  {
    var text := "\"\\\\\"(";
    assert |text| == 5;
    StartsElsewhere(text, 0, "/*");
    StartsElsewhere(text, 0, "//");
    StartsElsewhere(text, 4, "/*");
    StartsElsewhere(text, 4, "//");
    assert Lex(text, 0, 5, Code, "//") == Lex(text, 1, 5, InString('"'), "//") == Lex(text, 3, 5, InString('"'), "//");
    assert Lex(text, 3, 5, InString('"'), "//") == Lex(text, 4, 5, Code, "//") == Lex(text, 5, 5, Code, "//");
    var q := Some('"');
    assert QuoteAt(text, 0, 5, None) == QuoteAt(text, 1, 5, q) == QuoteAt(text, 2, 5, q) == QuoteAt(text, 3, 5, q) == QuoteAt(text, 4, 5, q) == QuoteAt(text, 5, 5, q);
    assert Visible(text, 5, q) == "";
    assert Visible(text, 4, q) == "" && Visible(text, 3, q) == "" && Visible(text, 2, q) == "" && Visible(text, 1, q) == "";
    assert Visible(text, 0, None) == "";
    assert Proper(Empty) && Yield(Empty) == "";
  }
}
