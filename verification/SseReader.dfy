/**
 The streaming readers of the API client (streamChat, streamInlineCompletion and parseSseJson of
 src/api/CoopBackendClient.ts) and the writer they read from (writeSse of src/api/chatApi.ts). The JSON decoder is a
 parameter that answers None for invalid text and for falsy values; the reader sees text decoded from UTF-8.
 */
module SseReader {
  import opened Wrappers

  // ---- Text -------------------------------------------------------------------------------------------------------

  /** The characters String.trim removes. */
  predicate IsSpace(c: char) {
    var n := c as int;
    || 0x9 <= n <= 0xD || n == 0x20 || n == 0xA0 || n == 0x1680 || 0x2000 <= n <= 0x200A
    || n == 0x2028 || n == 0x2029 || n == 0x202F || n == 0x205F || n == 0x3000 || n == 0xFEFF
  }

  function TrimStart(s: string): string { if s != "" && IsSpace(s[0]) then TrimStart(s[1..]) else s }

  function TrimEnd(s: string): string {
    if s != "" && IsSpace(s[|s| - 1]) then TrimEnd(s[..|s| - 1]) else s
  }

  function Trim(s: string): string { TrimEnd(TrimStart(s)) }

  ghost predicate AllSpace(s: string) { forall i :: 0 <= i < |s| ==> IsSpace(s[i]) }

  /** Trimming takes white space off both ends, and all of it. */
  lemma TrimExact(s: string)
    ensures exists a: string, b: string :: AllSpace(a) && AllSpace(b) && s == a + Trim(s) + b
    ensures var t := Trim(s); t != "" ==> !IsSpace(t[0]) && !IsSpace(t[|t| - 1])
  {
    var a := TrimStartExact(s);
    var t := TrimStart(s);
    var b := TrimEndExact(t);
    assert s == a + Trim(s) + b;
    if Trim(s) != "" { assert Trim(s)[0] == t[0]; }
  }

  lemma {:induction false} TrimStartExact(s: string) returns (a: string)
    ensures AllSpace(a) && s == a + TrimStart(s)
    ensures TrimStart(s) != "" ==> !IsSpace(TrimStart(s)[0])
  {
    a := "";
    if s != "" && IsSpace(s[0]) {
      var r := TrimStartExact(s[1..]);
      a := [s[0]] + r;
    }
  }

  lemma {:induction false} TrimEndExact(s: string) returns (b: string)
    ensures AllSpace(b) && s == TrimEnd(s) + b
    ensures TrimEnd(s) != "" ==> !IsSpace(TrimEnd(s)[|TrimEnd(s)| - 1])
  {
    b := "";
    if s != "" && IsSpace(s[|s| - 1]) {
      var r := TrimEndExact(s[..|s| - 1]);
      b := r + [s[|s| - 1]];
      assert s == s[..|s| - 1] + [s[|s| - 1]];
    }
  }

  /** split("\n"): one more piece than there are newlines. */
  function Split(s: string): (r: seq<string>)
    ensures r != []
  {
    if s == "" then [""]
    else
      var r := Split(s[1..]);
      if s[0] == '\n' then [""] + r else [[s[0]] + r[0]] + r[1..]
  }

  /** The pieces a newline ends, and the unterminated piece after them. */
  function Lines(s: string): seq<string> { var r := Split(s); r[..|r| - 1] }

  function Tail(s: string): string { var r := Split(s); r[|r| - 1] }

  function Flatten(chunks: seq<string>): string { if chunks == [] then "" else Flatten(chunks[..|chunks| - 1]) + chunks[|chunks| - 1] }

  /** The lines of a list, each with its newline. */
  function Joined(lines: seq<string>): string { if lines == [] then "" else lines[0] + "\n" + Joined(lines[1..]) }

  /** Splitting finds the lines of a text: they and the unterminated rest make it up, and no newline is inside them. */
  lemma {:induction false} SplitExact(s: string)
    ensures s == Joined(Lines(s)) + Tail(s)
    ensures (forall i :: 0 <= i < |Lines(s)| ==> '\n' !in Lines(s)[i]) && '\n' !in Tail(s)
  {
    if s != "" {
      var t := s[1..];
      var r := Split(t);
      SplitExact(t);
      assert s == [s[0]] + t;
      if s[0] == '\n' {
        assert Lines(s) == [""] + Lines(t) && Tail(s) == Tail(t);
        assert ([""] + Lines(t))[1..] == Lines(t);
        assert Joined(Lines(s)) == "\n" + Joined(Lines(t));
      } else if |r| > 1 {
        assert Lines(s) == [[s[0]] + r[0]] + r[1..|r| - 1] && Lines(t) == [r[0]] + r[1..|r| - 1] && Tail(s) == Tail(t);
        assert ([[s[0]] + r[0]] + r[1..|r| - 1])[1..] == r[1..|r| - 1] == Lines(t)[1..];
        assert Joined(Lines(s)) == [s[0]] + Joined(Lines(t));
        forall i | 0 <= i < |Lines(s)| ensures '\n' !in Lines(s)[i] { assert '\n' !in Lines(t)[i]; }
      } else {
        assert Lines(s) == [] && Lines(t) == [];
      }
    }
  }

  /** What a leading character does to a split. */
  function Prepend(c: char, r: seq<string>): seq<string>
    requires r != []
  {
    if c == '\n' then [""] + r else [[c] + r[0]] + r[1..]
  }

  lemma SplitCons(c: char, s: string)
    ensures Split([c] + s) == Prepend(c, Split(s))
  {
    assert ([c] + s)[1..] == s;
  }

  /** Splitting more text only splits what the first part left unterminated. */
  lemma {:induction false} SplitConcat(a: string, b: string)
    ensures Split(a + b) == Lines(a) + Split(Tail(a) + b)
  {
    if a == "" {
      assert a + b == b && Lines(a) == [] && Tail(a) + b == b;
    } else {
      var c, t := a[0], a[1..];
      assert a == [c] + t && a + b == [c] + (t + b);
      SplitCons(c, t);
      SplitCons(c, t + b);
      SplitConcat(t, b);
      SplitCons(c, Tail(t) + b);
      assert [c] + (Tail(t) + b) == ([c] + Tail(t)) + b;
      var r, u := Split(t), Split(Tail(t) + b);
      hide Split;
      PrependConcat(c, r, u);
    }
  }

  lemma PrependConcat(c: char, r: seq<string>, u: seq<string>)
    requires r != [] && u != []
    ensures var n, p := |r| - 1, Prepend(c, r); var m := |p| - 1;
      Prepend(c, r[..n] + u) ==
        (if c != '\n' && n == 0 then Prepend(c, u) else p[..m] + u)
      && p[m] == (if c != '\n' && n == 0 then [c] + r[n] else r[n])
      && (c != '\n' && n == 0 ==> p[..m] == [])
  {
    var n := |r| - 1;
    var x, p := r[..n] + u, Prepend(c, r);
    if c == '\n' {
      assert p[..n + 1] == [""] + r[..n];
      assert [""] + x == ([""] + r[..n]) + u;
    } else if n == 0 {
      assert x == u;
    } else {
      assert x[0] == r[0] && x[1..] == r[1..n] + u;
      assert p[..n] == [[c] + r[0]] + r[1..n];
      assert [[c] + r[0]] + (r[1..n] + u) == ([[c] + r[0]] + r[1..n]) + u;
    }
  }

  lemma LinesConcat(a: string, b: string)
    ensures Lines(a + b) == Lines(a) + Lines(Tail(a) + b) && Tail(a + b) == Tail(Tail(a) + b)
  {
    SplitConcat(a, b);
  }

  // ---- Events -----------------------------------------------------------------------------------------------------

  datatype DoneFields = DoneFields(
    model: Option<string>, provider: Option<string>, usage: Option<(int, int)>, quotaId: Option<string>, finishReason: Option<string>)

  datatype Event = Thinking(text: string) | Delta(text: string) | Done(fields: DoneFields) | Error(message: Option<string>) | Other

  type Decoder = string -> Option<Event>

  /** parseSseJson: one JSON value on a data line. */
  function ParseLine(line: string, decode: Decoder): Option<Event> {
    var trimmed := Trim(line);
    if |trimmed| < 5 || trimmed[..5] != "data:" then None
    else
      var payload := Trim(trimmed[5..]);
      if payload == "" then None else decode(payload)
  }

  /** The events on a list of lines, in order. */
  function Events(lines: seq<string>, decode: Decoder): seq<Event> {
    if lines == [] then []
    else
      var e := ParseLine(lines[|lines| - 1], decode);
      Events(lines[..|lines| - 1], decode) + if e.Some? then [e.value] else []
  }

  // ---- Reading ----------------------------------------------------------------------------------------------------

  // What a reader has built up, and whether an error event has ended it.
  datatype Progress<S> = Going(state: S) | Failed(state: S, message: Option<string>)

  type Handler<!S> = (S, Event) -> Progress<S>

  function Handle<S>(p: Progress<S>, e: Event, handle: Handler<S>): Progress<S> { if p.Failed? then p else handle(p.state, e) }

  function HandleAll<S>(p: Progress<S>, es: seq<Event>, handle: Handler<S>): Progress<S> {
    if es == [] then p else Handle(HandleAll(p, es[..|es| - 1], handle), es[|es| - 1], handle)
  }

  /** One turn of the read loop: the progress and the buffer after one more chunk. */
  function Advanced<S>(p: Progress<S>, buffer: string, chunk: string, decode: Decoder, handle: Handler<S>): (Progress<S>, string) {
    (HandleAll(p, Events(Lines(buffer + chunk), decode), handle), Tail(buffer + chunk))
  }

  /** The read loop: the progress and the buffer after a number of chunks. */
  function ReadChunks<S>(init: S, chunks: seq<string>, decode: Decoder, handle: Handler<S>): (Progress<S>, string) {
    if chunks == [] then (Going(init), "")
    else
      var n := |chunks| - 1;
      var (p, buffer) := ReadChunks(init, chunks[..n], decode, handle);
      Advanced(p, buffer, chunks[n], decode, handle)
  }

  lemma AdvancedSplits<S>(p: Progress<S>, buffer: string, chunk: string, decode: Decoder, handle: Handler<S>)
    ensures var lines := Split(buffer + chunk); var n := |lines| - 1;
      Advanced(p, buffer, chunk, decode, handle) == (HandleAll(p, Events(lines[..n], decode), handle), lines[n])
  {
  }

  lemma ReadOneMore<S>(init: S, chunks: seq<string>, n: nat, decode: Decoder, handle: Handler<S>)
    requires n < |chunks|
    ensures var (p, buffer) := ReadChunks(init, chunks[..n], decode, handle);
      ReadChunks(init, chunks[..n + 1], decode, handle) == Advanced(p, buffer, chunks[n], decode, handle)
  {
    hide Advanced;
    assert chunks[..n + 1][..n] == chunks[..n];
  }

  lemma {:induction false} EventsConcat(a: seq<string>, b: seq<string>, decode: Decoder)
    ensures Events(a + b, decode) == Events(a, decode) + Events(b, decode)
  {
    if b == [] {
      assert a + b == a;
    } else {
      var n := |b| - 1;
      assert (a + b)[..|a + b| - 1] == a + b[..n] && (a + b)[|a + b| - 1] == b[n];
      EventsConcat(a, b[..n], decode);
    }
  }

  lemma {:induction false} HandleAllConcat<S>(p: Progress<S>, a: seq<Event>, b: seq<Event>, handle: Handler<S>)
    ensures HandleAll(p, a + b, handle) == HandleAll(HandleAll(p, a, handle), b, handle)
  {
    if b == [] {
      assert a + b == a;
    } else {
      var n := |b| - 1;
      assert (a + b)[..|a + b| - 1] == a + b[..n] && (a + b)[|a + b| - 1] == b[n];
      HandleAllConcat(p, a, b[..n], handle);
    }
  }

  /**
   However the network cuts the stream, the reader handles exactly the events on the terminated lines of the whole
   text, and keeps the unterminated rest in its buffer.
   */
  lemma {:induction false} ReadingIgnoresCuts<S>(init: S, chunks: seq<string>, decode: Decoder, handle: Handler<S>)
    ensures ReadChunks(init, chunks, decode, handle) ==
      (HandleAll(Going(init), Events(Lines(Flatten(chunks)), decode), handle), Tail(Flatten(chunks)))
  {
    if chunks != [] {
      var n := |chunks| - 1;
      var before := Flatten(chunks[..n]);
      ReadingIgnoresCuts(init, chunks[..n], decode, handle);
      LinesConcat(before, chunks[n]);
      var more := Lines(Tail(before) + chunks[n]);
      EventsConcat(Lines(before), more, decode);
      HandleAllConcat(Going(init), Events(Lines(before), decode), Events(more, decode), handle);
    }
  }

  // ---- Round trip with the writer ---------------------------------------------------------------------------------

  function WriteSse(payload: string): string { "data: " + payload + "\n\n" }

  function WriteAll(payloads: seq<string>): string { if payloads == [] then "" else WriteAll(payloads[..|payloads| - 1]) + WriteSse(payloads[|payloads| - 1]) }

  /** What JSON.stringify makes of an event: no raw newline, and no white space at either end. */
  predicate IsPayload(p: string) { p != "" && '\n' !in p && !IsSpace(p[0]) && !IsSpace(p[|p| - 1]) }

  lemma {:induction false} SplitPlain(s: string)
    requires '\n' !in s
    ensures Split(s) == [s]
  {
    if s != "" {
      assert forall c :: c in s[1..] ==> c in s;
      SplitPlain(s[1..]);
      assert [s[0]] + s[1..] == s;
    }
  }

  lemma SplitTerminated(s: string, rest: string)
    requires '\n' !in s
    ensures Split(s + "\n" + rest) == [s] + Split(rest)
  {
    SplitPlain(s);
    SplitConcat(s, "\n" + rest);
    assert s + "\n" + rest == s + ("\n" + rest);
    assert Lines(s) == [] && Tail(s) == s;
    SplitNewline(s, rest);
  }

  lemma {:induction false} SplitNewline(s: string, rest: string)
    requires '\n' !in s
    ensures Split(s + ("\n" + rest)) == [s] + Split(rest)
  {
    var t := s + ("\n" + rest);
    if s == "" {
      assert t[1..] == rest;
    } else {
      assert forall c :: c in s[1..] ==> c in s;
      assert t[0] == s[0] && t[1..] == s[1..] + ("\n" + rest);
      SplitNewline(s[1..], rest);
      assert [s[0]] + s[1..] == s;
    }
  }

  lemma WrittenLines(p: string)
    requires IsPayload(p)
    ensures Split(WriteSse(p)) == ["data: " + p, "", ""]
  {
    var line := "data: " + p;
    assert '\n' !in line;
    SplitTerminated(line, "\n");
    SplitTerminated("", "");
    assert "" + "\n" + "" == "\n";
    assert WriteSse(p) == line + "\n" + "\n";
  }

  lemma TrimPayload(p: string)
    requires IsPayload(p)
    ensures Trim(p) == p && Trim("data: " + p) == "data: " + p && Trim(" " + p) == p
  {
    var line := "data: " + p;
    assert line[0] == 'd' && line[|line| - 1] == p[|p| - 1];
    assert (" " + p)[0] == ' ' && (" " + p)[1..] == p;
    assert TrimStart(" " + p) == TrimStart(p) == p;
  }

  /** A written payload is read back as the decoder reads it. */
  lemma WrittenParses(p: string, decode: Decoder)
    requires IsPayload(p)
    ensures ParseLine("data: " + p, decode) == decode(p) && ParseLine("", decode) == None
  {
    TrimPayload(p);
    var line := "data: " + p;
    assert line[..5] == "data:" && line[5..] == " " + p;
  }

  lemma OnePayload(before: string, p: string, decode: Decoder, e: Event)
    requires Tail(before) == "" && IsPayload(p) && decode(p) == Some(e)
    ensures Events(Lines(before + WriteSse(p)), decode) == Events(Lines(before), decode) + [e]
    ensures Tail(before + WriteSse(p)) == ""
  {
    LinesConcat(before, WriteSse(p));
    assert "" + WriteSse(p) == WriteSse(p);
    WrittenLines(p);
    var two := ["data: " + p, ""];
    assert Lines(WriteSse(p)) == two && Tail(WriteSse(p)) == "";
    hide Split, WriteSse, ParseLine, IsPayload;
    EventsConcat(Lines(before), two, decode);
    TwoLines(p, decode);
  }

  lemma {:induction false} WriteAllReads(payloads: seq<string>, decode: Decoder, events: seq<Event>)
    requires |payloads| == |events|
    requires forall i :: 0 <= i < |payloads| ==> IsPayload(payloads[i]) && decode(payloads[i]) == Some(events[i])
    ensures Events(Lines(WriteAll(payloads)), decode) == events && Tail(WriteAll(payloads)) == ""
  {
    if payloads != [] {
      var n := |payloads| - 1;
      WriteAllReads(payloads[..n], decode, events[..n]);
      hide WriteSse, ParseLine, IsPayload, Tail, Lines;
      OnePayload(WriteAll(payloads[..n]), payloads[n], decode, events[n]);
      assert events == events[..n] + [events[n]];
    }
  }

  lemma TwoLines(p: string, decode: Decoder)
    requires IsPayload(p) && decode(p).Some?
    ensures Events(["data: " + p, ""], decode) == [decode(p).value]
  {
    var two := ["data: " + p, ""];
    WrittenParses(p, decode);
    assert two[..1] == ["data: " + p] && two[..1][..0] == [];
    assert Events(two[..1], decode) == [decode(p).value];
  }

  /** Events sent by the writer, cut in any way, are handled in order and all of them. */
  lemma WrittenEventsAreHandled<S>(payloads: seq<string>, events: seq<Event>, chunks: seq<string>, init: S, decode: Decoder, handle: Handler<S>)
    requires |payloads| == |events|
    requires forall i :: 0 <= i < |payloads| ==> IsPayload(payloads[i]) && decode(payloads[i]) == Some(events[i])
    requires Flatten(chunks) == WriteAll(payloads)
    ensures ReadChunks(init, chunks, decode, handle) == (HandleAll(Going(init), events, handle), "")
  {
    ReadingIgnoresCuts(init, chunks, decode, handle);
    WriteAllReads(payloads, decode, events);
  }

  // ---- The two clients --------------------------------------------------------------------------------------------

  // streamChat: the answer, the last done event, and what was passed to the two callbacks.
  datatype Chat = Chat(full: string, usage: Option<DoneFields>, shown: seq<string>, thoughts: seq<string>)

  function OnChat(s: Chat, e: Event): Progress<Chat> {
    match e
    case Thinking(t) => Going(s.(thoughts := s.thoughts + [t]))
    case Delta(t) => Going(s.(full := s.full + t, shown := s.shown + [t]))
    case Done(f) => Going(s.(usage := Some(f)))
    case Error(m) => Failed(s, m)
    case Other => Going(s)
  }

  // streamInlineCompletion.
  datatype Inline = Inline(full: string, model: string, provider: string, usage: Option<(int, int)>, quotaId: Option<string>, shown: seq<string>)

  function OnInline(s: Inline, e: Event): Progress<Inline> {
    match e
    case Delta(t) => Going(s.(full := s.full + t, shown := s.shown + [t]))
    case Done(f) => Going(s.(model := Or(f.model, s.model), provider := Or(f.provider, s.provider),
                             usage := if f.usage.Some? then f.usage else s.usage,
                             quotaId := if f.quotaId.Some? then f.quotaId else s.quotaId))
    case Error(m) => Failed(s, m)
    case _ => Going(s)
  }

  predicate HasError(es: seq<Event>) { es != [] && (HasError(es[..|es| - 1]) || es[|es| - 1].Error?) }

  /** The text deltas before the first error event. */
  function Deltas(es: seq<Event>): seq<string> {
    if es == [] then []
    else
      var n := |es| - 1;
      Deltas(es[..n]) + if !HasError(es[..n]) && es[n].Delta? then [es[n].text] else []
  }

  lemma FlattenSnoc(a: seq<string>, t: string)
    ensures Flatten(a + [t]) == Flatten(a) + t
  {
    assert (a + [t])[..|a|] == a;
  }

  lemma {:induction false} HandleFailed<S>(p: Progress<S>, es: seq<Event>, handle: Handler<S>)
    requires p.Failed?
    ensures HandleAll(p, es, handle) == p
  {
    if es != [] { HandleFailed(p, es[..|es| - 1], handle); }
  }

  /** The chunks shown are the deltas before the first error event, which ends the reading. */
  lemma {:induction false} ChatShown(es: seq<Event>)
    ensures var p := HandleAll(Going(Chat("", None, [], [])), es, OnChat); p.state.shown == Deltas(es) && (p.Failed? <==> HasError(es))
  {
    if es != [] { ChatShown(es[..|es| - 1]); }
  }

  /** The content returned is the concatenation of the chunks shown. */
  lemma {:induction false} ChatContent(es: seq<Event>)
    ensures var p := HandleAll(Going(Chat("", None, [], [])), es, OnChat); p.state.full == Flatten(p.state.shown)
  {
    if es != [] {
      var n := |es| - 1;
      ChatContent(es[..n]);
      var p := HandleAll(Going(Chat("", None, [], [])), es[..n], OnChat);
      if p.Going? && es[n].Delta? { FlattenSnoc(p.state.shown, es[n].text); }
    }
  }

  /** The chunks shown are the deltas before the first error event, which ends the reading. */
  lemma {:induction false} InlineShown(es: seq<Event>, model: string, provider: string)
    ensures var p := HandleAll(Going(Inline("", model, provider, None, None, [])), es, OnInline); p.state.shown == Deltas(es) && (p.Failed? <==> HasError(es))
  {
    if es != [] { InlineShown(es[..|es| - 1], model, provider); }
  }

  /** The content returned is the concatenation of the chunks shown. */
  lemma {:induction false} InlineContent(es: seq<Event>, model: string, provider: string)
    ensures var p := HandleAll(Going(Inline("", model, provider, None, None, [])), es, OnInline); p.state.full == Flatten(p.state.shown)
  {
    if es != [] {
      var n := |es| - 1;
      InlineContent(es[..n], model, provider);
      var p := HandleAll(Going(Inline("", model, provider, None, None, [])), es[..n], OnInline);
      if p.Going? && es[n].Delta? { FlattenSnoc(p.state.shown, es[n].text); }
    }
  }

  /** The events before the first error event: those that are handled. */
  function BeforeError(es: seq<Event>): seq<Event> {
    if es == [] then []
    else
      var n := |es| - 1;
      if HasError(es) then BeforeError(es[..n]) else es
  }

  /** The message of the first error event. */
  function FirstError(es: seq<Event>): Option<string> {
    if es == [] then None
    else if HasError(es[..|es| - 1]) then FirstError(es[..|es| - 1])
    else if es[|es| - 1].Error? then es[|es| - 1].message
    else None
  }

  function Thoughts(es: seq<Event>): seq<string> {
    if es == [] then [] else Thoughts(es[..|es| - 1]) + if es[|es| - 1].Thinking? then [es[|es| - 1].text] else []
  }

  /** What the last done event that gives a field gives. */
  function LastDone<T>(es: seq<Event>, given: DoneFields -> Option<T>): Option<T> {
    if es == [] then None
    else
      var e := es[|es| - 1];
      if e.Done? && given(e.fields).Some? then given(e.fields) else LastDone(es[..|es| - 1], given)
  }

  lemma {:induction false} BeforeErrorLast(es: seq<Event>)
    requires es != []
    ensures BeforeError(es) == if HasError(es) then BeforeError(es[..|es| - 1]) else BeforeError(es[..|es| - 1]) + [es[|es| - 1]]
  {
    var n := |es| - 1;
    assert es == es[..n] + [es[n]];
    if n > 0 && !HasError(es[..n]) { assert BeforeError(es[..n]) == es[..n]; }
  }

  lemma OneMoreSeen<T>(seen: seq<Event>, e: Event, given: DoneFields -> Option<T>)
    ensures LastDone(seen + [e], given) == if e.Done? && given(e.fields).Some? then given(e.fields) else LastDone(seen, given)
    ensures Thoughts(seen + [e]) == Thoughts(seen) + if e.Thinking? then [e.text] else []
  {
    assert (seen + [e])[..|seen|] == seen;
  }

  /** streamChat: the usage is the last done event's, the thoughts are all thinking texts, an error's message is thrown. */
  lemma {:induction false} ChatFields(es: seq<Event>)
    ensures var p, seen := HandleAll(Going(Chat("", None, [], [])), es, OnChat), BeforeError(es);
      && p.state.usage == LastDone(seen, (f: DoneFields) => Some(f))
      && p.state.thoughts == Thoughts(seen)
      && (p.Failed? ==> p.message == FirstError(es))
  {
    if es != [] {
      var n := |es| - 1;
      ChatFields(es[..n]);
      ChatShown(es[..n]);
      ChatShown(es);
      BeforeErrorLast(es);
      OneMoreSeen(BeforeError(es[..n]), es[n], (f: DoneFields) => Some(f));
      hide BeforeError, Deltas;
    }
  }

  /** streamInlineCompletion: each field is that of the last done event giving it, the model and provider else those asked for. */
  lemma {:induction false} InlineFields(es: seq<Event>, model: string, provider: string)
    ensures var p, seen := HandleAll(Going(Inline("", model, provider, None, None, [])), es, OnInline), BeforeError(es);
      && p.state.model == Or(LastDone(seen, (f: DoneFields) => f.model), model)
      && p.state.provider == Or(LastDone(seen, (f: DoneFields) => f.provider), provider)
      && p.state.usage == LastDone(seen, (f: DoneFields) => f.usage)
      && p.state.quotaId == LastDone(seen, (f: DoneFields) => f.quotaId)
      && (p.Failed? ==> p.message == FirstError(es))
  {
    if es != [] {
      var n := |es| - 1;
      InlineFields(es[..n], model, provider);
      InlineShown(es[..n], model, provider);
      InlineShown(es, model, provider);
      BeforeErrorLast(es);
      var seen := BeforeError(es[..n]);
      assert (seen + [es[n]])[..|seen|] == seen;
    }
  }

  /** Only a line that starts, after white space, with "data:" and carries something more is decoded. */
  lemma OtherLinesIgnored(line: string, decode: Decoder)
    ensures !("data:" <= Trim(line)) ==> ParseLine(line, decode) == None
    ensures "data:" <= Trim(line) && Trim(Trim(line)[5..]) == "" ==> ParseLine(line, decode) == None
    ensures "data:" <= Trim(line) && Trim(Trim(line)[5..]) != "" ==> ParseLine(line, decode) == decode(Trim(Trim(line)[5..]))
  {
    var t := Trim(line);
    if |t| >= 5 && t[..5] == "data:" { assert "data:" <= t; }
    if "data:" <= t { assert t[..5] == "data:"; }
  }

  // ---- The read loop ----------------------------------------------------------------------------------------------

  /**
   The read loop of both clients: `aborted(i)` tells whether the signal has fired when chunk i has been handled. It
   stops at the end of the stream, at an error event, or after the first chunk at which the signal has fired; the
   result is that of handling every event on the terminated lines of the text read so far.
   */
  method ReadStream<S>(init: S, chunks: seq<string>, aborted: nat -> bool, decode: Decoder, handle: Handler<S>)
    returns (p: Progress<S>, read: nat)
    ensures read <= |chunks|
    ensures p == HandleAll(Going(init), Events(Lines(Flatten(chunks[..read])), decode), handle)
    ensures p.Going? ==> read == |chunks| || (read > 0 && aborted(read - 1))
    ensures forall i :: 0 <= i < read - 1 ==> !aborted(i)
  {
    hide Lines, Tail, Advanced;
    var buffer := "";
    p, read := Going(init), 0;
    while read < |chunks|
      invariant read <= |chunks| && p.Going?
      invariant (p, buffer) == ReadChunks(init, chunks[..read], decode, handle)
      invariant forall i :: 0 <= i < read ==> !aborted(i)
    {
      ReadOneMore(init, chunks, read, decode, handle);
      AdvancedSplits(p, buffer, chunks[read], decode, handle);
      var lines := Split(buffer + chunks[read]);
      buffer := lines[|lines| - 1];
      lines := lines[..|lines| - 1];
      p := HandleLines(p, lines, decode, handle);
      read := read + 1;
      if p.Failed? || aborted(read - 1) { break; }
    }
    ReadingIgnoresCuts(init, chunks[..read], decode, handle);
  }

  /** The inner loop over the lines of one chunk. */
  method HandleLines<S>(start: Progress<S>, lines: seq<string>, decode: Decoder, handle: Handler<S>) returns (p: Progress<S>)
    requires start.Going?
    ensures p == HandleAll(start, Events(lines, decode), handle)
  {
    p := start;
    for i := 0 to |lines|
      invariant p.Going? && p == HandleAll(start, Events(lines[..i], decode), handle)
    {
      var event := ParseLine(lines[i], decode);
      assert lines[..i + 1][..i] == lines[..i];
      ghost var done := Events(lines[..i], decode);
      assert done + [] == done;
      if event.None? { continue; }
      assert (done + [event.value])[..|done|] == done;
      p := handle(p.state, event.value);
      if p.Failed? {
        StoppedInside(start, lines, i, p, decode, handle);
        return;
      }
    }
    assert lines[..|lines|] == lines;
  }

  lemma StoppedInside<S>(before: Progress<S>, lines: seq<string>, i: nat, p: Progress<S>, decode: Decoder, handle: Handler<S>)
    requires i < |lines| && p.Failed? && p == HandleAll(before, Events(lines[..i + 1], decode), handle)
    ensures p == HandleAll(before, Events(lines, decode), handle)
  {
    var a, b := lines[..i + 1], lines[i + 1..];
    assert lines == a + b;
    EventsConcat(a, b, decode);
    HandleAllConcat(before, Events(a, decode), Events(b, decode), handle);
    HandleFailed(p, Events(b, decode), handle);
  }
}
