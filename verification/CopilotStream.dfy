/** The streaming client: reading chunks, cutting them into frames, and reporting to callbacks. */
module CopilotStream {
  import opened Splitting
  import opened Text
  import opened Wrappers

  /** A parsed frame. `JsonNull` is the one JSON value without a `type`: it is delivered, and the
      failed look at its `type` is swallowed. */
  datatype Event = JsonNull | Event(kind: string, data: string, meta: Option<map<string, string>>)

  /** What `JSON.parse` makes of a text: an exception or a value. */
  datatype Json = Malformed | Parsed(event: Event)

  type JsonParser = string -> Json

  datatype Callback = OnEvent(event: Event) | OnDone | OnError(message: string)

  /** A thrown value: an `Error` with its message, or something else with its text. */
  datatype Failure = Failure(isError: bool, text: string)

  /** How the reader ends, after the chunks it yields. */
  datatype Ending = Finished | Failed(failure: Failure)

  /** What `fetch` resolves to: a failure, a response without success or body, or a body. */
  datatype Response = FetchFailed(failure: Failure) | Rejected(status: int) | Body(chunks: seq<string>, ending: Ending)

  datatype Citation = Citation(id: string, kind: string, ref: string, text: string)

  /** The built-in demonstration answer, and after how many tokens the signal is seen aborted. */
  datatype Demo = Off | On(text: string, citations: seq<Citation>, abortedAfter: nat)

  const SEPARATOR := "\n\n"

  // ---------------------------------------------------------------------------------------------
  // Frames

  /** The first line of a frame that carries data. */
  function FirstData(lines: seq<string>): (r: seq<string>)
    ensures |r| <= 1
  {
    if lines == [] then []
    else if HasPrefix(lines[0], "data:") then [lines[0]]
    else FirstData(lines[1..])
  }

  function ReadFrame(frame: string, parse: JsonParser): Json {
    var line := FirstData(Split(frame, "\n"));
    if line == [] then Malformed else
      assert |line[0]| >= 5 by { FirstDataIsData(Split(frame, "\n")); }
      parse(Trim(line[0][5..]))
  }

  lemma FirstDataIsData(lines: seq<string>)
    ensures FirstData(lines) != [] ==> HasPrefix(FirstData(lines)[0], "data:")
  {
  }

  predicate IsDone(e: Event) {
    e.Event? && e.kind == "done"
  }

  /** The events of the readable frames in order, up to the first `done`. */
  function Delivered(frames: seq<string>, parse: JsonParser): seq<Event> {
    if frames == [] then []
    else
      match ReadFrame(frames[0], parse)
      case Malformed => Delivered(frames[1..], parse)
      case Parsed(e) => [e] + if IsDone(e) then [] else Delivered(frames[1..], parse)
  }

  /** Some readable frame is `done`. */
  predicate Finishes(frames: seq<string>, parse: JsonParser) {
    exists i :: 0 <= i < |frames| && var j := ReadFrame(frames[i], parse); j.Parsed? && IsDone(j.event)
  }

  // ---------------------------------------------------------------------------------------------
  // The whole run, from the whole text

  function Concat(chunks: seq<string>): string {
    if chunks == [] then "" else chunks[0] + Concat(chunks[1..])
  }

  function Events(es: seq<Event>): seq<Callback> {
    seq(|es|, i requires 0 <= i < |es| => OnEvent(es[i]))
  }

  /** The frames of a text: its pieces but for the unterminated tail. */
  function Frames(text: string): seq<string> {
    Init(Split(text, SEPARATOR))
  }

  function ErrorReport(f: Failure): seq<Callback> {
    [OnError(f.text), OnEvent(Event("error", if f.isError then f.text else "Stream failed", None)), OnDone]
  }

  /** How many characters `s` begins with that are white space, or that are not. */
  function RunLength(s: string, spaces: bool): (k: nat)
    ensures k <= |s|
    ensures forall i :: 0 <= i < k ==> IsSpace(s[i]) == spaces
    ensures k < |s| ==> IsSpace(s[k]) != spaces
  {
    if s != "" && IsSpace(s[0]) == spaces then 1 + RunLength(s[1..], spaces) else 0
  }

  /** `text.split(/(\s+)/)`: words and the white space between them, in turn, words at both ends. */
  function Tokens(text: string): (r: seq<string>)
    ensures r != []
    decreases |text|
  {
    var w := RunLength(text, false);
    if w == |text| then [text]
    else
      var k := w + RunLength(text[w..], true);
      assert k > w;
      [text[..w], text[w..k]] + Tokens(text[k..])
  }

  function TokenEvent(token: string): Event {
    Event("token", token, None)
  }

  function TokenEvents(tokens: seq<string>): seq<Event> {
    seq(|tokens|, i requires 0 <= i < |tokens| => TokenEvent(tokens[i]))
  }

  function CitationEvent(c: Citation): Event {
    Event("citation", c.text, Some(map["id" := c.id, "type" := c.kind, "ref" := c.ref]))
  }

  function CitationEvents(cs: seq<Citation>): seq<Event> {
    seq(|cs|, i requires 0 <= i < |cs| => CitationEvent(cs[i]))
  }

  /** The demonstration breaks off before all its tokens are out. */
  predicate CutShort(demo: Demo) {
    demo.On? && demo.abortedAfter < |Tokens(demo.text)|
  }

  function DemoReport(demo: Demo): seq<Callback>
    requires demo.On?
  {
    var tokens := Tokens(demo.text);
    if CutShort(demo) then Events(TokenEvents(tokens[..demo.abortedAfter]))
    else
      Events(TokenEvents(tokens)) + Events(CitationEvents(demo.citations)) + [OnEvent(Event("done", "", None)), OnDone]
  }

  function FailureReport(f: Failure, demo: Demo): seq<Callback> {
    if demo.On? then DemoReport(demo) else ErrorReport(f)
  }

  function HttpFailure(status: int): Failure {
    Failure(true, "Copilot HTTP " + Print(status))
  }

  /** The callbacks of a run, in order. A body counts only as one text. */
  function Run(response: Response, parse: JsonParser, demo: Demo): seq<Callback> {
    match response
    case FetchFailed(f) => FailureReport(f, demo)
    case Rejected(status) => FailureReport(HttpFailure(status), demo)
    case Body(chunks, ending) =>
      var frames := Frames(Concat(chunks));
      Events(Delivered(frames, parse)) +
      if Finishes(frames, parse) || ending == Finished then [OnDone]
      else FailureReport(ending.failure, demo)
  }

  // ---------------------------------------------------------------------------------------------
  // The client, chunk by chunk

  /** The caller's handlers, recording their calls. */
  class Listener {
    var log: seq<Callback>

    method Call(c: Callback)
      modifies this
      ensures log == old(log) + [c]
    {
      log := log + [c];
    }
  }

  lemma {:induction false} DeliveredSplits(a: seq<string>, b: seq<string>, parse: JsonParser)
    ensures Delivered(a + b, parse) == Delivered(a, parse) + if Finishes(a, parse) then [] else Delivered(b, parse)
    ensures Finishes(a + b, parse) <==> Finishes(a, parse) || Finishes(b, parse)
  {
    hide ReadFrame;
    FinishesSplits(a, b, parse);
    if a == [] {
      assert a + b == b;
    } else {
      assert (a + b)[1..] == a[1..] + b;
      FinishesSplits(a[..1], a[1..], parse);
      assert a == a[..1] + a[1..];
      DeliveredSplits(a[1..], b, parse);
    }
  }

  lemma FinishesSplits(a: seq<string>, b: seq<string>, parse: JsonParser)
    ensures Finishes(a + b, parse) <==> Finishes(a, parse) || Finishes(b, parse)
  {
    hide ReadFrame;
    if Finishes(a, parse) {
      var i :| 0 <= i < |a| && var j := ReadFrame(a[i], parse); j.Parsed? && IsDone(j.event);
      assert (a + b)[i] == a[i];
    }
    if Finishes(b, parse) {
      var i :| 0 <= i < |b| && var j := ReadFrame(b[i], parse); j.Parsed? && IsDone(j.event);
      assert (a + b)[|a| + i] == b[i];
    }
  }

  lemma {:induction false} ConcatSplits(a: seq<string>, b: seq<string>)
    ensures Concat(a + b) == Concat(a) + Concat(b)
  {
    if a == [] {
      assert a + b == b;
    } else {
      assert (a + b)[1..] == a[1..] + b;
      ConcatSplits(a[1..], b);
    }
  }

  lemma EventsSplit(a: seq<Event>, b: seq<Event>)
    ensures Events(a + b) == Events(a) + Events(b)
  {
  }

  /** What is known after some chunks settles what they deliver in the whole text. */
  lemma FramesExtend(text: string, more: string)
    ensures Frames(text + more) == Frames(text) + Frames(Last(Split(text, SEPARATOR)) + more)
  {
    hide Split;
    var tail := Last(Split(text, SEPARATOR));
    SplitExtends(text, more, SEPARATOR);
    var xs, ys := Init(Split(text, SEPARATOR)), Split(tail + more, SEPARATOR);
    assert Init(xs + ys) == xs + Init(ys);
  }

  lemma EventsExtend(a: seq<Event>, e: Event)
    ensures Events(a + [e]) == Events(a) + [OnEvent(e)]
  {
  }

  lemma OneFrame(frame: string, parse: JsonParser)
    ensures Delivered([frame], parse) == match ReadFrame(frame, parse) case Malformed => [] case Parsed(e) => [e]
    ensures Finishes([frame], parse) <==> ReadFrame(frame, parse).Parsed? && IsDone(ReadFrame(frame, parse).event)
  {
    hide ReadFrame;
    assert [frame][1..] == [];
    assert [frame][0] == frame;
  }

  /** What one more frame adds to the frames before it, none of which is `done`. */
  lemma DeliverNext(frames: seq<string>, i: nat, parse: JsonParser)
    requires i < |frames| && !Finishes(frames[..i], parse)
    ensures match ReadFrame(frames[i], parse)
            case Malformed => Delivered(frames[..i + 1], parse) == Delivered(frames[..i], parse)
              && !Finishes(frames[..i + 1], parse)
            case Parsed(e) =>
              && Delivered(frames[..i + 1], parse) == Delivered(frames[..i], parse) + [e]
              && (Finishes(frames[..i + 1], parse) <==> IsDone(e))
              && (IsDone(e) ==>
                  Finishes(frames, parse) && Delivered(frames, parse) == Delivered(frames[..i + 1], parse))
  {
    hide ReadFrame, Delivered, Finishes;
    var next := [frames[i]];
    assert frames[..i + 1] == frames[..i] + next;
    assert frames == frames[..i + 1] + frames[i + 1..];
    DeliveredSplits(frames[..i], next, parse);
    DeliveredSplits(frames[..i + 1], frames[i + 1..], parse);
    OneFrame(frames[i], parse);
  }

  /** Delivers the frames one by one; says whether `done` was among them. */
  method DeliverFrames(frames: seq<string>, parse: JsonParser, listener: Listener) returns (done: bool)
    modifies listener
    ensures done <==> Finishes(frames, parse)
    ensures listener.log == old(listener.log) + Events(Delivered(frames, parse)) + if done then [OnDone] else []
  {
    hide ReadFrame, Delivered, Finishes, Events;
    done := false;
    var i := 0;
    NothingDelivered(parse);
    while i < |frames|
      invariant 0 <= i <= |frames|
      invariant !Finishes(frames[..i], parse)
      invariant listener.log == old(listener.log) + Events(Delivered(frames[..i], parse))
    {
      DeliverNext(frames, i, parse);
      match ReadFrame(frames[i], parse) {
        case Malformed =>
        case Parsed(e) =>
          EventsExtend(Delivered(frames[..i], parse), e);
          listener.Call(OnEvent(e));
          if IsDone(e) {
            listener.Call(OnDone);
            return true;
          }
      }
      i := i + 1;
    }
    assert frames[..i] == frames;
  }

  method Simulate(demo: Demo, listener: Listener)
    requires demo.On?
    modifies listener
    ensures listener.log == old(listener.log) + DemoReport(demo)
  {
    hide Tokens, TokenEvent, CitationEvent;
    var tokens := Tokens(demo.text);
    var i := 0;
    while i < |tokens|
      invariant 0 <= i <= |tokens| && i <= demo.abortedAfter
      invariant listener.log == old(listener.log) + Events(TokenEvents(tokens[..i]))
    {
      if i == demo.abortedAfter { return; }
      assert TokenEvents(tokens[..i + 1]) == TokenEvents(tokens[..i]) + [TokenEvent(tokens[i])];
      EventsSplit(TokenEvents(tokens[..i]), [TokenEvent(tokens[i])]);
      listener.Call(OnEvent(TokenEvent(tokens[i])));
      i := i + 1;
    }
    assert tokens[..i] == tokens;
    var cs := demo.citations;
    var j := 0;
    while j < |cs|
      invariant 0 <= j <= |cs|
      invariant listener.log == old(listener.log) + Events(TokenEvents(tokens)) + Events(CitationEvents(cs[..j]))
    {
      assert CitationEvents(cs[..j + 1]) == CitationEvents(cs[..j]) + [CitationEvent(cs[j])];
      EventsSplit(CitationEvents(cs[..j]), [CitationEvent(cs[j])]);
      listener.Call(OnEvent(CitationEvent(cs[j])));
      j := j + 1;
    }
    assert cs[..j] == cs;
    listener.Call(OnEvent(Event("done", "", None)));
    listener.Call(OnDone);
  }

  method ReportFailure(f: Failure, demo: Demo, listener: Listener)
    modifies listener
    ensures listener.log == old(listener.log) + FailureReport(f, demo)
  {
    if demo.On? {
      Simulate(demo, listener);
    } else {
      listener.Call(OnError(f.text));
      listener.Call(OnEvent(Event("error", if f.isError then f.text else "Stream failed", None)));
      listener.Call(OnDone);
    }
  }

  /** The read loop: false if the reader failed before any `done`. */
  method ReadBody(chunks: seq<string>, ending: Ending, parse: JsonParser, listener: Listener) returns (ok: bool)
    modifies listener
    ensures ok <==> Finishes(Frames(Concat(chunks)), parse) || ending == Finished
    ensures listener.log
         == old(listener.log) + Events(Delivered(Frames(Concat(chunks)), parse)) + if ok then [OnDone] else []
  {
    hide Split, ReadFrame, Occurs, Delivered, Finishes, Events;
    var buffer := "";
    ghost var frames: seq<string> := [];
    var i := 0;
    EmptyIsWhole(SEPARATOR);
    TooShortToOccur(SEPARATOR, buffer);
    NothingDelivered(parse);
    while i < |chunks|
      invariant 0 <= i <= |chunks|
      invariant Split(Concat(chunks[..i]), SEPARATOR) == frames + [buffer]
      invariant !Occurs(SEPARATOR, buffer)
      invariant !Finishes(frames, parse)
      invariant listener.log == old(listener.log) + Events(Delivered(frames, parse))
    {
      StepThroughChunk(chunks, i, frames, buffer);
      var events := Split(buffer + chunks[i], SEPARATOR);
      buffer := Last(events);
      events := Init(events);
      DeliveredSplits(frames, events, parse);
      EventsSplit(Delivered(frames, parse), Delivered(events, parse));
      var done := DeliverFrames(events, parse, listener);
      frames := frames + events;
      if done {
        EarlyFramesDecide(chunks, i + 1, frames, buffer, parse);
        return true;
      }
      i := i + 1;
    }
    assert chunks[..i] == chunks;
    assert Frames(Concat(chunks)) == frames;
    if ending == Finished {
      listener.Call(OnDone);
    }
    ok := ending == Finished;
  }

  /** The callbacks depend on the chunks only through the text they add up to: however the network
      cuts it, the run reports what one pass over the whole text would. */
  method StreamCopilot(response: Response, parse: JsonParser, demo: Demo, listener: Listener)
    modifies listener
    ensures listener.log == old(listener.log) + Run(response, parse, demo)
  {
    hide Frames, Delivered, Finishes, Events, Print, FailureReport;
    match response
    case FetchFailed(f) =>
      ReportFailure(f, demo, listener);
    case Rejected(status) =>
      ReportFailure(HttpFailure(status), demo, listener);
    case Body(chunks, ending) =>
      var ok := ReadBody(chunks, ending, parse, listener);
      if !ok {
        ReportFailure(ending.failure, demo, listener);
      }
  }

  lemma NothingDelivered(parse: JsonParser)
    ensures Delivered([], parse) == [] && Events([]) == [] && !Finishes([], parse)
  {
  }

  /** Reading one more chunk extends the frames by those completed in buffer and chunk. */
  lemma StepThroughChunk(chunks: seq<string>, i: nat, frames: seq<string>, buffer: string)
    requires i < |chunks| && Split(Concat(chunks[..i]), SEPARATOR) == frames + [buffer]
    ensures var events := Split(buffer + chunks[i], SEPARATOR);
            && Split(Concat(chunks[..i + 1]), SEPARATOR) == frames + Init(events) + [Last(events)]
            && !Occurs(SEPARATOR, Last(events))
  {
    hide Split, Occurs;
    assert chunks[..i + 1] == chunks[..i] + [chunks[i]];
    ConcatSplits(chunks[..i], [chunks[i]]);
    assert Concat([chunks[i]]) == chunks[i];
    SplitExtends(Concat(chunks[..i]), chunks[i], SEPARATOR);
    PiecesAreClean(buffer + chunks[i], SEPARATOR);
    assert Init(frames + [buffer]) == frames;
  }

  /** Once `done` is among the frames of the first chunks, the rest adds nothing. */
  lemma EarlyFramesDecide(chunks: seq<string>, i: nat, frames: seq<string>, buffer: string, parse: JsonParser)
    requires i <= |chunks| && Split(Concat(chunks[..i]), SEPARATOR) == frames + [buffer]
    requires Finishes(frames, parse)
    ensures Finishes(Frames(Concat(chunks)), parse)
    ensures Delivered(Frames(Concat(chunks)), parse) == Delivered(frames, parse)
  {
    hide Split, Delivered, Finishes;
    assert chunks == chunks[..i] + chunks[i..];
    ConcatSplits(chunks[..i], chunks[i..]);
    FramesExtend(Concat(chunks[..i]), Concat(chunks[i..]));
    assert Frames(Concat(chunks[..i])) == frames;
    DeliveredSplits(frames, Frames(buffer + Concat(chunks[i..])), parse);
  }

  // ---------------------------------------------------------------------------------------------
  // The protocol of the callbacks

  /** The run ends in the handler of thrown errors. */
  predicate Fails(response: Response, parse: JsonParser) {
    match response
    case FetchFailed(_) => true
    case Rejected(_) => true
    case Body(chunks, ending) => ending.Failed? && !Finishes(Frames(Concat(chunks)), parse)
  }

  /** `OnDone` is called once, and nothing is called after it. */
  ghost predicate EndsWithOneDone(log: seq<Callback>) {
    log != [] && Last(log) == OnDone && forall i :: 0 <= i < |log| - 1 ==> log[i] != OnDone
  }

  /** `done` can only be the last event delivered, and it is exactly when a frame says so. */
  lemma {:induction false} DoneIsDeliveredLast(frames: seq<string>, parse: JsonParser)
    ensures var es := Delivered(frames, parse);
            && (forall i :: 0 <= i < |es| - 1 ==> !IsDone(es[i]))
            && (Finishes(frames, parse) <==> es != [] && IsDone(Last(es)))
  {
    hide ReadFrame;
    if frames != [] {
      DoneIsDeliveredLast(frames[1..], parse);
      assert frames == frames[..1] + frames[1..];
      FinishesSplits(frames[..1], frames[1..], parse);
    }
  }

  /** Outside the demonstration every run calls `OnDone` once, last; it reports an error exactly
      when it fails, after all events already delivered and directly before that `OnDone`. */
  lemma RunProtocol(response: Response, parse: JsonParser)
    ensures var log := Run(response, parse, Off);
            && EndsWithOneDone(log)
            && (Fails(response, parse) <==> exists i :: 0 <= i < |log| && log[i].OnError?)
            && (Fails(response, parse) ==>
                |log| >= 3 && log[|log| - 3].OnError? && log[|log| - 2].OnEvent? && log[|log| - 2].event.Event?
                && log[|log| - 2].event.kind == "error"
                && forall i :: 0 <= i < |log| - 3 ==> log[i].OnEvent?)
  {
    hide Delivered, Finishes, Frames;
    var log := Run(response, parse, Off);
    if Fails(response, parse) {
      assert log[|log| - 3].OnError?;
    }
  }

  /** In the demonstration an aborted failing run never calls `OnDone`; every other run does, once
      and last. */
  lemma DemoProtocol(response: Response, parse: JsonParser, demo: Demo)
    requires demo.On?
    ensures EndsWithOneDone(Run(response, parse, demo)) <==> !(Fails(response, parse) && CutShort(demo))
  {
    hide Delivered, Finishes, Frames, Tokens;
    var log := Run(response, parse, demo);
    if Fails(response, parse) && CutShort(demo) {
      assert forall i :: 0 <= i < |log| ==> log[i] != OnDone;
    }
  }

  /** A demonstration aborted at the outset reports nothing at all. */
  lemma AbortedDemoIsSilent(f: Failure, parse: JsonParser, text: string, citations: seq<Citation>)
    ensures Run(FetchFailed(f), parse, On(text, citations, 0)) == []
  {
    hide Tokens;
  }

  // ---------------------------------------------------------------------------------------------
  // The tokens of the demonstration

  /** Words without white space, and runs of white space between them, in turn; only the first and
      the last word may be empty. */
  ghost predicate Alternates(ts: seq<string>) {
    && |ts| % 2 == 1
    && (forall i :: 0 <= i < |ts| && i % 2 == 0 ==> forall c :: c in ts[i] ==> !IsSpace(c))
    && (forall i :: 0 <= i < |ts| && i % 2 == 1 ==> ts[i] != "" && forall c :: c in ts[i] ==> IsSpace(c))
    && (forall i :: 0 < i < |ts| - 1 ==> ts[i] != "")
  }

  lemma AlternatesTail(ts: seq<string>)
    requires |ts| >= 3
    ensures Alternates(ts) <==>
            && Alternates(ts[2..]) && (forall c :: c in ts[0] ==> !IsSpace(c))
            && ts[1] != "" && (forall c :: c in ts[1] ==> IsSpace(c)) && (|ts| > 3 ==> ts[2] != "")
  {
    hide IsSpace;
    var rest := ts[2..];
    assert forall i :: 0 <= i < |rest| ==> rest[i] == ts[i + 2];
    if Alternates(rest) {
      assert forall i :: 2 <= i < |ts| ==> ts[i] == rest[i - 2] && i % 2 == (i - 2) % 2;
    }
  }

  lemma ConcatTwo(a: string, b: string, rest: seq<string>)
    ensures Concat([a, b] + rest) == a + (b + Concat(rest))
  {
    var ts := [a, b] + rest;
    assert ts[1..] == [b] + rest && ts[1..][1..] == rest;
  }

  /** The first word and the white space after it. */
  lemma TokensUnfold(text: string) returns (w: nat, k: nat)
    ensures w <= |text| && forall i :: 0 <= i < w ==> !IsSpace(text[i])
    ensures w == |text| ==> Tokens(text) == [text]
    ensures w < |text| ==> w < k <= |text| && (forall i :: w <= i < k ==> IsSpace(text[i]))
    ensures w < k < |text| ==> !IsSpace(text[k])
    ensures w < |text| ==> Tokens(text) == [text[..w], text[w..k]] + Tokens(text[k..])
  {
    hide IsSpace, RunLength;
    w := RunLength(text, false);
    k := w + RunLength(text[w..], true);
    if w < |text| {
      hide Tokens;
      RunInside(text, w, k - w, true);
    }
  }

  /** A run at the start of a suffix, seen in the whole. */
  lemma RunInside(s: string, w: nat, n: nat, spaces: bool)
    requires w <= |s| && n == RunLength(s[w..], spaces)
    ensures w + n <= |s| && (forall i :: w <= i < w + n ==> IsSpace(s[i]) == spaces)
    ensures w + n < |s| ==> IsSpace(s[w + n]) != spaces
  {
    hide IsSpace, RunLength;
    assert forall i :: w <= i < |s| ==> s[i] == s[w..][i - w];
  }

  /** Cutting loses nothing. */
  lemma {:induction false} TokensJoin(text: string)
    ensures Concat(Tokens(text)) == text
    decreases |text|
  {
    hide IsSpace, Tokens;
    var w, k := TokensUnfold(text);
    if w == |text| {
      assert [text][1..] == [];
    } else {
      TokensJoin(text[k..]);
      ConcatTwo(text[..w], text[w..k], Tokens(text[k..]));
      assert text == text[..w] + (text[w..k] + text[k..]);
    }
  }

  /** The pieces alternate. */
  lemma {:induction false} TokensAlternate(text: string)
    ensures Alternates(Tokens(text))
    decreases |text|
  {
    hide IsSpace, Alternates, Tokens;
    var w, k := TokensUnfold(text);
    if w == |text| {
      WordAlternates(text);
    } else {
      var rest := Tokens(text[k..]);
      var ts := [text[..w], text[w..k]] + rest;
      TokensAlternate(text[k..]);
      assert ts[2..] == rest;
      if |rest| > 1 {
        FirstTokenIsWord(text[k..]);
      }
      AlternatesTail(ts);
    }
  }

  lemma WordAlternates(word: string)
    requires forall i :: 0 <= i < |word| ==> !IsSpace(word[i])
    ensures Alternates([word])
  {
    hide IsSpace;
  }

  /** A text that does not start with white space starts with a word. */
  lemma FirstTokenIsWord(text: string)
    requires |Tokens(text)| > 1
    ensures text != "" && (!IsSpace(text[0]) ==> Tokens(text)[0] != "")
  {
    hide IsSpace, Tokens;
    var w, k := TokensUnfold(text);
  }

  lemma RunEndIsUnique(s: string, start: nat, a: nat, b: nat, spaces: bool)
    requires start <= a <= |s| && start <= b <= |s|
    requires (forall i :: start <= i < a ==> IsSpace(s[i]) == spaces) && (a < |s| ==> IsSpace(s[a]) != spaces)
    requires (forall i :: start <= i < b ==> IsSpace(s[i]) == spaces) && (b < |s| ==> IsSpace(s[b]) != spaces)
    ensures a == b
  {
    hide IsSpace;
  }

  lemma TokensOfWord(word: string)
    requires forall c :: c in word ==> !IsSpace(c)
    ensures Tokens(word) == [word]
  {
    hide IsSpace, Tokens;
    var w, k := TokensUnfold(word);
    RunEndIsUnique(word, 0, w, |word|, false);
  }

  /** Where a word, the white space after it and the rest lie in their concatenation. */
  lemma PartsOf(word: string, spaces: string, rest: string)
    requires (forall c :: c in word ==> !IsSpace(c)) && (forall c :: c in spaces ==> IsSpace(c))
    ensures var text, m, n := word + (spaces + rest), |word|, |word| + |spaces|;
            && text[..m] == word && text[m..n] == spaces && text[n..] == rest
            && (forall i :: 0 <= i < m ==> !IsSpace(text[i])) && (forall i :: m <= i < n ==> IsSpace(text[i]))
  {
    hide IsSpace;
    var text, m, n := word + (spaces + rest), |word|, |word| + |spaces|;
    assert forall i :: 0 <= i < m ==> text[i] == word[i] && text[i] in word;
    assert forall i :: m <= i < n ==> text[i] == spaces[i - m] && text[i] in spaces;
  }

  lemma TokensOfTwo(word: string, spaces: string, rest: string)
    requires (forall c :: c in word ==> !IsSpace(c)) && spaces != "" && (forall c :: c in spaces ==> IsSpace(c))
    requires rest != "" ==> !IsSpace(rest[0])
    ensures Tokens(word + (spaces + rest)) == [word, spaces] + Tokens(rest)
  {
    hide IsSpace, Tokens;
    var text := word + (spaces + rest);
    var m, n := |word|, |word| + |spaces|;
    PartsOf(word, spaces, rest);
    var w, k := TokensUnfold(text);
    RunEndIsUnique(text, 0, w, m, false);
    assert n < |text| ==> text[n] == rest[0];
    RunEndIsUnique(text, m, k, n, true);
  }

  /** The pieces are the only ones of that kind that make up the text. */
  lemma {:induction false} TokensAreDetermined(ts: seq<string>)
    requires Alternates(ts)
    ensures Tokens(Concat(ts)) == ts
  {
    hide IsSpace, Tokens;
    if |ts| == 1 {
      assert Concat(ts) == ts[0] + Concat(ts[1..]) == ts[0];
      TokensOfWord(ts[0]);
      assert ts == [ts[0]];
    } else {
      var rest := ts[2..];
      AlternatesTail(ts);
      hide Alternates, Concat;
      TokensAreDetermined(rest);
      AfterSpaces(rest);
      assert ts == [ts[0], ts[1]] + rest;
      ConcatTwo(ts[0], ts[1], rest);
      TokensOfTwo(ts[0], ts[1], Concat(rest));
    }
  }

  /** What follows a run of white space does not go on with it. */
  lemma AfterSpaces(ts: seq<string>)
    requires Alternates(ts) && (|ts| > 1 ==> ts[0] != "")
    ensures Concat(ts) != "" ==> !IsSpace(Concat(ts)[0])
  {
    hide IsSpace;
    if |ts| == 1 {
      assert Concat(ts) == ts[0] + Concat(ts[1..]) == ts[0];
    }
    if ts[0] != "" {
      assert Concat(ts)[0] == ts[0][0] && ts[0][0] in ts[0];
    }
  }

  lemma ConcatIsPrefix(ts: seq<string>, k: nat)
    requires k <= |ts|
    ensures Concat(ts[..k]) <= Concat(ts)
  {
    assert ts == ts[..k] + ts[k..];
    ConcatSplits(ts[..k], ts[k..]);
  }

  /** The tokens that the demonstration reports. */
  function Spoken(log: seq<Callback>): string {
    if log == [] then ""
    else (if log[0].OnEvent? && log[0].event.Event? && log[0].event.kind == "token" then log[0].event.data else "")
         + Spoken(log[1..])
  }

  /** The demonstration speaks its text: all of it, or where it is cut short what the first tokens
      make up. */
  lemma DemoSpeaksItsText(demo: Demo)
    requires demo.On?
    ensures Spoken(DemoReport(demo)) <= demo.text
    ensures Spoken(DemoReport(demo))
         == if CutShort(demo) then Concat(Tokens(demo.text)[..demo.abortedAfter]) else demo.text
  {
    hide Tokens, Spoken, Concat;
    var tokens := Tokens(demo.text);
    TokensJoin(demo.text);
    if CutShort(demo) {
      SpokenTokens(tokens[..demo.abortedAfter], []);
      assert DemoReport(demo) == DemoReport(demo) + [];
      ConcatIsPrefix(tokens, demo.abortedAfter);
      NothingSpoken([]);
    } else {
      var rest := Events(CitationEvents(demo.citations)) + [OnEvent(Event("done", "", None)), OnDone];
      SpokenTokens(tokens, rest);
      NothingSpoken(rest);
      assert DemoReport(demo) == Events(TokenEvents(tokens)) + rest;
    }
  }

  lemma SpokenOne(token: string, log: seq<Callback>)
    ensures Spoken([OnEvent(TokenEvent(token))] + log) == token + Spoken(log)
  {
    assert ([OnEvent(TokenEvent(token))] + log)[1..] == log;
  }

  lemma {:induction false} SpokenTokens(tokens: seq<string>, rest: seq<Callback>)
    ensures Spoken(Events(TokenEvents(tokens)) + rest) == Concat(tokens) + Spoken(rest)
  {
    hide Spoken, TokenEvent;
    if tokens == [] {
      assert Events(TokenEvents(tokens)) + rest == rest;
    } else {
      var after := Events(TokenEvents(tokens[1..])) + rest;
      SpokenTokens(tokens[1..], rest);
      SpokenOne(tokens[0], after);
      assert Events(TokenEvents(tokens)) + rest == [OnEvent(TokenEvent(tokens[0]))] + after;
      assert Concat(tokens) + Spoken(rest) == tokens[0] + (Concat(tokens[1..]) + Spoken(rest));
    }
  }

  lemma {:induction false} NothingSpoken(log: seq<Callback>)
    requires forall c :: c in log && c.OnEvent? ==> c.event.Event? && c.event.kind != "token"
    ensures Spoken(log) == ""
  {
    if log != [] {
      assert log[0] in log;
      NothingSpoken(log[1..]);
    }
  }
}
