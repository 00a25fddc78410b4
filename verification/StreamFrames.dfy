/** What frames say: the payload of their first data line. A stream written as one data line an event
    is reported event by event. */
module StreamFrames {
  import opened CopilotStream
  import opened Splitting
  import opened Text
  import opened Wrappers

  // ---------------------------------------------------------------------------------------------
  // One frame

  /** Lines of a frame, none of which carries data. */
  ghost predicate Preamble(lines: seq<string>) {
    forall l :: l in lines ==> !HasPrefix(l, "data:") && Free(l, '\n')
  }

  lemma {:induction false} FirstDataIs(before: seq<string>, line: string, after: seq<string>)
    requires Preamble(before) && HasPrefix(line, "data:")
    ensures FirstData(before + [line] + after) == [line]
  {
    var lines := before + [line] + after;
    if before != [] {
      assert lines[0] == before[0] && before[0] in before;
      assert lines[1..] == before[1..] + [line] + after;
      FirstDataIs(before[1..], line, after);
    }
  }

  lemma {:induction false} NoData(lines: seq<string>)
    requires Preamble(lines)
    ensures FirstData(lines) == []
  {
    if lines != [] {
      assert lines[0] in lines;
      NoData(lines[1..]);
    }
  }

  function DataLine(a: string, p: string, b: string): string {
    "data:" + a + p + b
  }

  lemma DataLineReads(a: string, p: string, b: string)
    requires AllSpaces(a) && AllSpaces(b) && Trimmed(p) && Free(a, '\n') && Free(p, '\n') && Free(b, '\n')
    ensures var line := DataLine(a, p, b); HasPrefix(line, "data:") && Trim(line[5..]) == p && Free(line, '\n')
  {
    hide IsSpace, AllSpaces;
    var line := DataLine(a, p, b);
    assert line[..5] == "data:" && line[5..] == a + p + b;
    TrimAround(a, p, b);
  }

  /** A frame means the payload of its first data line, without the white space around it, whatever
      lines stand before and behind. */
  lemma FrameReads(before: seq<string>, a: string, p: string, b: string, after: seq<string>, parse: JsonParser)
    requires Preamble(before) && forall l :: l in after ==> Free(l, '\n')
    requires AllSpaces(a) && AllSpaces(b) && Trimmed(p) && Free(a, '\n') && Free(p, '\n') && Free(b, '\n')
    ensures ReadFrame(Join(before + ["data:" + a + p + b] + after, "\n"), parse) == parse(p)
  {
    hide IsSpace, AllSpaces, Split, Join, Free, Trim, HasPrefix, FirstData;
    var line := DataLine(a, p, b);
    DataLineReads(a, p, b);
    FirstDataIs(before, line, after);
    assert forall l :: l in before + [line] + after ==> Free(l, '\n');
    FreePiecesComeBack(before + [line] + after, '\n');
  }

  /** A frame without a data line is skipped. */
  lemma FrameWithoutData(lines: seq<string>, parse: JsonParser)
    requires lines != [] && Preamble(lines)
    ensures ReadFrame(Join(lines, "\n"), parse) == Malformed
  {
    hide Split, Join, Free, HasPrefix, FirstData;
    NoData(lines);
    FreePiecesComeBack(lines, '\n');
  }

  // ---------------------------------------------------------------------------------------------
  // A stream of events

  /** Every event is written as one line that reads back. */
  ghost predicate Encodes(encode: Event -> string, parse: JsonParser) {
    forall e :: parse(encode(e)) == Parsed(e) && Trimmed(encode(e)) && Free(encode(e), '\n')
  }

  /** The stream as the relay writes it. */
  function Written(es: seq<Event>, encode: Event -> string): string {
    if es == [] then "" else "data: " + encode(es[0]) + "\n\n" + Written(es[1..], encode)
  }

  /** The first `n` events are all, or those up to the first `done`. */
  ghost predicate UpToDone(es: seq<Event>, n: nat) {
    && n <= |es|
    && (forall i :: 0 <= i < n - 1 ==> !(es[i].Event? && es[i].kind == "done"))
    && (n < |es| ==> n > 0 && es[n - 1].Event? && es[n - 1].kind == "done")
  }

  lemma {:induction false} NoBreakInLine(p: string)
    requires Free(p, '\n')
    ensures LeftmostCut(p, SEPARATOR)
  {
    assert SEPARATOR[..1] == "\n";
    if p == "" {
      TooShortToOccur(SEPARATOR, "" + "\n");
    } else {
      NoBreakInLine(p[1..]);
      assert (p + "\n")[1..] == p[1..] + "\n";
      assert (p + "\n")[0] != '\n';
    }
  }

  lemma WrittenLine(e: Event, encode: Event -> string, parse: JsonParser)
    requires Encodes(encode, parse)
    ensures var line := "data: " + encode(e); Free(line, '\n') && ReadFrame(line, parse) == Parsed(e)
  {
    hide Split, Join, ReadFrame, Trimmed;
    var line := "data:" + " " + encode(e) + "";
    assert line == "data: " + encode(e);
    FrameReads([], " ", encode(e), "", [], parse);
    assert [] + [line] + [] == [line];
    assert Join([line], "\n") == line by { OnePiece(line); }
  }

  lemma OnePiece(line: string)
    ensures Join([line], "\n") == line
  {
  }

  lemma {:induction false} FramesOfWritten(es: seq<Event>, tail: string, encode: Event -> string, parse: JsonParser)
    requires Encodes(encode, parse) && !Occurs("\n\n", tail)
    ensures var frames := Frames(Written(es, encode) + tail);
            |frames| == |es| && forall i :: 0 <= i < |es| ==> ReadFrame(frames[i], parse) == Parsed(es[i])
  {
    hide Split, ReadFrame, Encodes, Occurs;
    if es == [] {
      CleanIsWhole(tail, SEPARATOR);
      assert "" + tail == tail;
    } else {
      var line, rest := "data: " + encode(es[0]), Written(es[1..], encode) + tail;
      WrittenLine(es[0], encode, parse);
      NoBreakInLine(line);
      CutAtFirst(line, rest, SEPARATOR);
      FramesOfWritten(es[1..], tail, encode, parse);
      assert Written(es, encode) + tail == line + SEPARATOR + rest;
      assert Init([line] + Split(rest, SEPARATOR)) == [line] + Frames(rest);
    }
  }

  lemma {:induction false} DeliveredAre(frames: seq<string>, es: seq<Event>, n: nat, parse: JsonParser)
    requires |frames| == |es| && forall i :: 0 <= i < |es| ==> ReadFrame(frames[i], parse) == Parsed(es[i])
    requires UpToDone(es, n)
    ensures Delivered(frames, parse) == es[..n]
  {
    hide ReadFrame;
    if es != [] && n > 0 {
      if !IsDone(es[0]) {
        assert forall i :: 0 <= i < |es| - 1 ==> es[1..][i] == es[i + 1] && frames[1..][i] == frames[i + 1];
        DeliveredAre(frames[1..], es[1..], n - 1, parse);
      }
      assert es[..n] == [es[0]] + es[1..][..n - 1];
    }
  }

  /** Whatever the chunks of a written stream are, the events are reported in order up to the first
      `done`, and then that the stream is done, or that it failed if the reader does before any
      `done`. A frame left unfinished at the end is dropped. */
  lemma StreamIsReported(es: seq<Event>, n: nat, tail: string, encode: Event -> string, parse: JsonParser,
                         chunks: seq<string>, ending: Ending)
    requires Encodes(encode, parse) && UpToDone(es, n)
    requires Concat(chunks) == Written(es, encode) + tail && !Occurs("\n\n", tail)
    ensures Run(Body(chunks, ending), parse, Off)
         == seq(n, i requires 0 <= i < n => OnEvent(es[i]))
          + if (n > 0 && es[n - 1].Event? && es[n - 1].kind == "done") || ending == Finished then [OnDone]
            else
              var f := ending.failure;
              [OnError(f.text), OnEvent(Event("error", if f.isError then f.text else "Stream failed", None)), OnDone]
  {
    hide ReadFrame, Encodes, Delivered, Frames, Finishes, Written, Occurs;
    FramesOfWritten(es, tail, encode, parse);
    var frames := Frames(Written(es, encode) + tail);
    DeliveredAre(frames, es, n, parse);
    DoneIsDeliveredLast(frames, parse);
    assert Events(es[..n]) == seq(n, i requires 0 <= i < n => OnEvent(es[i]));
  }

  /** What cannot be read at all is reported with its status or its reason. */
  lemma FailuresAreReported(status: int, text: string, parse: JsonParser)
    ensures var message := "Copilot HTTP " + Print(status);
            Run(Rejected(status), parse, Off) == [OnError(message), OnEvent(Event("error", message, None)), OnDone]
    ensures Run(FetchFailed(Failure(true, text)), parse, Off)
         == [OnError(text), OnEvent(Event("error", text, None)), OnDone]
    ensures Run(FetchFailed(Failure(false, text)), parse, Off)
         == [OnError(text), OnEvent(Event("error", "Stream failed", None)), OnDone]
  {
  }

  /** A demonstration of two words and a citation. */
  lemma SmallDemo(parse: JsonParser)
    ensures Run(FetchFailed(Failure(true, "x")), parse, On("Hi you", [Citation("i", "t", "r", "l")], 3)) ==
            [OnEvent(Event("token", "Hi", None)), OnEvent(Event("token", " ", None)),
             OnEvent(Event("token", "you", None)),
             OnEvent(Event("citation", "l", Some(map["id" := "i", "type" := "t", "ref" := "r"]))),
             OnEvent(Event("done", "", None)), OnDone]
  {
    hide Tokens, IsSpace, Spoken;
    var tokens, citation := ["Hi", " ", "you"], Citation("i", "t", "r", "l");
    ThreeTokens();
    assert TokenEvents(tokens) == [TokenEvent("Hi"), TokenEvent(" "), TokenEvent("you")];
    assert CitationEvents([citation]) == [CitationEvent(citation)];
  }

  lemma ThreeTokens()
    ensures Tokens("Hi you") == ["Hi", " ", "you"]
  {
    hide Tokens;
    var tokens := ["Hi", " ", "you"];
    assert tokens[1..] == [" ", "you"] && tokens[1..][1..] == ["you"] && tokens[1..][1..][1..] == [];
    assert Concat(["you"]) == "you" && Concat([" ", "you"]) == " you";
    assert Concat(tokens) == "Hi you";
    TokensAreDetermined(tokens);
  }
}
