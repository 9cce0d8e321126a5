/** What the Server-Sent Events parser guarantees for whole bodies, and the comparison of two parsed views. */
module SseTheorems {
  import opened Prelude
  import opened TextParsing
  import opened Sse

  // ---- When parsing succeeds ----

  lemma {:induction false} ClosedGrows(lines: seq<Bytes>, included: bool, i: nat)
    requires i <= |lines|
    ensures |ClosedEvents(lines[..i], included)| <= |ClosedEvents(lines, included)|
  {
    if i == |lines| {
      assert lines[..i] == lines;
    } else {
      var front := lines[..|lines| - 1];
      assert front[..i] == lines[..i];
      ClosedGrows(front, included, i);
      hide EventOf, OpenBlock;
    }
  }

  lemma {:induction false} ClosedBounded(lines: seq<Bytes>, included: bool, i: nat)
    requires i <= Halt(lines, included, 0)
    ensures |ClosedEvents(lines[..i], included)| <= MAX_SSE_EVENTS
  {
    if i > 0 {
      ClosedBounded(lines, included, i - 1);
      assert lines[..i][..i - 1] == lines[..i - 1];
      assert !Halts(lines, included, i - 1);
    }
  }

  /** Every blank line fits: one event too many at any of them is one event too many in all. */
  lemma NoHalt(lines: seq<Bytes>, included: bool, i: nat)
    requires i < |lines| && |lines[i]| <= MAX_SSE_LINE_BYTES
    requires |BlockEvents(lines, included)| <= MAX_SSE_EVENTS
    ensures !Halts(lines, included, i)
  {
    if lines[i] == "" {
      assert lines[..i + 1][..i] == lines[..i];
      ClosedGrows(lines, included, i + 1);
    }
  }

  lemma ViewSucceedsIff(lines: seq<Bytes>, included: bool)
    ensures View(lines, included).error == None <==>
            && (forall line :: line in lines ==> |line| <= MAX_SSE_LINE_BYTES)
            && !AnyRefused(lines)
            && |BlockEvents(lines, included)| <= MAX_SSE_EVENTS
    ensures View(lines, included).error == None ==> View(lines, included).events == BlockEvents(lines, included)
    ensures |View(lines, included).events| <= MAX_SSE_EVENTS
  {
    var h := Halt(lines, included, 0);
    ClosedBounded(lines, included, h);
    if h == |lines| {
      assert lines[..h] == lines;
      forall i | 0 <= i < |lines|
        ensures |lines[i]| <= MAX_SSE_LINE_BYTES
      {
        assert !Halts(lines, included, i);
      }
    } else if |lines[h]| <= MAX_SSE_LINE_BYTES && |BlockEvents(lines, included)| <= MAX_SSE_EVENTS {
      NoHalt(lines, included, h);
    }
    hide AnyRefused, ClosedEvents, OpenBlock, DataValues, LastEvent, LastId, LastRetry, Comments, JoinLf;
  }

  /**
   * Parsing reports no error exactly when the body is within the byte bound and UTF-8, every line is short enough, no
   * field value is refused and the blocks make no more events than allowed; then it yields the events of the
   * blocks. It never yields more than the maximum.
   */
  lemma SucceedsIff(body: Bytes, included: bool, isUtf8: bool)
    ensures Parsed(body, included, isUtf8).error == None <==>
            && |body| <= MAX_SSE_BODY_BYTES
            && isUtf8
            && (forall line :: line in Lines(body) ==> |line| <= MAX_SSE_LINE_BYTES)
            && !AnyRefused(Lines(body))
            && |BlockEvents(Lines(body), included)| <= MAX_SSE_EVENTS
    ensures Parsed(body, included, isUtf8).error == None ==>
              Parsed(body, included, isUtf8).events == BlockEvents(Lines(body), included)
    ensures |Parsed(body, included, isUtf8).events| <= MAX_SSE_EVENTS
  {
    ViewSucceedsIff(Lines(body), included);
    hide View, Lines, AnyRefused, BlockEvents;
  }

  // ---- Which error ----

  /** The first `n` lines are read without giving up: all short, and with no more events closed than allowed. */
  predicate ReadsOn(lines: seq<Bytes>, included: bool, n: nat)
    requires n <= |lines|
  {
    && (forall i :: 0 <= i < n ==> |lines[i]| <= MAX_SSE_LINE_BYTES)
    && |ClosedEvents(lines[..n], included)| <= MAX_SSE_EVENTS
  }

  lemma HaltsIff(lines: seq<Bytes>, included: bool, i: nat)
    requires i < |lines| && |ClosedEvents(lines[..i], included)| <= MAX_SSE_EVENTS
    ensures Halts(lines, included, i) <==>
      |lines[i]| > MAX_SSE_LINE_BYTES || |ClosedEvents(lines[..i + 1], included)| > MAX_SSE_EVENTS
  {
    assert lines[..i + 1][..i] == lines[..i];
    hide OpenBlock, Comments, DataValues, LastEvent, LastId, LastRetry, JoinLf;
  }

  lemma {:induction false} ReadsOnIff(lines: seq<Bytes>, included: bool, n: nat)
    requires n <= |lines|
    ensures ReadsOn(lines, included, n) <==> n <= Halt(lines, included, 0)
  {
    if n > 0 {
      ReadsOnIff(lines, included, n - 1);
      assert lines[..n][..n - 1] == lines[..n - 1];
      ClosedGrows(lines[..n], included, n - 1);
      if ReadsOn(lines, included, n - 1) {
        HaltsIff(lines, included, n - 1);
        var h := Halt(lines, included, 0);
        assert n - 1 < h ==> !Halts(lines, included, n - 1);
      }
      hide ClosedEvents, Halts;
    }
  }

  /** Line `i` is the first that is too long or closes one event too many. */
  predicate GivesUp(lines: seq<Bytes>, included: bool, i: nat, long: bool)
  {
    && i < |lines|
    && ReadsOn(lines, included, i)
    && (long <==> |lines[i]| > MAX_SSE_LINE_BYTES)
    && (long || |ClosedEvents(lines[..i + 1], included)| > MAX_SSE_EVENTS)
  }

  /** How the lines of a body come to an error. */
  ghost predicate Fails(lines: seq<Bytes>, included: bool, error: SseError)
  {
    match error
    case LineTooLong => exists i: nat :: GivesUp(lines, included, i, true)
    case TooManyEvents =>
      || (exists i: nat :: GivesUp(lines, included, i, false))
      || (ReadsOn(lines, included, |lines|) && !AnyRefused(lines) && |BlockEvents(lines, included)| > MAX_SSE_EVENTS)
    case InvalidField => ReadsOn(lines, included, |lines|) && AnyRefused(lines)
    case _ => false
  }

  lemma GivesUpAtHalt(lines: seq<Bytes>, included: bool, i: nat, long: bool)
    ensures GivesUp(lines, included, i, long) <==>
      i == Halt(lines, included, 0) < |lines| && (long <==> |lines[i]| > MAX_SSE_LINE_BYTES)
  {
    if i < |lines| {
      ReadsOnIff(lines, included, i);
      if ReadsOn(lines, included, i) {
        HaltsIff(lines, included, i);
      }
      hide Halts, ClosedEvents;
    }
  }

  lemma ViewFailsIff(lines: seq<Bytes>, included: bool, error: SseError)
    ensures View(lines, included).error == Some(error) <==> Fails(lines, included, error)
  {
    var h := Halt(lines, included, 0);
    forall i: nat, long: bool
      ensures GivesUp(lines, included, i, long) <==>
        i == h < |lines| && (long <==> |lines[i]| > MAX_SSE_LINE_BYTES)
    {
      GivesUpAtHalt(lines, included, i, long);
    }
    ReadsOnIff(lines, included, |lines|);
    if h == |lines| {
      FinishedView(lines, included);
      LastEventFits(lines, included);
    } else {
      HaltedView(lines, included, h);
      assert GivesUp(lines, included, h, |lines[h]| > MAX_SSE_LINE_BYTES);
    }
    hide View, Halt, ReadsOn, GivesUp, ClosedEvents, OpenBlock, AnyRefused, Blank, EventOf, BlockEvents;
  }

  lemma LastEventFits(lines: seq<Bytes>, included: bool)
    ensures |ClosedEvents(lines, included)| <= MAX_SSE_EVENTS ==>
      (|BlockEvents(lines, included)| > MAX_SSE_EVENTS <==>
        !Blank(OpenBlock(lines), included) && |ClosedEvents(lines, included)| >= MAX_SSE_EVENTS)
    ensures ReadsOn(lines, included, |lines|) ==> |ClosedEvents(lines, included)| <= MAX_SSE_EVENTS
  {
    assert lines[..|lines|] == lines;
    hide ClosedEvents, OpenBlock, Blank;
  }

  /** The error of a body: of its size, its encoding, or what its lines come to first. */
  lemma ErrorIff(body: Bytes, included: bool, isUtf8: bool, error: SseError)
    ensures Parsed(body, included, isUtf8).error == Some(error) <==>
      if |body| > MAX_SSE_BODY_BYTES then error == BodyTooLarge
      else if !isUtf8 then error == NotUtf8
      else Fails(Lines(body), included, error)
  {
    ViewFailsIff(Lines(body), included, error);
    hide View, Lines, Fails;
  }

  /** With an error the events are those closed before it: of all lines, or of the lines read when parsing gave up. */
  lemma EventsBeforeError(lines: seq<Bytes>, included: bool)
    requires View(lines, included).error.Some?
    ensures exists n: nat :: LastsTo(lines, included, n) && View(lines, included).events == ClosedEvents(lines[..n], included)
  {
    var h := Halt(lines, included, 0);
    ReadsOnIff(lines, included, h);
    if h < |lines| {
      ReadsOnIff(lines, included, h + 1);
      HaltedView(lines, included, h);
    } else {
      FinishedView(lines, included);
      assert lines[..h] == lines;
    }
    hide View, ReadsOn, ClosedEvents, Halt, OpenBlock, AnyRefused, EventOf, Blank;
    assert LastsTo(lines, included, h);
  }

  /** The parser reads the first `n` lines and no more. */
  predicate LastsTo(lines: seq<Bytes>, included: bool, n: nat)
  {
    n <= |lines| && ReadsOn(lines, included, n) && (n < |lines| ==> !ReadsOn(lines, included, n + 1))
  }

  // ---- Composition ----

  /** One more line keeps two line sequences in step. */
  lemma SameNextLine(before: seq<Bytes>, lines: seq<Bytes>, earlier: seq<SseEvent>, line: Bytes, included: bool)
    requires OpenBlock(before) == OpenBlock(lines)
    requires ClosedEvents(before, included) == earlier + ClosedEvents(lines, included)
    ensures OpenBlock(before + [line]) == OpenBlock(lines + [line])
    ensures ClosedEvents(before + [line], included) == earlier + ClosedEvents(lines + [line], included)
  {
    hide OpenBlock, ClosedEvents, EventOf, Tracks;
    if line == "" {
      TracksBlank(before, included);
      TracksBlank(lines, included);
    } else {
      TracksLine(before, included, line);
      TracksLine(lines, included, line);
    }
  }

  lemma {:induction false} BlankLineSplits(a: seq<Bytes>, b: seq<Bytes>, included: bool)
    ensures OpenBlock(a + [""] + b) == OpenBlock(b)
    ensures ClosedEvents(a + [""] + b, included) == BlockEvents(a, included) + ClosedEvents(b, included)
  {
    if b == [] {
      assert a + [""] + b == a + [""];
      TracksBlank(a, included);
      assert BlockEvents(a, included) + ClosedEvents(b, included) == BlockEvents(a, included);
    } else {
      hide *;
      var front, last := b[..|b| - 1], b[|b| - 1];
      assert b == front + [last];
      assert a + [""] + b == (a + [""] + front) + [last];
      BlankLineSplits(a, front, included);
      SameNextLine(a + [""] + front, front, BlockEvents(a, included), last, included);
    }
  }

  lemma AnyRefusedJoin(a: seq<Bytes>, b: seq<Bytes>)
    ensures AnyRefused(a + [""] + b) == (AnyRefused(a) || AnyRefused(b))
  {
    var all := a + [""] + b;
    BlankRefusesNothing();
    hide Refused;
    if AnyRefused(a) {
      var i :| 0 <= i < |a| && Refused(a[i]);
      assert all[i] == a[i];
    }
    if AnyRefused(b) {
      var i :| 0 <= i < |b| && Refused(b[i]);
      assert all[|a| + 1 + i] == b[i];
    }
    if AnyRefused(all) {
      var i :| 0 <= i < |all| && Refused(all[i]);
      assert i != |a|;
      assert all[i] == if i < |a| then a[i] else b[i - |a| - 1];
    }
  }

  lemma LinesJoin(a: Bytes, b: Bytes)
    ensures Lines(a + "\n\n" + b) == Lines(a) + [""] + Lines(b)
  {
    assert a + "\n\n" + b == a + ['\n'] + (['\n'] + b);
    SplitJoin(a, ['\n'] + b, '\n');
    SplitStep('\n', b, '\n');
    hide Split;
    assert Split(a + "\n\n" + b, '\n') == Split(a, '\n') + [""] + Split(b, '\n');
  }

  /**
   * Parsing is compositional: when neither body has an error, joining them with a blank line has none exactly when
   * the joined body is within the byte bound (and UTF-8, as it then is) and the two event counts together fit; then
   * the events are those of the first followed by those of the second.
   */
  lemma BlankLineComposes(a: Bytes, b: Bytes, included: bool, isUtf8: bool)
    requires Parsed(a, included, true).error == None && Parsed(b, included, true).error == None
    ensures var ea, eb := Parsed(a, included, true).events, Parsed(b, included, true).events;
            var joined := Parsed(a + "\n\n" + b, included, isUtf8);
            && (joined.error == None <==>
                  isUtf8 && |a| + |b| + 2 <= MAX_SSE_BODY_BYTES && |ea| + |eb| <= MAX_SSE_EVENTS)
            && (joined.error == None ==> joined.events == ea + eb)
  {
    var x, y := Lines(a), Lines(b);
    LinesJoin(a, b);
    SucceedsIff(a, included, true);
    SucceedsIff(b, included, true);
    SucceedsIff(a + "\n\n" + b, included, isUtf8);
    BlankLineSplits(x, y, included);
    AnyRefusedJoin(x, y);
    hide Parsed, Lines, AnyRefused, ClosedEvents, OpenBlock, EventOf;
    assert BlockEvents(x + [""] + y, included) == BlockEvents(x, included) + BlockEvents(y, included);
  }

  // ---- Line endings ----

  /** The same text with CRLF line endings. */
  function ToCrLf(text: Bytes): Bytes
  {
    if text == "" then ""
    else (if text[0] == '\n' then "\r\n" else [text[0]]) + ToCrLf(text[1..])
  }

  /** Cutting the CRLF form leaves a CR at the end of each line but the last. */
  predicate KeepsCr(parts: seq<Bytes>, crlf: seq<Bytes>)
  {
    && |crlf| == |parts| > 0
    && (forall i :: 0 <= i < |parts| - 1 ==> crlf[i] == parts[i] + "\r")
    && crlf[|parts| - 1] == parts[|parts| - 1]
  }

  lemma KeepsCrNewline(parts: seq<Bytes>, crlf: seq<Bytes>)
    requires KeepsCr(parts, crlf)
    ensures KeepsCr([""] + parts, ["\r"] + crlf)
  {
  }

  lemma KeepsCrOther(parts: seq<Bytes>, crlf: seq<Bytes>, x: char)
    requires KeepsCr(parts, crlf)
    ensures KeepsCr([[x] + parts[0]] + parts[1..], [[x] + crlf[0]] + crlf[1..])
  {
  }

  lemma SplitAtCrLf(rest: Bytes)
    ensures Split("\r\n" + rest, '\n') == ["\r"] + Split(rest, '\n')
  {
    assert "\r\n" + rest == ['\r'] + (['\n'] + rest);
    SplitStep('\r', ['\n'] + rest, '\n');
    SplitStep('\n', rest, '\n');
    hide Split;
    var crlf := Split(rest, '\n');
    assert ['\r'] + ([""] + crlf)[0] == "\r" && ([""] + crlf)[1..] == crlf;
  }

  lemma {:induction false} SplitCrLf(text: Bytes)
    requires '\r' !in text
    ensures KeepsCr(Split(text, '\n'), Split(ToCrLf(text), '\n'))
  {
    if text != "" {
      SplitCrLf(text[1..]);
      var parts, crlf := Split(text[1..], '\n'), Split(ToCrLf(text[1..]), '\n');
      if text[0] == '\n' {
        SplitAtCrLf(ToCrLf(text[1..]));
        KeepsCrNewline(parts, crlf);
      } else {
        SplitStep(text[0], ToCrLf(text[1..]), '\n');
        KeepsCrOther(parts, crlf, text[0]);
      }
      hide KeepsCr;
    }
  }

  lemma StripAfterSplit(part: Bytes)
    requires '\r' !in part
    ensures StripCr(part) == part && StripCr(part + "\r") == part
  {
  }

  lemma StripsAlike(parts: seq<Bytes>, crlf: seq<Bytes>)
    requires KeepsCr(parts, crlf)
    requires forall part :: part in parts ==> '\r' !in part
    ensures StripEach(crlf) == StripEach(parts)
  {
    hide StripCr;
    forall i | 0 <= i < |parts|
      ensures StripCr(crlf[i]) == StripCr(parts[i])
    {
      assert parts[i] in parts;
      StripAfterSplit(parts[i]);
    }
  }

  lemma SameLines(text: Bytes)
    requires '\r' !in text
    ensures Lines(ToCrLf(text)) == Lines(text)
  {
    SplitCrLf(text);
    SplitKeepsCharacters(text, '\n', '\r');
    StripsAlike(Split(text, '\n'), Split(ToCrLf(text), '\n'));
  }

  lemma {:induction false} CrLfLonger(text: Bytes)
    ensures |text| <= |ToCrLf(text)|
  {
    if text != "" {
      CrLfLonger(text[1..]);
    }
  }

  lemma ViewFits(lines: seq<Bytes>, included: bool)
    ensures View(lines, included).error !in {Some(BodyTooLarge), Some(NotUtf8)}
  {
    hide Halt, AnyRefused, Overflows, ClosedEvents, BlockEvents;
  }

  /** LF and CRLF forms of a text without CRs parse alike, unless only the longer one exceeds the byte bound. */
  lemma CrLfParsesAlike(text: Bytes, included: bool, isUtf8: bool)
    requires '\r' !in text
    ensures Parsed(ToCrLf(text), included, isUtf8) == Parsed(text, included, isUtf8)
       <==> (|text| <= MAX_SSE_BODY_BYTES ==> |ToCrLf(text)| <= MAX_SSE_BODY_BYTES)
  {
    SameLines(text);
    CrLfLonger(text);
    ViewFits(Lines(text), included);
    hide View, Lines, ToCrLf;
  }

  // ---- Data lines ----

  lemma {:induction false} LinesHaveNoLf(text: Bytes)
    ensures forall part :: part in Split(text, '\n') ==> '\n' !in part
  {
    if text != "" {
      LinesHaveNoLf(text[1..]);
      var rest := Split(text[1..], '\n');
      assert rest[0] in rest;
      forall part | part in Split(text, '\n')
        ensures '\n' !in part
      {
        assert part == "" || part in rest || (text[0] != '\n' && part == [text[0]] + rest[0]);
      }
    }
  }

  lemma {:induction false} DataHasNoLf(block: seq<Bytes>)
    requires forall line :: line in block ==> '\n' !in line
    ensures forall value :: value in DataValues(block) ==> '\n' !in value
  {
    if block != [] {
      DataHasNoLf(block[..|block| - 1]);
      assert block[|block| - 1] in block;
    }
  }

  lemma {:induction false} SplitJoined(values: seq<Bytes>)
    requires values != []
    requires forall value :: value in values ==> '\n' !in value
    ensures Split(JoinLf(values), '\n') == values
  {
    var front, last := values[..|values| - 1], values[|values| - 1];
    assert last in values;
    SplitOne(last, '\n');
    if front != [] {
      SplitJoined(front);
      SplitJoin(JoinLf(front), last, '\n');
      assert JoinLf(values) == JoinLf(front) + ['\n'] + last;
    }
  }

  /** An event's data, cut at its line feeds, gives back exactly the values of its data lines, in order. */
  lemma DataIsItsDataLines(block: seq<Bytes>, included: bool)
    requires forall line :: line in block ==> '\n' !in line
    requires !Blank(block, included)
    ensures var data := EventOf(block, included)[0].data;
            if DataValues(block) == [] then data == "" else Split(data, '\n') == DataValues(block)
  {
    DataHasNoLf(block);
    if DataValues(block) != [] {
      SplitJoined(DataValues(block));
    }
  }

  /** Lines `i` to `j` are one block: nothing blank inside, and blank lines or the ends of the body around it. */
  predicate IsBlock(lines: seq<Bytes>, i: nat, j: nat)
  {
    && i <= j <= |lines|
    && "" !in lines[i..j]
    && (i == 0 || lines[i - 1] == "")
    && (j == |lines| || lines[j] == "")
  }

  /** The event of the block of lines `i` to `j`. */
  predicate MadeFrom(e: SseEvent, lines: seq<Bytes>, i: nat, j: nat, included: bool)
  {
    IsBlock(lines, i, j) && EventOf(lines[i..j], included) == [e]
  }

  /** The open block is where the last blank line leaves off. */
  lemma {:induction false} OpenBlockAt(lines: seq<Bytes>) returns (i: nat)
    ensures i <= |lines| && OpenBlock(lines) == lines[i..] && "" !in lines[i..]
    ensures i == 0 || lines[i - 1] == ""
  {
    if lines == [] || lines[|lines| - 1] == "" {
      i := |lines|;
    } else {
      var front := lines[..|lines| - 1];
      i := OpenBlockAt(front);
      assert lines[i..] == front[i..] + [lines[|lines| - 1]];
    }
  }

  /** Every event of the lines read so far is the event of a block that a blank line closed. */
  lemma {:induction false} ClosedEventsFromBlocks(lines: seq<Bytes>, n: nat, included: bool, e: SseEvent)
    returns (i: nat, j: nat)
    requires n <= |lines| && e in ClosedEvents(lines[..n], included)
    ensures j < n && MadeFrom(e, lines, i, j, included)
  {
    assert lines[..n][..n - 1] == lines[..n - 1];
    if e in ClosedEvents(lines[..n - 1], included) {
      i, j := ClosedEventsFromBlocks(lines, n - 1, included, e);
    } else {
      i := OpenBlockAt(lines[..n - 1]);
      j := n - 1;
      assert lines[..n - 1][i..] == lines[i..j];
    }
  }

  lemma ViewEventsAre(lines: seq<Bytes>, included: bool)
    ensures var h := Halt(lines, included, 0);
            || View(lines, included).events == ClosedEvents(lines[..h], included)
            || View(lines, included).events
               == ClosedEvents(lines[..h], included) + EventOf(OpenBlock(lines), included)
  {
    var h := Halt(lines, included, 0);
    hide *;
    if h < |lines| {
      HaltedView(lines, included, h);
    } else {
      assert lines[..h] == lines;
      FinishedView(lines, included);
    }
  }

  lemma ViewEvents(lines: seq<Bytes>, included: bool, e: SseEvent)
    requires e in View(lines, included).events
    ensures e in ClosedEvents(lines[..Halt(lines, included, 0)], included)
      || EventOf(OpenBlock(lines), included) == [e]
  {
    ViewEventsAre(lines, included);
    hide View, Halt, ClosedEvents, OpenBlock, Blank, JoinLf, DataValues, LastEvent, LastId, LastRetry, Comments;
  }

  lemma ViewEventsFromBlocks(lines: seq<Bytes>, included: bool, e: SseEvent) returns (i: nat, j: nat)
    requires e in View(lines, included).events
    ensures MadeFrom(e, lines, i, j, included)
  {
    ViewEvents(lines, included, e);
    hide View, Halt, ClosedEvents, OpenBlock, EventOf;
    var h := Halt(lines, included, 0);
    if e in ClosedEvents(lines[..h], included) {
      i, j := ClosedEventsFromBlocks(lines, h, included, e);
    } else {
      i := OpenBlockAt(lines);
      j := |lines|;
      assert lines[i..j] == lines[i..];
    }
  }

  /** Made from that block, and the data, cut at its line feeds, gives the values of the block's data lines. */
  predicate FromItsBlock(e: SseEvent, lines: seq<Bytes>, i: nat, j: nat, included: bool)
  {
    && MadeFrom(e, lines, i, j, included)
    && var values := DataValues(lines[i..j]);
       if values == [] then e.data == "" else Split(e.data, '\n') == values
  }

  /**
   * For every body, with or without an error: each event comes from one block of consecutive lines between blank ones,
   * and its data is the values of that block's data lines, in their order, joined by single LFs.
   */
  lemma EventDataJoinsDataLines(body: Bytes, included: bool, isUtf8: bool, e: SseEvent)
    requires e in Parsed(body, included, isUtf8).events
    ensures exists i: nat, j: nat :: FromItsBlock(e, Lines(body), i, j, included)
  {
    var lines := Lines(body);
    var i, j := ViewEventsFromBlocks(lines, included, e);
    var block := lines[i..j];
    LinesHaveNoLf(body);
    hide Parsed, EventOf, DataValues, View;
    forall line | line in block
      ensures '\n' !in line
    {
      var k :| 0 <= k < |block| && block[k] == line;
      assert Split(body, '\n')[i + k] in Split(body, '\n');
    }
    DataIsItsDataLines(block, included);
    assert e == EventOf(block, included)[0];
    assert FromItsBlock(e, lines, i, j, included);
  }

  // ---- Comparing two views ----

  predicate SameFields(left: SseEvent, right: SseEvent, ignored: set<Bytes>)
  {
    && ("data" in ignored || left.data == right.data)
    && ("event" in ignored || left.event == right.event)
    && ("id" in ignored || left.id == right.id)
    && ("retry" in ignored || left.retry == right.retry)
    && ("comments" in ignored || left.comments == right.comments)
  }

  /** `compare_sse`. */
  predicate CompareSse(expected: seq<SseEvent>, actual: seq<SseEvent>, ignored: set<Bytes>)
  {
    |expected| == |actual| && forall i :: 0 <= i < |expected| ==> SameFields(expected[i], actual[i], ignored)
  }

  /** An event with its ignored fields blanked. */
  function Masked(e: SseEvent, ignored: set<Bytes>): SseEvent
  {
    SseEvent(if "data" in ignored then "" else e.data,
             if "event" in ignored then None else e.event,
             if "id" in ignored then None else e.id,
             if "retry" in ignored then None else e.retry,
             if "comments" in ignored then [] else e.comments)
  }

  function MaskAll(events: seq<SseEvent>, ignored: set<Bytes>): seq<SseEvent>
  {
    seq(|events|, i requires 0 <= i < |events| => Masked(events[i], ignored))
  }

  /** Two views compare equal exactly when they are equal once the ignored fields are blanked. */
  lemma ComparesEqualIffMaskedEqual(expected: seq<SseEvent>, actual: seq<SseEvent>, ignored: set<Bytes>)
    ensures CompareSse(expected, actual, ignored) <==> MaskAll(expected, ignored) == MaskAll(actual, ignored)
  {
    var a, b := MaskAll(expected, ignored), MaskAll(actual, ignored);
    if a == b {
      forall i | 0 <= i < |expected|
        ensures SameFields(expected[i], actual[i], ignored)
      {
        assert a[i] == b[i];
      }
    }
  }
}
