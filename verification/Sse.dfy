/**
 * The Server-Sent Events view of a body (crates/eggreplay-core/src/stream.rs).
 *
 * The parser keeps one pending event in mutable locals. Its specification has no such state: an event is read
 * off a block, the lines between two blank ones, in the manner of section 9.2.6 of the HTML Living Standard.
 * As the source does, and unlike that section, the block still open at the end of the body also makes an event.
 */
module Sse {
  import opened Prelude
  import opened TextParsing

  const MAX_SSE_LINE_BYTES: nat := 64 * 1024
  const MAX_SSE_EVENTS: nat := 100_000
  const MAX_SSE_BODY_BYTES: nat := 16 * 1024 * 1024

  datatype SseEvent = SseEvent(
    data: Bytes,
    event: Option<Bytes>,
    id: Option<Bytes>,
    retry: Option<nat>,
    comments: seq<Bytes>)

  datatype SseError = BodyTooLarge | NotUtf8 | LineTooLong | TooManyEvents | InvalidField

  datatype SseParseResult = SseParseResult(events: seq<SseEvent>, error: Option<SseError>)

  // ---- Lines ----

  /** `raw.strip_suffix('\r').unwrap_or(raw)`. */
  function StripCr(raw: Bytes): Bytes
  {
    if |raw| > 0 && raw[|raw| - 1] == '\r' then raw[..|raw| - 1] else raw
  }

  function StripEach(raw: seq<Bytes>): (lines: seq<Bytes>)
    ensures |lines| == |raw|
    ensures forall i :: 0 <= i < |raw| ==> lines[i] == StripCr(raw[i])
  {
    seq(|raw|, i requires 0 <= i < |raw| => StripCr(raw[i]))
  }

  function Lines(text: Bytes): seq<Bytes>
  {
    StripEach(Split(text, '\n'))
  }

  function StripSpace(value: Bytes): Bytes
  {
    if |value| > 0 && value[0] == ' ' then value[1..] else value
  }

  /** Where the first colon stands, or the length when there is none. */
  function Colon(line: Bytes): (k: nat)
    ensures k <= |line|
    ensures ':' !in line[..k]
    ensures k < |line| ==> line[k] == ':'
  {
    if line == "" || line[0] == ':' then 0
    else
      var k := Colon(line[1..]);
      assert line[..k + 1] == [line[0]] + line[1..][..k];
      k + 1
  }

  function FieldName(line: Bytes): Bytes
  {
    line[..Colon(line)]
  }

  function FieldValue(line: Bytes): Bytes
  {
    if Colon(line) < |line| then StripSpace(line[Colon(line) + 1..]) else ""
  }

  predicate IsComment(line: Bytes)
  {
    |line| > 0 && line[0] == ':'
  }

  predicate RetryParses(value: Bytes)
  {
    AllDigits(value) && DecimalValue(value) <= U64_MAX
  }

  /** A field whose value the parser refuses. */
  predicate Refused(line: Bytes)
  {
    || (FieldName(line) == "id" && '\0' in FieldValue(line))
    || (FieldName(line) == "retry" && !RetryParses(FieldValue(line)))
  }

  predicate AnyRefused(lines: seq<Bytes>)
  {
    exists i :: 0 <= i < |lines| && Refused(lines[i])
  }

  // ---- The event of one block ----

  function DataValues(block: seq<Bytes>): seq<Bytes>
  {
    if block == [] then []
    else
      var last := block[|block| - 1];
      DataValues(block[..|block| - 1]) + if FieldName(last) == "data" then [FieldValue(last)] else []
  }

  function LastEvent(block: seq<Bytes>): Option<Bytes>
  {
    if block == [] then None
    else
      var last := block[|block| - 1];
      if FieldName(last) == "event" then Some(FieldValue(last)) else LastEvent(block[..|block| - 1])
  }

  function LastId(block: seq<Bytes>): Option<Bytes>
  {
    if block == [] then None
    else
      var last := block[|block| - 1];
      if FieldName(last) == "id" && !Refused(last) then Some(FieldValue(last)) else LastId(block[..|block| - 1])
  }

  function LastRetry(block: seq<Bytes>): Option<nat>
  {
    if block == [] then None
    else
      var last := block[|block| - 1];
      if FieldName(last) == "retry" && !Refused(last) then Some(DecimalValue(FieldValue(last)))
      else LastRetry(block[..|block| - 1])
  }

  function Comments(block: seq<Bytes>, included: bool): seq<Bytes>
  {
    if block == [] || !included then []
    else
      var last := block[|block| - 1];
      Comments(block[..|block| - 1], included) + if IsComment(last) then [StripSpace(last[1..])] else []
  }

  /** Lines joined with single LFs. */
  function JoinLf(values: seq<Bytes>): Bytes
  {
    if values == [] then ""
    else if |values| == 1 then values[0]
    else JoinLf(values[..|values| - 1]) + "\n" + values[|values| - 1]
  }

  /** Nothing that makes an event. */
  predicate Blank(block: seq<Bytes>, included: bool)
  {
    && DataValues(block) == []
    && LastEvent(block) == None
    && LastId(block) == None
    && LastRetry(block) == None
    && Comments(block, included) == []
  }

  /** The event of a block, or none. */
  function EventOf(block: seq<Bytes>, included: bool): seq<SseEvent>
  {
    if Blank(block, included) then []
    else [SseEvent(JoinLf(DataValues(block)), LastEvent(block), LastId(block), LastRetry(block),
                   Comments(block, included))]
  }

  // ---- The events of a body ----

  /** The lines after the last blank one. */
  function OpenBlock(lines: seq<Bytes>): seq<Bytes>
  {
    if lines == [] || lines[|lines| - 1] == "" then []
    else OpenBlock(lines[..|lines| - 1]) + [lines[|lines| - 1]]
  }

  /** The events of the blocks a blank line has closed. */
  function ClosedEvents(lines: seq<Bytes>, included: bool): seq<SseEvent>
  {
    if lines == [] then []
    else
      var front := lines[..|lines| - 1];
      ClosedEvents(front, included) + if lines[|lines| - 1] == "" then EventOf(OpenBlock(front), included) else []
  }

  function BlockEvents(lines: seq<Bytes>, included: bool): seq<SseEvent>
  {
    ClosedEvents(lines, included) + EventOf(OpenBlock(lines), included)
  }

  predicate Overflows(lines: seq<Bytes>, included: bool)
  {
    !Blank(OpenBlock(lines), included) && |ClosedEvents(lines, included)| >= MAX_SSE_EVENTS
  }

  /** The parser gives up at line `i`. */
  predicate Halts(lines: seq<Bytes>, included: bool, i: nat)
    requires i < |lines|
  {
    |lines[i]| > MAX_SSE_LINE_BYTES || (lines[i] == "" && Overflows(lines[..i], included))
  }

  /** The first line from `i` on at which the parser gives up, or the number of lines. */
  function Halt(lines: seq<Bytes>, included: bool, i: nat): (h: nat)
    requires i <= |lines|
    ensures i <= h <= |lines|
    ensures forall k :: i <= k < h ==> !Halts(lines, included, k)
    ensures h < |lines| ==> Halts(lines, included, h)
    decreases |lines| - i
  {
    if i == |lines| || Halts(lines, included, i) then i else Halt(lines, included, i + 1)
  }

  /** What parsing these lines yields, errors included. */
  function View(lines: seq<Bytes>, included: bool): SseParseResult
  {
    var h := Halt(lines, included, 0);
    if h < |lines| then
      SseParseResult(ClosedEvents(lines[..h], included),
                     Some(if |lines[h]| > MAX_SSE_LINE_BYTES then LineTooLong else TooManyEvents))
    else if AnyRefused(lines) then SseParseResult(ClosedEvents(lines, included), Some(InvalidField))
    else if Overflows(lines, included) then SseParseResult(ClosedEvents(lines, included), Some(TooManyEvents))
    else SseParseResult(BlockEvents(lines, included), None)
  }

  /** What parsing a body yields. `isUtf8` is the verdict of `std::str::from_utf8`. */
  function Parsed(body: Bytes, included: bool, isUtf8: bool): SseParseResult
  {
    if |body| > MAX_SSE_BODY_BYTES then SseParseResult([], Some(BodyTooLarge))
    else if !isUtf8 then SseParseResult([], Some(NotUtf8))
    else View(Lines(body), included)
  }

  // ---- The parser ----

  /** `data`: each value followed by its line feed. */
  function Pieces(values: seq<Bytes>): (pieces: seq<Bytes>)
    ensures (pieces == []) == (values == [])
  {
    if values == [] then [] else Pieces(values[..|values| - 1]) + [values[|values| - 1], "\n"]
  }

  function Concat(pieces: seq<Bytes>): Bytes
  {
    if pieces == [] then "" else Concat(pieces[..|pieces| - 1]) + pieces[|pieces| - 1]
  }

  /** `data.pop()`, which leaves an empty vector alone. */
  function Popped(pieces: seq<Bytes>): seq<Bytes>
  {
    if pieces == [] then [] else pieces[..|pieces| - 1]
  }

  lemma ConcatStep(pieces: seq<Bytes>, piece: Bytes)
    ensures Concat(pieces + [piece]) == Concat(pieces) + piece
  {
  }

  lemma {:induction false} PiecesConcat(values: seq<Bytes>)
    requires values != []
    ensures Concat(Pieces(values)) == JoinLf(values) + "\n"
  {
    var front, last := values[..|values| - 1], values[|values| - 1];
    var p := Pieces(front);
    ConcatStep(p, last);
    ConcatStep(p + [last], "\n");
    assert p + [last] + ["\n"] == Pieces(values);
    if front == [] {
      assert values == [last];
    } else {
      PiecesConcat(front);
    }
  }

  /** Dropping the last line feed and concatenating gives the values joined. */
  lemma PoppedPieces(values: seq<Bytes>)
    ensures Concat(Popped(Pieces(values))) == JoinLf(values)
  {
    if values != [] {
      PiecesConcat(values);
      var p := Pieces(values);
      assert p[|p| - 1] == "\n";
      var a, b := Concat(Popped(p)), JoinLf(values);
      assert a == (a + "\n")[..|a|] && b == (b + "\n")[..|b|];
    }
  }

  lemma PiecesStep(values: seq<Bytes>, value: Bytes)
    ensures Pieces(values + [value]) == Pieces(values) + [value, "\n"]
  {
  }

  /** The parser's locals after reading the lines `read`. */
  predicate Tracks(
    read: seq<Bytes>, included: bool, data: seq<Bytes>, event: Option<Bytes>, id: Option<Bytes>,
    retry: Option<nat>, comments: seq<Bytes>)
  {
    var block := OpenBlock(read);
    && data == Pieces(DataValues(block))
    && event == LastEvent(block)
    && id == LastId(block)
    && retry == LastRetry(block)
    && comments == Comments(block, included)
  }

  /** Reading a blank line starts an empty block. */
  lemma TracksBlank(read: seq<Bytes>, included: bool)
    ensures Tracks(read + [""], included, [], None, None, None, [])
    ensures OpenBlock(read + [""]) == []
    ensures ClosedEvents(read + [""], included) ==
            ClosedEvents(read, included) + EventOf(OpenBlock(read), included)
  {
  }

  /** Reading another line extends the open block by it. */
  lemma TracksLine(read: seq<Bytes>, included: bool, line: Bytes)
    requires line != ""
    ensures OpenBlock(read + [line]) == OpenBlock(read) + [line]
    ensures ClosedEvents(read + [line], included) == ClosedEvents(read, included)
  {
  }

  /** How one more line changes what a block says. */
  lemma BlockStep(block: seq<Bytes>, included: bool, line: Bytes)
    ensures DataValues(block + [line]) ==
            DataValues(block) + if FieldName(line) == "data" then [FieldValue(line)] else []
    ensures Pieces(DataValues(block + [line])) ==
            Pieces(DataValues(block)) + if FieldName(line) == "data" then [FieldValue(line), "\n"] else []
    ensures LastEvent(block + [line]) ==
            if FieldName(line) == "event" then Some(FieldValue(line)) else LastEvent(block)
    ensures LastId(block + [line]) ==
            if FieldName(line) == "id" && !Refused(line) then Some(FieldValue(line)) else LastId(block)
    ensures LastRetry(block + [line]) ==
            if FieldName(line) == "retry" && !Refused(line) then Some(DecimalValue(FieldValue(line)))
            else LastRetry(block)
    ensures Comments(block + [line], included) ==
            Comments(block, included) + if included && IsComment(line) then [StripSpace(line[1..])] else []
  {
    assert (block + [line])[..|block|] == block;
    PiecesStep(DataValues(block), FieldValue(line));
    assert DataValues(block) + [] == DataValues(block);
    hide Refused, FieldName, FieldValue, DecimalValue, IsComment, StripSpace;
  }

  lemma CommentHasNoName(line: Bytes)
    requires IsComment(line)
    ensures FieldName(line) == "" && !Refused(line)
  {
  }

  lemma AnyRefusedStep(read: seq<Bytes>, line: Bytes)
    ensures AnyRefused(read + [line]) == (AnyRefused(read) || Refused(line))
  {
    var more := read + [line];
    hide Refused;
    assert more[|read|] == line;
    forall i | 0 <= i < |read|
      ensures more[i] == read[i]
    {
    }
    if AnyRefused(read) {
      var i :| 0 <= i < |read| && Refused(read[i]);
      assert Refused(more[i]);
    }
  }

  /** The parser's locals after a line that is not blank, and whether it was refused. */
  lemma LineEffect(
      read: seq<Bytes>, included: bool, data: seq<Bytes>, event: Option<Bytes>, id: Option<Bytes>,
      retry: Option<nat>, comments: seq<Bytes>, line: Bytes)
    requires line != ""
    requires Tracks(read, included, data, event, id, retry, comments)
    ensures var name, value := FieldName(line), FieldValue(line);
            Tracks(read + [line], included,
                   if name == "data" then data + [value, "\n"] else data,
                   if name == "event" then Some(value) else event,
                   if name == "id" && '\0' !in value then Some(value) else id,
                   if name == "retry" && RetryParses(value) then Some(DecimalValue(value)) else retry,
                   if included && IsComment(line) then comments + [StripSpace(line[1..])] else comments)
    ensures Refused(line) <==>
            || (FieldName(line) == "id" && '\0' in FieldValue(line))
            || (FieldName(line) == "retry" && !RetryParses(FieldValue(line)))
    ensures ClosedEvents(read + [line], included) == ClosedEvents(read, included)
  {
    TracksLine(read, included, line);
    BlockStep(OpenBlock(read), included, line);
    assert data + [] == data && comments + [] == comments;
    hide FieldName, FieldValue, RetryParses, DecimalValue, IsComment, StripSpace, OpenBlock, ClosedEvents,
         DataValues, Pieces, LastEvent, LastId, LastRetry, Comments;
  }

  /** What the parser emits at a blank line is the event of the block that line closes. */
  lemma FlushIsEventOf(
      read: seq<Bytes>, included: bool, data: seq<Bytes>, event: Option<Bytes>, id: Option<Bytes>,
      retry: Option<nat>, comments: seq<Bytes>)
    requires Tracks(read, included, data, event, id, retry, comments)
    ensures Blank(OpenBlock(read), included) <==>
            data == [] && event.None? && id.None? && retry.None? && comments == []
    ensures EventOf(OpenBlock(read), included) ==
            if Blank(OpenBlock(read), included) then []
            else [SseEvent(Concat(Popped(data)), event, id, retry, comments)]
  {
    PoppedPieces(DataValues(OpenBlock(read)));
  }

  lemma Started(lines: seq<Bytes>, included: bool)
    ensures ClosedEvents(lines[..0], included) == []
    ensures Tracks(lines[..0], included, [], None, None, None, [])
    ensures !AnyRefused(lines[..0])
  {
  }

  lemma ParsedIs(body: Bytes, included: bool, isUtf8: bool)
    ensures Parsed(body, included, isUtf8) ==
            if |body| > MAX_SSE_BODY_BYTES then SseParseResult([], Some(BodyTooLarge))
            else if !isUtf8 then SseParseResult([], Some(NotUtf8))
            else View(Lines(body), included)
  {
  }

  lemma BlankRefusesNothing()
    ensures !Refused("")
  {
  }

  lemma HaltStep(lines: seq<Bytes>, included: bool, i: nat)
    requires i < |lines|
    ensures Halt(lines, included, i) == if Halts(lines, included, i) then i else Halt(lines, included, i + 1)
    ensures Halts(lines, included, i) <==>
            || |lines[i]| > MAX_SSE_LINE_BYTES
            || (lines[i] == "" && !Blank(OpenBlock(lines[..i]), included)
                && |ClosedEvents(lines[..i], included)| >= MAX_SSE_EVENTS)
  {
  }

  lemma HaltedView(lines: seq<Bytes>, included: bool, i: nat)
    requires i < |lines| && Halt(lines, included, 0) == i
    ensures View(lines, included) ==
            SseParseResult(ClosedEvents(lines[..i], included),
                           Some(if |lines[i]| > MAX_SSE_LINE_BYTES then LineTooLong else TooManyEvents))
  {
  }

  lemma FinishedView(lines: seq<Bytes>, included: bool)
    requires Halt(lines, included, 0) == |lines|
    ensures View(lines, included) ==
            if AnyRefused(lines) then SseParseResult(ClosedEvents(lines, included), Some(InvalidField))
            else if Blank(OpenBlock(lines), included) then SseParseResult(ClosedEvents(lines, included), None)
            else if |ClosedEvents(lines, included)| >= MAX_SSE_EVENTS then
              SseParseResult(ClosedEvents(lines, included), Some(TooManyEvents))
            else SseParseResult(ClosedEvents(lines, included) + EventOf(OpenBlock(lines), included), None)
  {
  }

  /**
   * `parse_sse`. A refused field value is remembered as the error but does not stop the loop; a line too long or an
   * event too many does.
   */
  method ParseSse(body: Bytes, includeComments: bool, isUtf8: bool) returns (result: SseParseResult)
    ensures result == Parsed(body, includeComments, isUtf8)
  {
    ParsedIs(body, includeComments, isUtf8);
    hide *;
    if |body| > MAX_SSE_BODY_BYTES {
      return SseParseResult([], Some(BodyTooLarge));
    }
    if !isUtf8 {
      return SseParseResult([], Some(NotUtf8));
    }
    var events: seq<SseEvent>, error: Option<SseError> := [], None;
    var data: seq<Bytes>, comments: seq<Bytes> := [], [];
    var event: Option<Bytes>, id: Option<Bytes>, retry: Option<nat> := None, None, None;
    var lines := Lines(body);
    var i := 0;
    Started(lines, includeComments);
    while i < |lines|
      invariant i <= |lines|
      invariant Halt(lines, includeComments, 0) == Halt(lines, includeComments, i)
      invariant events == ClosedEvents(lines[..i], includeComments)
      invariant Tracks(lines[..i], includeComments, data, event, id, retry, comments)
      invariant error == if AnyRefused(lines[..i]) then Some(InvalidField) else None
    {
      var line := lines[i];
      assert lines[..i + 1] == lines[..i] + [line];
      HaltStep(lines, includeComments, i);
      if |line| > MAX_SSE_LINE_BYTES {
        HaltedView(lines, includeComments, i);
        return SseParseResult(events, Some(LineTooLong));
      }
      AnyRefusedStep(lines[..i], line);
      if line == "" {
        BlankRefusesNothing();
        TracksBlank(lines[..i], includeComments);
        FlushIsEventOf(lines[..i], includeComments, data, event, id, retry, comments);
        if data != [] || event.Some? || id.Some? || retry.Some? || comments != [] {
          if |events| >= MAX_SSE_EVENTS {
            HaltedView(lines, includeComments, i);
            return SseParseResult(events, Some(TooManyEvents));
          }
          data := Popped(data);
          events := events + [SseEvent(Concat(data), event, id, retry, comments)];
          data, event, id, retry, comments := [], None, None, None, [];
        }
      } else {
        LineEffect(lines[..i], includeComments, data, event, id, retry, comments, line);
        if IsComment(line) {
          CommentHasNoName(line);
          if includeComments {
            comments := comments + [StripSpace(line[1..])];
          }
        } else {
          var value := FieldValue(line);
          match FieldName(line) {
            case "data" =>
              data := data + [value, "\n"];
            case "event" =>
              event := Some(value);
            case "id" =>
              if '\0' in value {
                error := Some(InvalidField);
              } else {
                id := Some(value);
              }
            case "retry" =>
              if RetryParses(value) {
                retry := Some(DecimalValue(value));
              } else {
                error := Some(InvalidField);
              }
            case _ =>
          }
        }
      }
      i := i + 1;
    }
    assert lines[..i] == lines;
    FinishedView(lines, includeComments);
    FlushIsEventOf(lines, includeComments, data, event, id, retry, comments);
    result := SseParseResult(events, error);
    if error.None? && (data != [] || event.Some? || id.Some? || retry.Some? || comments != []) {
      if |events| >= MAX_SSE_EVENTS {
        result := SseParseResult(events, Some(TooManyEvents));
      } else {
        data := Popped(data);
        result := SseParseResult(events + [SseEvent(Concat(data), event, id, retry, comments)], None);
      }
    }
  }
}
