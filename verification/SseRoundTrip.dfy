/**
 * The parser reads back what is printed in the format of section 9.2.6 of the HTML Living Standard, field by field; and
 * of a field that a block repeats it keeps the last value.
 */
module SseRoundTrip {
  import opened Prelude
  import opened TextParsing
  import opened Sse
  import opened SseTheorems

  // ---- Printing ----

  function FieldLine(name: Bytes, value: Bytes): Bytes
  {
    name + ": " + value
  }

  function FieldLines(name: Bytes, values: seq<Bytes>): seq<Bytes>
  {
    if values == [] then [] else FieldLines(name, values[..|values| - 1]) + [FieldLine(name, values[|values| - 1])]
  }

  function OptionalLine(name: Bytes, value: Option<Bytes>): seq<Bytes>
  {
    if value.Some? then [FieldLine(name, value.value)] else []
  }

  function RetryText(retry: Option<nat>): Option<Bytes>
  {
    if retry.Some? then Some(Decimal(retry.value)) else None
  }

  /** The lines of one event; a comment line is a field line without a name. */
  function BlockOf(e: SseEvent): seq<Bytes>
  {
    FieldLines("", e.comments)
    + OptionalLine("event", e.event)
    + OptionalLine("id", e.id)
    + OptionalLine("retry", RetryText(e.retry))
    + FieldLines("data", Split(e.data, '\n'))
  }

  /** The lines of a list of events, a blank one after each. */
  function Script(es: seq<SseEvent>): seq<Bytes>
  {
    if es == [] then [] else Script(es[..|es| - 1]) + BlockOf(es[|es| - 1]) + [""]
  }

  /** Each line ended by a line feed. */
  function Text(lines: seq<Bytes>): Bytes
  {
    if lines == [] then "" else lines[0] + "\n" + Text(lines[1..])
  }

  /** A value that a line can hold: no line feed, no carriage return at its end, and short enough. */
  predicate Holdable(value: Bytes)
  {
    '\n' !in value && (value == "" || value[|value| - 1] != '\r') && |value| + 7 <= MAX_SSE_LINE_BYTES
  }

  predicate Printable(e: SseEvent)
  {
    && (forall value :: value in Split(e.data, '\n') ==> Holdable(value))
    && (e.event.Some? ==> Holdable(e.event.value))
    && (e.id.Some? ==> Holdable(e.id.value) && '\0' !in e.id.value)
    && (e.retry.Some? ==> e.retry.value <= U64_MAX)
    && (forall c :: c in e.comments ==> Holdable(c))
  }

  // ---- Reading one line ----

  lemma FieldLineReads(name: Bytes, value: Bytes)
    requires ':' !in name
    ensures var line := FieldLine(name, value);
            && FieldName(line) == name
            && FieldValue(line) == value
            && (IsComment(line) <==> name == "")
            && (name == "" ==> StripSpace(line[1..]) == value)
  {
    var line := FieldLine(name, value);
    var k, n := Colon(line), |name|;
    assert line[n] == ':';
    assert k == n;
    assert line[..n] == name && line[n + 1..] == " " + value;
    hide Colon;
  }

  /** A line that ends as printed, is short, is not blank and is not refused. */
  predicate Sound(line: Bytes)
  {
    line != "" && '\n' !in line && line[|line| - 1] != '\r' && |line| <= MAX_SSE_LINE_BYTES && !Refused(line)
  }

  lemma FieldLineSound(name: Bytes, value: Bytes)
    requires name in {"", "data", "event", "id", "retry"} && Holdable(value)
    requires name == "id" ==> '\0' !in value
    requires name == "retry" ==> RetryParses(value)
    ensures Sound(FieldLine(name, value))
  {
    FieldLineReads(name, value);
    var line := FieldLine(name, value);
    assert value == "" ==> line[|line| - 1] == ' ';
    assert value != "" ==> line[|line| - 1] == value[|value| - 1];
    hide FieldName, FieldValue, RetryParses;
  }

  /** A retry value is a decimal number that fits 64 bits, and nothing else. */
  lemma RetryIff(value: Bytes)
    ensures RetryParses(value) <==>
      && value != ""
      && (forall c :: c in value ==> '0' <= c <= '9')
      && DecimalValue(value) < 0x1_0000_0000_0000_0000
  {
    assert forall i :: 0 <= i < |value| ==> value[i] in value;
    hide DecimalValue;
  }

  /** A field is refused exactly for an identifier with a NUL or a retry that is no such number. */
  lemma RefusedIff(name: Bytes, value: Bytes)
    requires ':' !in name
    ensures Refused(FieldLine(name, value)) <==>
      (name == "id" && '\0' in value) || (name == "retry" && !RetryParses(value))
  {
    FieldLineReads(name, value);
    hide FieldName, FieldValue, RetryParses, FieldLine;
  }

  // ---- Reading one block ----

  /** What a block says, field by field. */
  predicate Says(block: seq<Bytes>, included: bool, values: seq<Bytes>, event: Option<Bytes>, id: Option<Bytes>,
                 retry: Option<nat>, comments: seq<Bytes>)
  {
    && (forall line :: line in block ==> Sound(line))
    && DataValues(block) == values
    && LastEvent(block) == event
    && LastId(block) == id
    && LastRetry(block) == retry
    && Comments(block, included) == if included then comments else []
  }

  lemma SaysMore(block: seq<Bytes>, included: bool, values: seq<Bytes>, event: Option<Bytes>, id: Option<Bytes>,
                 retry: Option<nat>, comments: seq<Bytes>, name: Bytes, value: Bytes)
    requires Says(block, included, values, event, id, retry, comments)
    requires name in {"", "data", "event", "id", "retry"} && Holdable(value)
    requires name == "id" ==> '\0' !in value
    requires name == "retry" ==> RetryParses(value)
    ensures Says(block + [FieldLine(name, value)], included,
                 if name == "data" then values + [value] else values,
                 if name == "event" then Some(value) else event,
                 if name == "id" then Some(value) else id,
                 if name == "retry" then Some(DecimalValue(value)) else retry,
                 if name == "" then comments + [value] else comments)
  {
    var line := FieldLine(name, value);
    FieldLineReads(name, value);
    FieldLineSound(name, value);
    hide *;
    SoundMore(block, line);
    BlockStep(block, included, line);
    NothingMore(values, Comments(block, included));
    SaysAre(block, included, values, event, id, retry, comments);
    SaysAre(block + [line], included,
            if name == "data" then values + [value] else values,
            if name == "event" then Some(value) else event,
            if name == "id" then Some(value) else id,
            if name == "retry" then Some(DecimalValue(value)) else retry,
            if name == "" then comments + [value] else comments);
  }

  lemma NothingMore(values: seq<Bytes>, comments: seq<Bytes>)
    ensures values + [] == values && comments + [] == comments
  {
  }

  lemma SaysAre(block: seq<Bytes>, included: bool, values: seq<Bytes>, event: Option<Bytes>, id: Option<Bytes>,
                retry: Option<nat>, comments: seq<Bytes>)
    ensures Says(block, included, values, event, id, retry, comments) <==>
      && (forall line :: line in block ==> Sound(line))
      && DataValues(block) == values
      && LastEvent(block) == event
      && LastId(block) == id
      && LastRetry(block) == retry
      && Comments(block, included) == if included then comments else []
  {
  }

  lemma SoundMore(block: seq<Bytes>, line: Bytes)
    requires Sound(line) && forall l :: l in block ==> Sound(l)
    ensures !Refused(line) && forall l :: l in block + [line] ==> Sound(l)
  {
  }

  lemma {:induction false} SaysComments(comments: seq<Bytes>, included: bool)
    requires forall c :: c in comments ==> Holdable(c)
    ensures Says(FieldLines("", comments), included, [], None, None, None, comments)
  {
    if comments != [] {
      var front, last := comments[..|comments| - 1], comments[|comments| - 1];
      assert last in comments && comments == front + [last];
      SaysComments(front, included);
      SaysMore(FieldLines("", front), included, [], None, None, None, front, "", last);
    }
    hide Sound, Holdable;
  }

  lemma SaysOption(block: seq<Bytes>, included: bool, event: Option<Bytes>, id: Option<Bytes>, retry: Option<nat>,
                   comments: seq<Bytes>, name: Bytes, value: Option<Bytes>)
    requires Says(block, included, [], event, id, retry, comments) && name in {"event", "id", "retry"}
    requires value.Some? ==> Holdable(value.value)
    requires name == "id" && value.Some? ==> '\0' !in value.value
    requires name == "retry" && value.Some? ==> RetryParses(value.value)
    ensures Says(block + OptionalLine(name, value), included, [],
                 if name == "event" && value.Some? then value else event,
                 if name == "id" && value.Some? then value else id,
                 if name == "retry" && value.Some? then Some(DecimalValue(value.value)) else retry,
                 comments)
  {
    assert block + [] == block;
    hide Says, RetryParses, DecimalValue, Holdable;
    if value.Some? {
      SaysMore(block, included, [], event, id, retry, comments, name, value.value);
    }
  }

  lemma {:induction false} SaysData(block: seq<Bytes>, included: bool, event: Option<Bytes>, id: Option<Bytes>,
                                    retry: Option<nat>, comments: seq<Bytes>, values: seq<Bytes>)
    requires Says(block, included, [], event, id, retry, comments)
    requires forall value :: value in values ==> Holdable(value)
    ensures Says(block + FieldLines("data", values), included, values, event, id, retry, comments)
  {
    hide Says, Holdable, FieldLine;
    if values == [] {
      assert block + [] == block;
    } else {
      var front, last := values[..|values| - 1], values[|values| - 1];
      assert last in values && values == front + [last];
      SaysData(block, included, event, id, retry, comments, front);
      SaysMore(block + FieldLines("data", front), included, front, event, id, retry, comments, "data", last);
      assert block + FieldLines("data", values) == block + FieldLines("data", front) + [FieldLine("data", last)];
    }
  }

  lemma {:induction false} SmallDecimal(n: nat, k: nat)
    requires n < Power10(k) && k > 0
    ensures |Decimal(n)| <= k
  {
    if n >= 10 {
      SmallDecimal(n / 10, k - 1);
    }
  }

  function Power10(k: nat): nat
  {
    if k == 0 then 1 else 10 * Power10(k - 1)
  }

  lemma TwentyDigits()
    ensures Power10(20) > U64_MAX
  {
    assert Power10(5) == 100_000;
    assert Power10(10) == 10_000_000_000;
    assert Power10(15) == 1_000_000_000_000_000;
    assert Power10(20) == 100_000_000_000_000_000_000;
  }

  lemma RetryPrintable(n: nat)
    requires n <= U64_MAX
    ensures Holdable(Decimal(n)) && RetryParses(Decimal(n))
  {
    TwentyDigits();
    SmallDecimal(n, 20);
    var s := Decimal(n);
    assert AllDigits(s);
    hide Power10;
    assert forall c :: c in s ==> '0' <= c <= '9';
  }

  lemma BlockSays(e: SseEvent, included: bool)
    requires Printable(e)
    ensures Says(BlockOf(e), included, Split(e.data, '\n'), e.event, e.id, e.retry, e.comments)
  {
    if e.retry.Some? {
      RetryPrintable(e.retry.value);
    }
    var a := FieldLines("", e.comments);
    var b := a + OptionalLine("event", e.event);
    var c := b + OptionalLine("id", e.id);
    var d := c + OptionalLine("retry", RetryText(e.retry));
    hide Says, Holdable, FieldLines, OptionalLine, Split, RetryParses, DecimalValue;
    SaysComments(e.comments, included);
    SaysOption(a, included, None, None, None, e.comments, "event", e.event);
    SaysOption(b, included, e.event, None, None, e.comments, "id", e.id);
    SaysOption(c, included, e.event, e.id, None, e.comments, "retry", RetryText(e.retry));
    SaysData(d, included, e.event, e.id, e.retry, e.comments, Split(e.data, '\n'));
  }

  /** The event as it is read: without its comments when those are not asked for. */
  function Shown(e: SseEvent, included: bool): SseEvent
  {
    if included then e else e.(comments := [])
  }

  lemma {:induction false} JoinSplit(text: Bytes)
    ensures JoinLf(Split(text, '\n')) == text
  {
    var values := Split(text, '\n');
    LinesHaveNoLf(text);
    SplitJoined(values);
    SplitInjective(JoinLf(values), text);
  }

  lemma {:induction false} SplitInjective(a: Bytes, b: Bytes)
    requires Split(a, '\n') == Split(b, '\n')
    ensures a == b
  {
    if a != "" {
      SplitTail(a);
    }
    if b != "" {
      SplitTail(b);
    }
    if a != "" && b != "" {
      SplitInjective(a[1..], b[1..]);
      assert a == [a[0]] + a[1..] && b == [b[0]] + b[1..];
    }
  }

  /** The parts tell the first character and the parts of the rest. */
  lemma SplitTail(s: Bytes)
    requires s != ""
    ensures var parts := Split(s, '\n');
            && (s[0] == '\n' <==> parts[0] == "")
            && Split(s[1..], '\n') ==
               (if parts[0] == "" then parts[1..] else [parts[0][1..]] + parts[1..])
            && (parts[0] != "" ==> parts[0][0] == s[0])
            && (parts[0] == "" ==> |parts| > 1)
  {
    var rest := Split(s[1..], '\n');
    if s[0] != '\n' {
      assert ([s[0]] + rest[0])[1..] == rest[0];
    }
  }

  lemma BlockReads(e: SseEvent, included: bool)
    requires Printable(e)
    ensures EventOf(BlockOf(e), included) == [Shown(e, included)]
    ensures forall line :: line in BlockOf(e) ==> Sound(line)
  {
    BlockSays(e, included);
    JoinSplit(e.data);
    hide BlockOf, Split, Sound, JoinLf, DataValues, LastEvent, LastId, LastRetry, Comments;
  }

  // ---- Reading a body ----

  lemma {:induction false} OpensBlock(read: seq<Bytes>, block: seq<Bytes>, included: bool)
    requires OpenBlock(read) == [] && forall line :: line in block ==> line != ""
    ensures OpenBlock(read + block) == block
    ensures ClosedEvents(read + block, included) == ClosedEvents(read, included)
  {
    hide OpenBlock, ClosedEvents;
    if block == [] {
      assert read + block == read;
    } else {
      var front, last := block[..|block| - 1], block[|block| - 1];
      assert last in block && block == front + [last];
      assert forall line :: line in front ==> line in block;
      OpensBlock(read, front, included);
      TracksLine(read + front, included, last);
      assert read + block == read + front + [last];
    }
  }

  function ShownAll(es: seq<SseEvent>, included: bool): (r: seq<SseEvent>)
    ensures |r| == |es| && forall i :: 0 <= i < |es| ==> r[i] == Shown(es[i], included)
  {
    seq(|es|, i requires 0 <= i < |es| => Shown(es[i], included))
  }

  /** A line of a script is blank or sound. */
  predicate Clean(line: Bytes)
  {
    line == "" || Sound(line)
  }

  lemma {:induction false} ScriptReads(es: seq<SseEvent>, included: bool)
    requires forall e :: e in es ==> Printable(e)
    ensures OpenBlock(Script(es)) == [] && ClosedEvents(Script(es), included) == ShownAll(es, included)
    ensures forall line :: line in Script(es) ==> Clean(line)
  {
    if es != [] {
      var front, last := es[..|es| - 1], es[|es| - 1];
      assert last in es && forall e :: e in front ==> e in es;
      assert Script(es) == Script(front) + BlockOf(last) + [""];
      assert ShownAll(es, included) == ShownAll(front, included) + [Shown(last, included)];
      hide Printable, OpenBlock, ClosedEvents, EventOf, BlockOf, Sound, Shown, ShownAll, Script, Clean;
      ScriptReads(front, included);
      BlockReads(last, included);
      OneMoreBlock(Script(front), ShownAll(front, included), BlockOf(last), Shown(last, included), included);
    }
  }

  lemma OneMoreBlock(read: seq<Bytes>, events: seq<SseEvent>, block: seq<Bytes>, event: SseEvent, included: bool)
    requires OpenBlock(read) == [] && ClosedEvents(read, included) == events
    requires EventOf(block, included) == [event] && forall line :: line in block ==> Sound(line)
    requires forall line :: line in read ==> Clean(line)
    ensures OpenBlock(read + block + [""]) == []
    ensures ClosedEvents(read + block + [""], included) == events + [event]
    ensures forall line :: line in read + block + [""] ==> Clean(line)
  {
    assert forall line :: line in block ==> line != "";
    hide OpenBlock, ClosedEvents, EventOf, Sound;
    OpensBlock(read, block, included);
    TracksBlank(read + block, included);
    hide Tracks;
  }

  lemma {:induction false} TextLines(lines: seq<Bytes>)
    requires forall line :: line in lines ==> Clean(line)
    ensures Split(Text(lines), '\n') == lines + [""]
  {
    if lines != [] {
      var first, rest := lines[0], lines[1..];
      assert first in lines;
      TextLines(rest);
      SplitOne(first, '\n');
      SplitJoin(first, Text(rest), '\n');
      hide Split, Refused;
      assert lines + [""] == [first] + (rest + [""]);
    }
  }

  lemma CleanLines(lines: seq<Bytes>)
    requires forall line :: line in lines ==> Clean(line)
    ensures Lines(Text(lines)) == lines + [""]
    ensures !AnyRefused(lines + [""]) && forall line :: line in lines + [""] ==> |line| <= MAX_SSE_LINE_BYTES
  {
    TextLines(lines);
    BlankRefusesNothing();
    var all := lines + [""];
    forall i | 0 <= i < |all|
      ensures StripCr(all[i]) == all[i] && !Refused(all[i]) && |all[i]| <= MAX_SSE_LINE_BYTES
    {
      assert i < |lines| ==> all[i] in lines;
    }
    hide Refused, StripCr, Split, Text;
    assert StripEach(all) == all;
  }

  /** Round trip: a stream printed event by event parses without error to exactly those events. */
  lemma PrintedParses(es: seq<SseEvent>, included: bool)
    requires (forall e :: e in es ==> Printable(e)) && |es| <= MAX_SSE_EVENTS
    requires |Text(Script(es))| <= MAX_SSE_BODY_BYTES
    ensures Parsed(Text(Script(es)), included, true) == SseParseResult(ShownAll(es, included), None)
  {
    var lines := Script(es);
    ScriptReads(es, included);
    CleanLines(lines);
    SucceedsIff(Text(lines), included, true);
    TracksBlank(lines, included);
    assert EventOf([], included) == [];
    hide Parsed, Lines, AnyRefused, ClosedEvents, OpenBlock, EventOf, Script, Text, Clean, Printable, Tracks, ShownAll;
    assert ShownAll(es, included) + [] + [] == ShownAll(es, included);
  }

  // ---- Repeated fields ----

  /** Line `i` is the last of its field that is not refused. */
  predicate LastAt(block: seq<Bytes>, name: Bytes, i: nat)
  {
    && i < |block|
    && FieldName(block[i]) == name
    && !Refused(block[i])
    && forall k :: i < k < |block| && FieldName(block[k]) == name ==> Refused(block[k])
  }

  lemma LastStep(block: seq<Bytes>, name: Bytes, line: Bytes)
    ensures var more, takes := block + [line], FieldName(line) == name && !Refused(line);
            && (forall i: nat :: LastAt(more, name, i) <==>
                  if takes then i == |block| else LastAt(block, name, i))
            && (forall i: nat :: i < |block| ==> more[i] == block[i])
  {
    var more := block + [line];
    hide FieldName, Refused;
    assert more[|block|] == line;
    assert forall i: nat :: i < |block| ==> more[i] == block[i];
  }

  lemma {:induction false} LastEventIff(block: seq<Bytes>, value: Bytes)
    ensures LastEvent(block) == Some(value) <==> exists i: nat :: LastAt(block, "event", i) && FieldValue(block[i]) == value
  {
    if block != [] {
      var front, last := block[..|block| - 1], block[|block| - 1];
      assert block == front + [last];
      LastEventIff(front, value);
      LastStep(front, "event", last);
      hide FieldName, FieldValue, LastAt;
      assert FieldName(last) == "event" ==> !Refused(last);
    }
  }

  lemma {:induction false} LastIdIff(block: seq<Bytes>, value: Bytes)
    ensures LastId(block) == Some(value) <==> exists i: nat :: LastAt(block, "id", i) && FieldValue(block[i]) == value
  {
    if block != [] {
      var front, last := block[..|block| - 1], block[|block| - 1];
      assert block == front + [last];
      LastIdIff(front, value);
      LastStep(front, "id", last);
      hide FieldName, FieldValue, LastAt, Refused;
    }
  }

  lemma {:induction false} LastRetryIff(block: seq<Bytes>, n: nat)
    ensures LastRetry(block) == Some(n)
       <==> exists i: nat :: LastAt(block, "retry", i) && DecimalValue(FieldValue(block[i])) == n
  {
    if block != [] {
      var front, last := block[..|block| - 1], block[|block| - 1];
      assert block == front + [last];
      LastRetryIff(front, n);
      LastStep(front, "retry", last);
      hide FieldName, FieldValue, LastAt, Refused, DecimalValue;
    }
  }
}
