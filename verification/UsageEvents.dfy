/** What a stream of server-sent events says about billing usage, read from its whole text. */
module UsageEvents {
  import opened Whitespace

  datatype Option<+T> = None | Some(value: T)

  datatype Json = Null | Bool(b: bool) | Number(text: string) | Text(s: string) | List(items: seq<Json>)
    | Record(fields: map<string, Json>)

  datatype EndpointKind = Responses | Messages | Chat | OtherEndpoint

  datatype Reason = IncompleteUsage | MissingUsage | NotNormal(text: string)

  datatype Normalized<Usage> = Normal(usage: Usage) | Abnormal(reason: string)

  /** JSON parsing and usage normalization as functions. */
  datatype Readers<!Usage> = Readers(
    parse: string -> Option<Json>,
    normalize: (EndpointKind, Option<Json>) -> Normalized<Usage>)

  datatype CaptureResult<Usage> =
    | Complete(usage: Usage, terminalSeen: bool, eventTruncated: bool)
    | Unavailable(reason: Reason, terminalSeen: bool, eventTruncated: bool)

  // ----- Lines

  datatype Lines = NoLines | Then(before: Lines, line: string)

  /** A text cut at its newlines: the whole lines, and what follows the last newline. */
  datatype Pieces = Pieces(lines: Lines, rest: string)

  const NoText := Pieces(NoLines, "")

  /** More text: a newline ends a line, any other character extends the last one. */
  function Cut(pieces: Pieces, text: string): Pieces {
    if text == "" then pieces
    else
      var before, c := Cut(pieces, text[..|text| - 1]), text[|text| - 1];
      if c == '\n' then Pieces(Then(before.lines, before.rest), "") else before.(rest := before.rest + [c])
  }

  lemma {:induction false} CutAppend(pieces: Pieces, text: string, more: string)
    ensures Cut(pieces, text + more) == Cut(Cut(pieces, text), more)
  {
    if more == "" {
      assert text + more == text;
    } else {
      var less := more[..|more| - 1];
      assert (text + more)[..|text + more| - 1] == text + less;
      CutAppend(pieces, text, less);
    }
  }

  predicate OneLine(text: string) {
    '\n' !in text
  }

  lemma {:induction false} CutPlain(pieces: Pieces, text: string)
    requires OneLine(text)
    ensures Cut(pieces, text) == pieces.(rest := pieces.rest + text)
  {
    if text == "" {
      assert pieces.rest + text == pieces.rest;
    } else {
      var less, c := text[..|text| - 1], text[|text| - 1];
      CutPlain(pieces, less);
      assert c in text;
      assert pieces.rest + less + [c] == pieces.rest + text;
    }
  }

  /** Up to the first newline, and the rest. */
  lemma CutAt(lines: Lines, text: string, n: nat)
    requires n < |text| && text[n] == '\n' && OneLine(text[..n])
    ensures Cut(Pieces(lines, ""), text) == Cut(Pieces(Then(lines, text[..n]), ""), text[n + 1..])
  {
    CutPlain(Pieces(lines, ""), text[..n]);
    assert text[..n + 1][..n] == text[..n];
    assert "" + text[..n] == text[..n];
    assert text == text[..n + 1] + text[n + 1..];
    CutAppend(Pieces(lines, ""), text[..n + 1], text[n + 1..]);
  }

  /** A line without the carriage return that ends it. */
  function Stripped(line: string): string {
    if line != "" && line[|line| - 1] == '\r' then line[..|line| - 1] else line
  }

  /** What a text holds from a position on, without the spaces that starts with. */
  function TrimmedFrom(text: string, from: nat): string {
    if |text| <= from then ""
    else
      var before, c := TrimmedFrom(text[..|text| - 1], from), text[|text| - 1];
      if before == "" && IsSpace(c) then "" else before + [c]
  }

  predicate IsData(line: string) {
    |Stripped(line)| >= 5 && Stripped(line)[..5] == "data:"
  }

  function DataOf(line: string): string
    requires IsData(line)
  {
    TrimmedFrom(Stripped(line), 5)
  }

  function Utf8Width(c: char): nat {
    var n := c as int;
    if n < 0x80 then 1 else if n < 0x800 then 2 else if n < 0x1_0000 then 3 else 4
  }

  function Utf8Length(text: string): nat {
    if text == "" then 0 else Utf8Length(text[..|text| - 1]) + Utf8Width(text[|text| - 1])
  }

  // ----- Events: the lines between blank lines

  /** The events of a text, and the lines of the one that no blank line has ended yet. */
  datatype Events = NoEvents | Event(before: Events, block: Lines)

  predicate IsBlank(line: string) {
    Stripped(line) == ""
  }

  function OpenBlock(lines: Lines): Lines {
    match lines
    case NoLines => NoLines
    case Then(before, line) => if IsBlank(line) then NoLines else Then(OpenBlock(before), line)
  }

  function ClosedBlocks(lines: Lines): Events
    decreases lines, 0
  {
    match lines
    case NoLines => NoEvents
    case Then(before, line) => if IsBlank(line) then AllBlocks(before) else ClosedBlocks(before)
  }

  /** Every event of a text, the end of the text included as an end. */
  function AllBlocks(lines: Lines): Events
    decreases lines, 1
  {
    Event(ClosedBlocks(lines), OpenBlock(lines))
  }

  /** The data lines of an event. */
  function BlockData(block: Lines): seq<string> {
    match block
    case NoLines => []
    case Then(before, line) => if IsData(line) then BlockData(before) + [DataOf(line)] else BlockData(before)
  }

  function BlockSize(block: Lines): nat {
    match block
    case NoLines => 0
    case Then(before, line) => BlockSize(before) + if IsData(line) then Utf8Length(DataOf(line)) else 0
  }

  function TotalLength(texts: seq<string>): nat {
    if texts == [] then 0 else TotalLength(texts[..|texts| - 1]) + Utf8Length(texts[|texts| - 1])
  }

  lemma {:induction false} SizeIsLength(block: Lines)
    ensures BlockSize(block) == TotalLength(BlockData(block))
  {
    if block.Then? {
      SizeIsLength(block.before);
      var data := BlockData(block.before);
      if IsData(block.line) {
        assert (data + [DataOf(block.line)])[..|data|] == data;
      }
    }
  }

  function JoinLines(texts: seq<string>): string
    requires texts != []
  {
    if |texts| == 1 then texts[0] else JoinLines(texts[..|texts| - 1]) + "\n" + texts[|texts| - 1]
  }

  // ----- What events say

  datatype Seen = Seen(
    truncated: bool,
    terminal: bool,
    chat: Option<Json>,
    messagesStart: Option<Json>,
    messagesDelta: Option<Json>,
    responses: Option<Json>)

  const NothingSeen := Seen(false, false, None, None, None, None)

  function Field(event: map<string, Json>, key: string): Option<Json> {
    if key in event then Some(event[key]) else None
  }

  predicate HasType(event: map<string, Json>, name: string) {
    Field(event, "type") == Some(Text(name))
  }

  predicate HasRecord(event: map<string, Json>, key: string) {
    key in event && event[key].Record?
  }

  /** One parsed event, read for the endpoint it comes from. */
  function Observed(kind: EndpointKind, seen: Seen, event: Json): Seen {
    if !event.Record? then seen
    else
      var fields := event.fields;
      match kind
      case Responses =>
        if (HasType(fields, "response.completed") || HasType(fields, "response.incomplete"))
          && HasRecord(fields, "response") then
          seen.(responses := Field(fields["response"].fields, "usage"), terminal := true)
        else seen
      case Messages =>
        if HasType(fields, "message_start") && HasRecord(fields, "message") then
          seen.(messagesStart := Field(fields["message"].fields, "usage"))
        else if HasType(fields, "message_delta") then seen.(messagesDelta := Field(fields, "usage"))
        else if HasType(fields, "message_stop") then seen.(terminal := true)
        else seen
      case Chat => if "usage" in fields then seen.(chat := Some(fields["usage"])) else seen
      case OtherEndpoint => seen
  }

  /** The data of one whole event that was kept. */
  function DataSeen(parse: string -> Option<Json>, kind: EndpointKind, seen: Seen, data: seq<string>): Seen {
    if data == [] then seen
    else
      var text := JoinLines(data);
      if text == "[DONE]" then seen.(terminal := true)
      else match parse(text)
        case None => seen.(truncated := true)
        case Some(event) => Observed(kind, seen, event)
  }

  /** One whole event: too large or not JSON means something was lost. */
  function BlockSeen(parse: string -> Option<Json>, kind: EndpointKind, limit: nat, seen: Seen, block: Lines): Seen {
    if BlockSize(block) > limit then seen.(truncated := true) else DataSeen(parse, kind, seen, BlockData(block))
  }

  function AllSeen(parse: string -> Option<Json>, kind: EndpointKind, limit: nat, events: Events): Seen {
    match events
    case NoEvents => NothingSeen
    case Event(before, block) => BlockSeen(parse, kind, limit, AllSeen(parse, kind, limit, before), block)
  }

  /** The usage to normalize, when there is a payload at all. */
  function UsagePayload(kind: EndpointKind, seen: Seen): Option<Option<Json>> {
    match kind
    case Responses => Some(seen.responses)
    case Chat => Some(seen.chat)
    case Messages =>
      if seen.messagesStart.Some? && seen.messagesStart.value.Record? && seen.messagesDelta.Some?
        && seen.messagesDelta.value.Record? then
        Some(Some(Record(seen.messagesStart.value.fields + seen.messagesDelta.value.fields)))
      else None
    case OtherEndpoint => None
  }

  function ResultOf<Usage>(readers: Readers<Usage>, kind: EndpointKind, seen: Seen): CaptureResult<Usage> {
    if seen.truncated then Unavailable(IncompleteUsage, seen.terminal, true)
    else if !seen.terminal then Unavailable(IncompleteUsage, false, false)
    else match UsagePayload(kind, seen)
      case None => Unavailable(MissingUsage, true, false)
      case Some(usage) =>
        match readers.normalize(kind, usage)
        case Normal(normal) => Complete(normal, true, false)
        case Abnormal(reason) => Unavailable(NotNormal(reason), true, false)
  }

  /** The events of a whole text; its end ends a last line and a last event. */
  function TextEvents(text: string): Events {
    var pieces := Cut(NoText, text);
    AllBlocks(Then(pieces.lines, pieces.rest))
  }

  /** What a whole text says, in one pass over its events. */
  function Capture<Usage>(readers: Readers<Usage>, kind: EndpointKind, limit: nat, text: string): CaptureResult<Usage> {
    ResultOf(readers, kind, AllSeen(readers.parse, kind, limit, TextEvents(text)))
  }

  // ----- When a capture is complete

  /** The event is too large or its data is not JSON. */
  predicate Lost(parse: string -> Option<Json>, limit: nat, block: Lines) {
    || BlockSize(block) > limit
    || (BlockData(block) != [] && JoinLines(BlockData(block)) != "[DONE]" && parse(JoinLines(BlockData(block))).None?)
  }

  /** The event ends the stream for this endpoint. */
  predicate Ends(parse: string -> Option<Json>, kind: EndpointKind, limit: nat, block: Lines) {
    && !Lost(parse, limit, block) && BlockData(block) != []
    && (JoinLines(BlockData(block)) == "[DONE]" || EndsStream(kind, parse(JoinLines(BlockData(block))).value))
  }

  predicate EndsStream(kind: EndpointKind, event: Json) {
    && event.Record?
    && (|| (&& kind == Responses && HasRecord(event.fields, "response")
            && (HasType(event.fields, "response.completed") || HasType(event.fields, "response.incomplete")))
        || (kind == Messages && HasType(event.fields, "message_stop")))
  }

  predicate Among(block: Lines, events: Events) {
    events.Event? && (block == events.block || Among(block, events.before))
  }

  ghost predicate AnyLost(parse: string -> Option<Json>, limit: nat, events: Events) {
    exists block :: Among(block, events) && Lost(parse, limit, block)
  }

  ghost predicate AnyEnds(parse: string -> Option<Json>, kind: EndpointKind, limit: nat, events: Events) {
    exists block :: Among(block, events) && Ends(parse, kind, limit, block)
  }

  lemma AnyOneMore(parse: string -> Option<Json>, kind: EndpointKind, limit: nat, events: Events)
    requires events.Event?
    ensures AnyLost(parse, limit, events) <==> AnyLost(parse, limit, events.before) || Lost(parse, limit, events.block)
    ensures AnyEnds(parse, kind, limit, events) <==>
      AnyEnds(parse, kind, limit, events.before) || Ends(parse, kind, limit, events.block)
  {
    assert Among(events.block, events);
    assert forall block :: Among(block, events.before) ==> Among(block, events);
  }

  /** Something counts as lost exactly when some event was, and the stream as ended exactly when
      some event ended it: neither is ever forgotten. */
  lemma {:induction false} FlagsExact(parse: string -> Option<Json>, kind: EndpointKind, limit: nat, events: Events)
    ensures AllSeen(parse, kind, limit, events).truncated <==> AnyLost(parse, limit, events)
    ensures AllSeen(parse, kind, limit, events).terminal <==> AnyEnds(parse, kind, limit, events)
  {
    if events.Event? {
      FlagsExact(parse, kind, limit, events.before);
      AnyOneMore(parse, kind, limit, events);
      BlockFlags(parse, kind, limit, AllSeen(parse, kind, limit, events.before), events.block);
    }
  }

  lemma BlockFlags(parse: string -> Option<Json>, kind: EndpointKind, limit: nat, seen: Seen, block: Lines)
    ensures var after := BlockSeen(parse, kind, limit, seen, block);
            && (after.truncated <==> seen.truncated || Lost(parse, limit, block))
            && (after.terminal <==> seen.terminal || Ends(parse, kind, limit, block))
  {
    if BlockData(block) != [] && !Lost(parse, limit, block) && JoinLines(BlockData(block)) != "[DONE]" {
      var event := parse(JoinLines(BlockData(block))).value;
      assert Observed(kind, seen, event).terminal <==> seen.terminal || EndsStream(kind, event);
    }
  }

  /** A capture is complete exactly when no event was lost, one ended the stream, and the usage it
      left can be normalized. */
  lemma CompleteCapture<Usage>(readers: Readers<Usage>, kind: EndpointKind, limit: nat, text: string)
    ensures var events := TextEvents(text);
            var payload := UsagePayload(kind, AllSeen(readers.parse, kind, limit, events));
            Capture(readers, kind, limit, text).Complete? <==>
            (&& !AnyLost(readers.parse, limit, events)
             && AnyEnds(readers.parse, kind, limit, events)
             && payload.Some? && readers.normalize(kind, payload.value).Normal?)
  {
    FlagsExact(readers.parse, kind, limit, TextEvents(text));
  }

  // ----- Which usage is reported

  /** The record that a whole event holds, when it was kept and can be read. */
  function RecordOf(parse: string -> Option<Json>, limit: nat, block: Lines): Option<map<string, Json>> {
    if BlockSize(block) > limit || BlockData(block) == [] || JoinLines(BlockData(block)) == "[DONE]" then None
    else
      var parsed := parse(JoinLines(BlockData(block)));
      if parsed.Some? && parsed.value.Record? then Some(parsed.value.fields) else None
  }

  /** The last record of a stream that the test accepts. */
  function LastRecord(parse: string -> Option<Json>, limit: nat, events: Events,
                      accepts: map<string, Json> -> bool): Option<map<string, Json>> {
    match events
    case NoEvents => None
    case Event(before, block) =>
      var fields := RecordOf(parse, limit, block);
      if fields.Some? && accepts(fields.value) then fields else LastRecord(parse, limit, before, accepts)
  }

  function FieldOf(event: Option<map<string, Json>>, key: string): Option<Json> {
    if event.Some? then Field(event.value, key) else None
  }

  /** A field of a record inside the last event. */
  function InnerField(event: Option<map<string, Json>>, outer: string, key: string): Option<Json> {
    if event.Some? && HasRecord(event.value, outer) then Field(event.value[outer].fields, key) else None
  }

  predicate ClosesResponse(fields: map<string, Json>) {
    (HasType(fields, "response.completed") || HasType(fields, "response.incomplete")) && HasRecord(fields, "response")
  }

  predicate StartsMessage(fields: map<string, Json>) {
    HasType(fields, "message_start") && HasRecord(fields, "message")
  }

  predicate ChangesMessage(fields: map<string, Json>) {
    HasType(fields, "message_delta")
  }

  predicate CarriesUsage(fields: map<string, Json>) {
    "usage" in fields
  }

  /** Each endpoint's usage is that of the last event of the right kind, wherever events that say
      nothing, or were lost, stand between. */
  lemma {:induction false} UsageIsLast(parse: string -> Option<Json>, kind: EndpointKind, limit: nat, events: Events)
    ensures var seen := AllSeen(parse, kind, limit, events);
            && (kind == Responses ==>
                seen.responses == InnerField(LastRecord(parse, limit, events, ClosesResponse), "response", "usage"))
            && (kind == Messages ==>
                seen.messagesStart == InnerField(LastRecord(parse, limit, events, StartsMessage), "message", "usage"))
            && (kind == Messages ==>
                seen.messagesDelta == FieldOf(LastRecord(parse, limit, events, ChangesMessage), "usage"))
            && (kind == Chat ==> seen.chat == FieldOf(LastRecord(parse, limit, events, CarriesUsage), "usage"))
  {
    if events.Event? {
      UsageIsLast(parse, kind, limit, events.before);
    }
  }

  // ----- Reading line by line

  /** What is kept of the event that is still open: its data, unless it grew too large. */
  datatype OpenEvent = OpenEvent(discard: bool, size: nat, data: seq<string>)

  const NoEvent := OpenEvent(false, 0, [])

  function Kept(limit: nat, block: Lines): OpenEvent {
    var lost := BlockSize(block) > limit;
    OpenEvent(lost, BlockSize(block), if lost then [] else BlockData(block))
  }

  /** What the closed events said, and that an open one is already too large. */
  function Said(parse: string -> Option<Json>, kind: EndpointKind, limit: nat, lines: Lines): Seen {
    var said := AllSeen(parse, kind, limit, ClosedBlocks(lines));
    if BlockSize(OpenBlock(lines)) > limit then said.(truncated := true) else said
  }

  /** A blank line ends the open event, and what it says is seen. */
  lemma BlankEnds(parse: string -> Option<Json>, kind: EndpointKind, limit: nat, lines: Lines, line: string)
    requires IsBlank(line)
    ensures Kept(limit, OpenBlock(Then(lines, line))) == NoEvent
    ensures Said(parse, kind, limit, Then(lines, line)) == AllSeen(parse, kind, limit, AllBlocks(lines))
  {
  }

  /** Any other line belongs to the open event; too much data loses the event. */
  lemma LineAdds(parse: string -> Option<Json>, kind: EndpointKind, limit: nat, lines: Lines, line: string)
    requires !IsBlank(line)
    ensures var size := BlockSize(OpenBlock(lines)) + if IsData(line) then Utf8Length(DataOf(line)) else 0;
            var kept, said := Kept(limit, OpenBlock(lines)), Said(parse, kind, limit, lines);
            && Kept(limit, OpenBlock(Then(lines, line))) ==
               (if !IsData(line) then kept
                else if size > limit then OpenEvent(true, size, [])
                else OpenEvent(false, size, kept.data + [DataOf(line)]))
            && Said(parse, kind, limit, Then(lines, line)) == if size > limit then said.(truncated := true) else said
  {
  }

  predicate Extends(longer: Lines, lines: Lines) {
    longer == lines || (longer.Then? && Extends(longer.before, lines))
  }

  /** What was lost stays lost, and an end that was seen stays seen. */
  lemma {:induction false} SaidSticky(parse: string -> Option<Json>, kind: EndpointKind, limit: nat, lines: Lines,
                                      longer: Lines)
    requires Extends(longer, lines)
    ensures Said(parse, kind, limit, lines).truncated ==> Said(parse, kind, limit, longer).truncated
    ensures Said(parse, kind, limit, lines).terminal ==> Said(parse, kind, limit, longer).terminal
  {
    if lines != longer {
      var before := longer.before;
      SaidSticky(parse, kind, limit, lines, before);
      assert AllSeen(parse, kind, limit, AllBlocks(before)) ==
             BlockSeen(parse, kind, limit, AllSeen(parse, kind, limit, ClosedBlocks(before)), OpenBlock(before));
      BlockFlags(parse, kind, limit, AllSeen(parse, kind, limit, ClosedBlocks(longer.before)),
        OpenBlock(longer.before));
    }
  }
}
