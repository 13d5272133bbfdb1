/** Streams as a server writes them, and what the reader makes of them: the events read are the events
    written, and the usage reported is that of the right ones. */
module UsageStreams {
  import opened Whitespace
  import opened UsageEvents

  // ----- Writing a stream

  /** A line of an event: a piece of its data behind some spaces, or a comment or other field. */
  datatype Part = Data(pad: string, text: string) | Note(text: string)

  predicate EndsWithReturn(text: string) {
    text != "" && text[|text| - 1] == '\r'
  }

  /** What can be written so that it can be read back: lines without breaks, data that does not begin
      with a space. */
  ghost predicate Writable(p: Part) {
    && OneLine(p.text) && !EndsWithReturn(p.text)
    && match p
       case Data(pad, text) =>
         OneLine(pad) && '\r' !in pad && (forall c :: c in pad ==> IsSpace(c)) && (text != "" ==> !IsSpace(text[0]))
       case Note(text) => text != "" && !("data:" <= text)
  }

  function LineOf(p: Part): string {
    match p
    case Data(pad, text) => "data:" + pad + text
    case Note(text) => text
  }

  /** Both line endings are used by servers. */
  function Return(crlf: bool): string {
    if crlf then "\r" else ""
  }

  /** The lines of an event, without the blank line that ends it. */
  function WriteParts(parts: seq<Part>, crlf: bool): string {
    if parts == [] then ""
    else WriteParts(parts[..|parts| - 1], crlf) + (LineOf(parts[|parts| - 1]) + Return(crlf) + "\n")
  }

  function WriteEvents(events: seq<seq<Part>>, crlf: bool): string {
    if events == [] then ""
    else WriteEvents(events[..|events| - 1], crlf) + (WriteParts(events[|events| - 1], crlf) + (Return(crlf) + "\n"))
  }

  ghost predicate AllWritable(events: seq<seq<Part>>) {
    forall n, i {:trigger events[n][i]} :: 0 <= n < |events| && 0 <= i < |events[n]| ==> Writable(events[n][i])
  }

  // ----- What an event says

  function Texts(parts: seq<Part>): seq<string> {
    if parts == [] then []
    else
      var last := parts[|parts| - 1];
      Texts(parts[..|parts| - 1]) + if last.Data? then [last.text] else []
  }

  /** The data of an event as one text: its pieces with line breaks between them. */
  function Together(texts: seq<string>): string {
    if texts == [] then "" else if |texts| == 1 then texts[0] else texts[0] + "\n" + Together(texts[1..])
  }

  /** The UTF-8 form of a character. */
  function Utf8(c: char): seq<int> {
    var n := c as int;
    if n < 0x80 then [n]
    else if n < 0x800 then [0xC0 + n / 0x40, 0x80 + n % 0x40]
    else if n < 0x1_0000 then [0xE0 + n / 0x1000, 0x80 + n / 0x40 % 0x40, 0x80 + n % 0x40]
    else [0xF0 + n / 0x4_0000, 0x80 + n / 0x1000 % 0x40, 0x80 + n / 0x40 % 0x40, 0x80 + n % 0x40]
  }

  /** The payload of a UTF-8 sequence, six bits for every byte behind the first. */
  function Utf8Value(bytes: seq<int>): int {
    if bytes == [] then 0
    else if |bytes| == 1 then if bytes[0] < 0x80 then bytes[0] else if bytes[0] < 0xE0 then bytes[0] - 0xC0
                              else if bytes[0] < 0xF0 then bytes[0] - 0xE0 else bytes[0] - 0xF0
    else Utf8Value(bytes[..|bytes| - 1]) * 0x40 + (bytes[|bytes| - 1] - 0x80)
  }

  /** The width counted for a character is that of its UTF-8 form, which can be read back. */
  lemma Utf8Counted(c: char)
    ensures Utf8Width(c) == |Utf8(c)| && Utf8Value(Utf8(c)) == c as int
    ensures forall i :: 1 <= i < |Utf8(c)| ==> 0x80 <= Utf8(c)[i] < 0xC0
    ensures 0 <= Utf8(c)[0] < 0x80 || 0xC2 <= Utf8(c)[0] < 0xF5
  {
    var n, bytes := c as int, Utf8(c);
    assert n / 0x1000 == n / 0x40 / 0x40 && n / 0x4_0000 == n / 0x1000 / 0x40;
    if |bytes| == 2 {
      assert bytes[..1] == [bytes[0]];
    } else if |bytes| == 3 {
      assert bytes[..2] == [bytes[0], bytes[1]] && bytes[..2][..1] == [bytes[0]];
      assert Utf8Value([bytes[0]]) == n / 0x1000;
      assert Utf8Value(bytes[..2]) == n / 0x40;
    } else if |bytes| == 4 {
      assert bytes[..3] == [bytes[0], bytes[1], bytes[2]] && bytes[..3][..2] == [bytes[0], bytes[1]];
      assert bytes[..3][..2][..1] == [bytes[0]];
      assert Utf8Value([bytes[0]]) == n / 0x4_0000;
      assert Utf8Value(bytes[..3][..2]) == n / 0x1000;
      assert Utf8Value(bytes[..3]) == n / 0x40;
    }
  }

  function Utf8All(text: string): seq<int> {
    if text == "" then [] else Utf8(text[0]) + Utf8All(text[1..])
  }

  function BytesOf(texts: seq<string>): nat {
    if texts == [] then 0 else |Utf8All(texts[0])| + BytesOf(texts[1..])
  }

  // ----- The reader agrees

  lemma {:induction false} LengthAppend(a: string, b: string)
    ensures Utf8Length(a + b) == Utf8Length(a) + Utf8Length(b)
  {
    if b == "" {
      assert a + b == a;
    } else {
      assert (a + b)[..|a + b| - 1] == a + b[..|b| - 1];
      LengthAppend(a, b[..|b| - 1]);
    }
  }

  lemma {:induction false} LengthCounted(text: string)
    ensures Utf8Length(text) == |Utf8All(text)|
  {
    if text != "" {
      LengthCounted(text[1..]);
      assert text == text[..1] + text[1..] && text[..1][..0] == "";
      LengthAppend(text[..1], text[1..]);
      Utf8Counted(text[0]);
    }
  }

  lemma {:induction false} TotalAppend(texts: seq<string>, more: seq<string>)
    ensures TotalLength(texts + more) == TotalLength(texts) + TotalLength(more)
  {
    if more == [] {
      assert texts + more == texts;
    } else {
      assert (texts + more)[..|texts + more| - 1] == texts + more[..|more| - 1];
      TotalAppend(texts, more[..|more| - 1]);
    }
  }

  lemma {:induction false} TotalCounted(texts: seq<string>)
    ensures TotalLength(texts) == BytesOf(texts)
  {
    if texts != [] {
      TotalCounted(texts[1..]);
      assert texts == texts[..1] + texts[1..] && texts[..1][..0] == [];
      TotalAppend(texts[..1], texts[1..]);
      LengthCounted(texts[0]);
    }
  }

  lemma {:induction false} JoinedFront(text: string, texts: seq<string>)
    requires texts != []
    ensures JoinLines([text] + texts) == text + "\n" + JoinLines(texts)
  {
    var all := [text] + texts;
    if |texts| == 1 {
      assert all[..1] == [text];
    } else {
      var less, last := texts[..|texts| - 1], texts[|texts| - 1];
      assert all[..|all| - 1] == [text] + less;
      JoinedFront(text, less);
      assert text + "\n" + JoinLines(less) + "\n" + last == text + "\n" + (JoinLines(less) + "\n" + last);
    }
  }

  lemma {:induction false} JoinedTogether(texts: seq<string>)
    requires texts != []
    ensures JoinLines(texts) == Together(texts)
  {
    if |texts| > 1 {
      assert texts == [texts[0]] + texts[1..];
      JoinedTogether(texts[1..]);
      JoinedFront(texts[0], texts[1..]);
    }
  }

  /** Trimming behind a head drops the spaces and keeps the text. */
  lemma {:induction false} TrimmedPad(head: string, pad: string)
    requires forall c :: c in pad ==> IsSpace(c)
    ensures TrimmedFrom(head + pad, |head|) == ""
  {
    if pad != "" {
      var less, c := pad[..|pad| - 1], pad[|pad| - 1];
      assert (head + pad)[..|head + pad| - 1] == head + less;
      assert c in pad && forall d :: d in less ==> d in pad;
      TrimmedPad(head, less);
    }
  }

  lemma {:induction false} TrimmedText(head: string, pad: string, text: string)
    requires (forall c :: c in pad ==> IsSpace(c)) && (text != "" ==> !IsSpace(text[0]))
    ensures TrimmedFrom(head + pad + text, |head|) == text
  {
    if text == "" {
      assert head + pad + text == head + pad;
      TrimmedPad(head, pad);
    } else {
      var less, c := text[..|text| - 1], text[|text| - 1];
      var whole := head + pad + text;
      assert whole[..|whole| - 1] == head + pad + less && whole[|whole| - 1] == c;
      TrimmedText(head, pad, less);
      assert text == less + [c];
    }
  }

  lemma StrippedLine(p: Part, crlf: bool)
    requires Writable(p)
    ensures Stripped(LineOf(p) + Return(crlf)) == LineOf(p)
  {
    var line := LineOf(p);
    if crlf {
      assert (line + "\r")[..|line|] == line;
    } else {
      assert line + "" == line;
      if p.Data? && p.text == "" {
        assert line == "data:" + p.pad;
        if p.pad != "" {
          assert line[|line| - 1] == p.pad[|p.pad| - 1] && p.pad[|p.pad| - 1] in p.pad;
        }
      } else {
        assert line[|line| - 1] == p.text[|p.text| - 1];
      }
    }
  }

  /** A written line is not blank, is data exactly when it was written as data, and then holds its text. */
  lemma LineRead(p: Part, crlf: bool)
    requires Writable(p)
    ensures var line := LineOf(p) + Return(crlf);
            && OneLine(line) && !IsBlank(line) && (IsData(line) <==> p.Data?)
            && (p.Data? ==> DataOf(line) == p.text)
  {
    var line := LineOf(p) + Return(crlf);
    StrippedLine(p, crlf);
    if p.Data? {
      assert LineOf(p)[..5] == "data:";
      TrimmedText("data:", p.pad, p.text);
    }
  }

  /** One more line behind a text cut into lines. */
  lemma LineCut(pieces: Pieces, line: string)
    requires OneLine(line)
    ensures Cut(pieces, line + "\n") == Pieces(Then(pieces.lines, pieces.rest + line), "")
  {
    CutPlain(pieces, line);
    assert (line + "\n")[..|line|] == line;
  }

  /** The lines behind `lines` once these were written. */
  function Behind(lines: Lines, parts: seq<Part>, crlf: bool): Lines {
    if parts == [] then lines
    else Then(Behind(lines, parts[..|parts| - 1], crlf), LineOf(parts[|parts| - 1]) + Return(crlf))
  }

  lemma {:induction false} PartsCut(lines: Lines, parts: seq<Part>, crlf: bool)
    requires forall i :: 0 <= i < |parts| ==> Writable(parts[i])
    ensures Cut(Pieces(lines, ""), WriteParts(parts, crlf)) == Pieces(Behind(lines, parts, crlf), "")
  {
    if parts != [] {
      var less, last := parts[..|parts| - 1], parts[|parts| - 1];
      PartsCut(lines, less, crlf);
      LineRead(last, crlf);
      CutAppend(Pieces(lines, ""), WriteParts(less, crlf), LineOf(last) + Return(crlf) + "\n");
      LineCut(Pieces(Behind(lines, less, crlf), ""), LineOf(last) + Return(crlf));
      assert "" + (LineOf(last) + Return(crlf)) == LineOf(last) + Return(crlf);
    }
  }

  /** The lines of an event stay one open block that holds its data. */
  lemma {:induction false} PartsOpen(lines: Lines, parts: seq<Part>, crlf: bool)
    requires OpenBlock(lines) == NoLines && forall i :: 0 <= i < |parts| ==> Writable(parts[i])
    ensures var after := Behind(lines, parts, crlf);
            ClosedBlocks(after) == ClosedBlocks(lines) && BlockData(OpenBlock(after)) == Texts(parts)
  {
    if parts != [] {
      PartsOpen(lines, parts[..|parts| - 1], crlf);
      LineRead(parts[|parts| - 1], crlf);
    }
  }

  function AllBehind(lines: Lines, events: seq<seq<Part>>, crlf: bool): Lines {
    if events == [] then lines
    else Then(Behind(AllBehind(lines, events[..|events| - 1], crlf), events[|events| - 1], crlf), Return(crlf))
  }

  lemma {:induction false} EventsCut(events: seq<seq<Part>>, crlf: bool)
    requires AllWritable(events)
    ensures Cut(NoText, WriteEvents(events, crlf)) == Pieces(AllBehind(NoLines, events, crlf), "")
  {
    if events != [] {
      var less, last := events[..|events| - 1], events[|events| - 1];
      assert forall n :: 0 <= n < |less| ==> less[n] == events[n];
      EventsCut(less, crlf);
      var lines := AllBehind(NoLines, less, crlf);
      forall i | 0 <= i < |last| ensures Writable(last[i]) {
        assert last[i] == events[|events| - 1][i];
      }
      PartsCut(lines, last, crlf);
      CutAppend(NoText, WriteEvents(less, crlf), WriteParts(last, crlf) + (Return(crlf) + "\n"));
      CutAppend(Pieces(lines, ""), WriteParts(last, crlf), Return(crlf) + "\n");
      LineCut(Pieces(Behind(lines, last, crlf), ""), Return(crlf));
      assert "" + Return(crlf) == Return(crlf);
    }
  }

  // ----- What a stream says

  /** The event is too large, or its data cannot be read. */
  ghost predicate Unread(parse: string -> Option<Json>, limit: nat, texts: seq<string>) {
    || BytesOf(texts) > limit
    || (texts != [] && Together(texts) != "[DONE]" && parse(Together(texts)).None?)
  }

  /** The event's JSON, when there is any to be read. */
  ghost function Doc(parse: string -> Option<Json>, limit: nat, texts: seq<string>): Option<Json> {
    if BytesOf(texts) > limit || texts == [] || Together(texts) == "[DONE]" then None else parse(Together(texts))
  }

  ghost predicate TypeIs(j: Json, name: string) {
    j.Record? && "type" in j.fields && j.fields["type"] == Text(name)
  }

  ghost predicate Inner(j: Json, key: string) {
    j.Record? && key in j.fields && j.fields[key].Record?
  }

  ghost function UsageIn(j: Json): Option<Json> {
    if j.Record? && "usage" in j.fields then Some(j.fields["usage"]) else None
  }

  ghost predicate Closing(j: Json) {
    (TypeIs(j, "response.completed") || TypeIs(j, "response.incomplete")) && Inner(j, "response")
  }

  ghost predicate Starting(j: Json) {
    TypeIs(j, "message_start") && Inner(j, "message")
  }

  ghost predicate EndsWith(kind: EndpointKind, j: Json) {
    match kind
    case Responses => Closing(j)
    case Messages => TypeIs(j, "message_stop")
    case Chat => false
    case OtherEndpoint => false
  }

  /** The stream ends here for the endpoint. */
  ghost predicate Final(kind: EndpointKind, parse: string -> Option<Json>, limit: nat, texts: seq<string>) {
    && !Unread(parse, limit, texts) && texts != []
    && (Together(texts) == "[DONE]" || EndsWith(kind, parse(Together(texts)).value))
  }

  /** The event at `n` passes the test and none behind it does. */
  ghost predicate LastAt(parse: string -> Option<Json>, limit: nat, events: seq<seq<string>>, test: Json -> bool,
                         n: nat) {
    && n < |events| && Doc(parse, limit, events[n]).Some? && test(Doc(parse, limit, events[n]).value)
    && forall m :: n < m < |events| && Doc(parse, limit, events[m]).Some? ==> !test(Doc(parse, limit, events[m]).value)
  }

  /** A value is what the last event that passes the test holds, and none when no event passes. */
  ghost predicate FromLast(parse: string -> Option<Json>, limit: nat, events: seq<seq<string>>, test: Json -> bool,
                           value: Json -> Option<Json>, found: Option<Json>) {
    || (exists n: nat :: LastAt(parse, limit, events, test, n) && found == value(Doc(parse, limit, events[n]).value))
    || ((forall n: nat :: !LastAt(parse, limit, events, test, n)) && found.None?)
  }

  /** One event more: it decides when it passes the test, and nothing changes otherwise. */
  lemma FromLastMore(parse: string -> Option<Json>, limit: nat, events: seq<seq<string>>, texts: seq<string>,
                     test: Json -> bool, value: Json -> Option<Json>, found: Option<Json>)
    requires FromLast(parse, limit, events, test, value, found)
    ensures var doc := Doc(parse, limit, texts);
            var now := if doc.Some? && test(doc.value) then value(doc.value) else found;
            FromLast(parse, limit, events + [texts], test, value, now)
  {
    var all, doc := events + [texts], Doc(parse, limit, texts);
    if doc.Some? && test(doc.value) {
      assert all[|events|] == texts;
      assert LastAt(parse, limit, all, test, |events|);
    } else {
      forall n: nat ensures LastAt(parse, limit, all, test, n) <==> LastAt(parse, limit, events, test, n) {
        LastStays(parse, limit, events, texts, test, n);
      }
      if n: nat :| LastAt(parse, limit, events, test, n) && found == value(Doc(parse, limit, events[n]).value) {
        assert all[n] == events[n];
      }
    }
  }

  lemma LastStays(parse: string -> Option<Json>, limit: nat, events: seq<seq<string>>, texts: seq<string>,
                  test: Json -> bool, n: nat)
    requires var doc := Doc(parse, limit, texts); !(doc.Some? && test(doc.value))
    ensures LastAt(parse, limit, events + [texts], test, n) <==> LastAt(parse, limit, events, test, n)
  {
    var all := events + [texts];
    assert all[|events|] == texts && forall m :: 0 <= m < |events| ==> all[m] == events[m];
  }

  ghost predicate AnyUnread(parse: string -> Option<Json>, limit: nat, events: seq<seq<string>>) {
    exists n :: 0 <= n < |events| && Unread(parse, limit, events[n])
  }

  ghost predicate AnyFinal(kind: EndpointKind, parse: string -> Option<Json>, limit: nat, events: seq<seq<string>>) {
    exists n :: 0 <= n < |events| && Final(kind, parse, limit, events[n])
  }

  /** The usage inside the closed response, and inside the started message. */
  ghost function ResponseUsage(j: Json): Option<Json> {
    if Inner(j, "response") then UsageIn(j.fields["response"]) else None
  }

  ghost function MessageUsage(j: Json): Option<Json> {
    if Inner(j, "message") then UsageIn(j.fields["message"]) else None
  }

  ghost predicate Carrying(j: Json) {
    j.Record? && "usage" in j.fields
  }

  ghost predicate Changing(j: Json) {
    TypeIs(j, "message_delta")
  }

  /** What was seen is what these events say. */
  ghost predicate SeenIs(kind: EndpointKind, parse: string -> Option<Json>, limit: nat, events: seq<seq<string>>,
                         seen: Seen) {
    && (seen.truncated <==> AnyUnread(parse, limit, events))
    && (seen.terminal <==> AnyFinal(kind, parse, limit, events))
    && match kind
       case Responses => FromLast(parse, limit, events, Closing, ResponseUsage, seen.responses)
       case Chat => FromLast(parse, limit, events, Carrying, UsageIn, seen.chat)
       case Messages =>
         && FromLast(parse, limit, events, Starting, MessageUsage, seen.messagesStart)
         && FromLast(parse, limit, events, Changing, UsageIn, seen.messagesDelta)
       case OtherEndpoint => true
  }

  lemma FlagsMore(kind: EndpointKind, parse: string -> Option<Json>, limit: nat, events: seq<seq<string>>,
                  texts: seq<string>)
    ensures AnyUnread(parse, limit, events + [texts]) <==>
            AnyUnread(parse, limit, events) || Unread(parse, limit, texts)
    ensures AnyFinal(kind, parse, limit, events + [texts]) <==>
            AnyFinal(kind, parse, limit, events) || Final(kind, parse, limit, texts)
  {
    var all := events + [texts];
    assert all[|events|] == texts && forall n :: 0 <= n < |events| ==> all[n] == events[n];
  }

  /** What one event changes of what was seen. */
  ghost predicate Takes(kind: EndpointKind, before: Seen, after: Seen, doc: Option<Json>) {
    match kind
    case Responses =>
      after.responses == if doc.Some? && Closing(doc.value) then ResponseUsage(doc.value) else before.responses
    case Chat => after.chat == if doc.Some? && Carrying(doc.value) then UsageIn(doc.value) else before.chat
    case Messages =>
      && after.messagesStart ==
         (if doc.Some? && Starting(doc.value) then MessageUsage(doc.value) else before.messagesStart)
      && after.messagesDelta == (if doc.Some? && Changing(doc.value) then UsageIn(doc.value) else before.messagesDelta)
    case OtherEndpoint => true
  }

  lemma ObservedTakes(kind: EndpointKind, seen: Seen, event: Json)
    ensures var after := Observed(kind, seen, event);
            && Takes(kind, seen, after, Some(event)) && after.truncated == seen.truncated
            && (after.terminal <==> seen.terminal || EndsWith(kind, event))
  {
  }

  /** What the reader takes from one event, when its data are these. */
  lemma BlockTakes(kind: EndpointKind, parse: string -> Option<Json>, limit: nat, seen: Seen, block: Lines)
    ensures var texts, after := BlockData(block), BlockSeen(parse, kind, limit, seen, block);
            && Takes(kind, seen, after, Doc(parse, limit, texts))
            && (after.truncated <==> seen.truncated || Unread(parse, limit, texts))
            && (after.terminal <==> seen.terminal || Final(kind, parse, limit, texts))
  {
    var texts := BlockData(block);
    SizeIsLength(block);
    TotalCounted(texts);
    if BlockSize(block) <= limit && texts != [] {
      JoinedTogether(texts);
      var text := Together(texts);
      if text != "[DONE]" && parse(text).Some? {
        ObservedTakes(kind, seen, parse(text).value);
      }
    }
  }

  lemma SeenMore(kind: EndpointKind, parse: string -> Option<Json>, limit: nat, events: seq<seq<string>>, seen: Seen,
                 block: Lines)
    requires SeenIs(kind, parse, limit, events, seen)
    ensures SeenIs(kind, parse, limit, events + [BlockData(block)], BlockSeen(parse, kind, limit, seen, block))
  {
    var texts := BlockData(block);
    BlockTakes(kind, parse, limit, seen, block);
    FlagsMore(kind, parse, limit, events, texts);
    match kind
    case Responses => FromLastMore(parse, limit, events, texts, Closing, ResponseUsage, seen.responses);
    case Chat => FromLastMore(parse, limit, events, texts, Carrying, UsageIn, seen.chat);
    case Messages =>
      FromLastMore(parse, limit, events, texts, Starting, MessageUsage, seen.messagesStart);
      FromLastMore(parse, limit, events, texts, Changing, UsageIn, seen.messagesDelta);
    case OtherEndpoint =>
  }

  function AllTexts(events: seq<seq<Part>>): seq<seq<string>> {
    if events == [] then [] else AllTexts(events[..|events| - 1]) + [Texts(events[|events| - 1])]
  }

  lemma {:induction false} BehindSeen(kind: EndpointKind, parse: string -> Option<Json>, limit: nat,
                                      events: seq<seq<Part>>, crlf: bool)
    requires AllWritable(events)
    ensures var lines := AllBehind(NoLines, events, crlf);
            && OpenBlock(lines) == NoLines
            && SeenIs(kind, parse, limit, AllTexts(events), AllSeen(parse, kind, limit, ClosedBlocks(lines)))
  {
    if events != [] {
      var less, last := events[..|events| - 1], events[|events| - 1];
      assert forall n :: 0 <= n < |less| ==> less[n] == events[n];
      BehindSeen(kind, parse, limit, less, crlf);
      var lines := AllBehind(NoLines, less, crlf);
      forall i | 0 <= i < |last| ensures Writable(last[i]) {
        assert last[i] == events[|events| - 1][i];
      }
      PartsOpen(lines, last, crlf);
      SeenMore(kind, parse, limit, AllTexts(less), AllSeen(parse, kind, limit, ClosedBlocks(lines)),
               OpenBlock(Behind(lines, last, crlf)));
    }
  }

  /** The reader of a written stream sees what its events say. */
  lemma StreamSeen(kind: EndpointKind, parse: string -> Option<Json>, limit: nat, events: seq<seq<Part>>, crlf: bool)
    requires AllWritable(events)
    ensures SeenIs(kind, parse, limit, AllTexts(events),
                   AllSeen(parse, kind, limit, TextEvents(WriteEvents(events, crlf))))
  {
    EventsCut(events, crlf);
    BehindSeen(kind, parse, limit, events, crlf);
    var lines := AllBehind(NoLines, events, crlf);
    assert TextEvents(WriteEvents(events, crlf)) == AllBlocks(Then(lines, ""));
    EmptyEnd(parse, kind, limit, lines);
  }

  /** The empty rest behind a stream that ended with a blank line says nothing. */
  lemma EmptyEnd(parse: string -> Option<Json>, kind: EndpointKind, limit: nat, lines: Lines)
    requires OpenBlock(lines) == NoLines
    ensures AllSeen(parse, kind, limit, AllBlocks(Then(lines, ""))) == AllSeen(parse, kind, limit, ClosedBlocks(lines))
  {
    var ended := Then(lines, "");
    assert ClosedBlocks(ended) == AllBlocks(lines) == Event(ClosedBlocks(lines), NoLines);
    assert AllBlocks(ended) == Event(AllBlocks(lines), NoLines);
    assert AllSeen(parse, kind, limit, AllBlocks(lines)) == AllSeen(parse, kind, limit, ClosedBlocks(lines));
  }

  // ----- What is billed

  /** The fields of both, those of the second where both have one. */
  ghost predicate Overlaid(under: map<string, Json>, over: map<string, Json>, both: map<string, Json>) {
    forall k ::
      && (k in both <==> k in under || k in over)
      && (k in over ==> k in both && both[k] == over[k])
      && (k in under && k !in over ==> k in both && both[k] == under[k])
  }

  /** The usage handed to the normalizer, if any: that of the last closed response, or of the last event
      with usage, or for messages the fields of the last delta over those of the last start. */
  ghost predicate Billed(kind: EndpointKind, parse: string -> Option<Json>, limit: nat, events: seq<seq<string>>,
                         payload: Option<Option<Json>>) {
    match kind
    case Responses => payload.Some? && FromLast(parse, limit, events, Closing, ResponseUsage, payload.value)
    case Chat => payload.Some? && FromLast(parse, limit, events, Carrying, UsageIn, payload.value)
    case Messages =>
      exists start, delta ::
        && FromLast(parse, limit, events, Starting, MessageUsage, start)
        && FromLast(parse, limit, events, Changing, UsageIn, delta)
        && MessagesPayload(start, delta, payload)
    case OtherEndpoint => payload.None?
  }

  ghost predicate MessagesPayload(start: Option<Json>, delta: Option<Json>, payload: Option<Option<Json>>) {
    if start.Some? && start.value.Record? && delta.Some? && delta.value.Record? then
      && payload.Some? && payload.value.Some? && payload.value.value.Record?
      && Overlaid(start.value.fields, delta.value.fields, payload.value.value.fields)
    else payload.None?
  }

  lemma PayloadBilled(kind: EndpointKind, parse: string -> Option<Json>, limit: nat, events: seq<seq<string>>,
                      seen: Seen)
    requires SeenIs(kind, parse, limit, events, seen)
    ensures Billed(kind, parse, limit, events, UsagePayload(kind, seen))
  {
    if kind == Messages {
      assert MessagesPayload(seen.messagesStart, seen.messagesDelta, UsagePayload(kind, seen));
    }
  }

  /** The result of a stream: lost data first, then a missing end, then the usage that is billed. */
  ghost predicate ResultIs<Usage(!new)>(readers: Readers<Usage>, kind: EndpointKind, limit: nat,
                                        events: seq<seq<string>>, payload: Option<Option<Json>>,
                                        result: CaptureResult<Usage>) {
    var ended := AnyFinal(kind, readers.parse, limit, events);
    if AnyUnread(readers.parse, limit, events) then
      result.Unavailable? && result.reason == IncompleteUsage && result.terminalSeen == ended && result.eventTruncated
    else if !ended then
      result.Unavailable? && result.reason == IncompleteUsage && !result.terminalSeen && !result.eventTruncated
    else
      && result.terminalSeen && !result.eventTruncated
      && if payload.None? then result.Unavailable? && result.reason == MissingUsage
         else match readers.normalize(kind, payload.value)
              case Normal(usage) => result.Complete? && result.usage == usage
              case Abnormal(reason) => result.Unavailable? && result.reason == NotNormal(reason)
  }

  /** The data of every event of a text. */
  function DataTexts(events: Events): seq<seq<string>> {
    match events
    case NoEvents => []
    case Event(before, block) => DataTexts(before) + [BlockData(block)]
  }

  lemma {:induction false} EventsSay(kind: EndpointKind, parse: string -> Option<Json>, limit: nat, events: Events)
    ensures SeenIs(kind, parse, limit, DataTexts(events), AllSeen(parse, kind, limit, events))
  {
    if events.Event? {
      EventsSay(kind, parse, limit, events.before);
      SeenMore(kind, parse, limit, DataTexts(events.before), AllSeen(parse, kind, limit, events.before), events.block);
    }
  }

  /** For any text at all, the result is that of its events. */
  lemma TextBilled<Usage(!new)>(readers: Readers<Usage>, kind: EndpointKind, limit: nat, text: string)
    returns (payload: Option<Option<Json>>)
    ensures Billed(kind, readers.parse, limit, DataTexts(TextEvents(text)), payload)
    ensures ResultIs(readers, kind, limit, DataTexts(TextEvents(text)), payload, Capture(readers, kind, limit, text))
  {
    EventsSay(kind, readers.parse, limit, TextEvents(text));
    var seen := AllSeen(readers.parse, kind, limit, TextEvents(text));
    payload := UsagePayload(kind, seen);
    PayloadBilled(kind, readers.parse, limit, DataTexts(TextEvents(text)), seen);
  }

  /** Round trip: for every stream that a server can write, with either line ending and with comments,
      spaces and data of many lines, the result is that of the events it wrote. */
  lemma StreamBilled<Usage(!new)>(readers: Readers<Usage>, kind: EndpointKind, limit: nat,
                                  events: seq<seq<Part>>, crlf: bool)
    returns (payload: Option<Option<Json>>)
    requires AllWritable(events)
    ensures Billed(kind, readers.parse, limit, AllTexts(events), payload)
    ensures ResultIs(readers, kind, limit, AllTexts(events), payload,
                     Capture(readers, kind, limit, WriteEvents(events, crlf)))
  {
    StreamSeen(kind, readers.parse, limit, events, crlf);
    var seen := AllSeen(readers.parse, kind, limit, TextEvents(WriteEvents(events, crlf)));
    payload := UsagePayload(kind, seen);
    PayloadBilled(kind, readers.parse, limit, AllTexts(events), seen);
  }

  /** An event that the end of the stream cuts off is read as if a blank line had ended it. */
  lemma CutOffRead<Usage>(readers: Readers<Usage>, kind: EndpointKind, limit: nat, events: seq<seq<Part>>, crlf: bool)
    requires AllWritable(events) && events != []
    ensures var less, last := events[..|events| - 1], events[|events| - 1];
            Capture(readers, kind, limit, WriteEvents(less, crlf) + WriteParts(last, crlf)) ==
            Capture(readers, kind, limit, WriteEvents(events, crlf))
  {
    var less, last := events[..|events| - 1], events[|events| - 1];
    assert forall n :: 0 <= n < |less| ==> less[n] == events[n];
    EventsCut(less, crlf);
    EventsCut(events, crlf);
    var lines := AllBehind(NoLines, less, crlf);
    forall i | 0 <= i < |last| ensures Writable(last[i]) {
      assert last[i] == events[|events| - 1][i];
    }
    PartsCut(lines, last, crlf);
    CutAppend(NoText, WriteEvents(less, crlf), WriteParts(last, crlf));
    SameRead(readers.parse, kind, limit, Behind(lines, last, crlf), crlf);
  }

  lemma SameRead(parse: string -> Option<Json>, kind: EndpointKind, limit: nat, lines: Lines, crlf: bool)
    ensures AllSeen(parse, kind, limit, AllBlocks(Then(lines, ""))) ==
            AllSeen(parse, kind, limit, AllBlocks(Then(Then(lines, Return(crlf)), "")))
  {
    var ended := Then(lines, Return(crlf));
    assert ClosedBlocks(Then(lines, "")) == AllBlocks(lines) == ClosedBlocks(ended);
    assert ClosedBlocks(Then(ended, "")) == AllBlocks(ended);
    assert AllSeen(parse, kind, limit, AllBlocks(ended)) == AllSeen(parse, kind, limit, ClosedBlocks(ended));
  }
}
