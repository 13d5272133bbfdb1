/** The bounded observer of a stream of server-sent events, fed chunk by chunk. */
module UsageAccumulator {
  import opened UsageEvents

  newtype byte = x: int | 0 <= x < 256

  /** The bytes a decoder has not turned into text yet. */
  type Held = seq<byte>

  /** A streaming text decoder: one step for each byte, and what is left at the end. */
  datatype Decoder = Decoder(step: (Held, byte) -> (Held, string), flush: Held -> string) {
    /** What is held and what was decoded after these bytes. */
    function Decode(held: Held, bytes: seq<byte>): (Held, string) {
      if bytes == [] then (held, "")
      else
        var (before, text) := Decode(held, bytes[..|bytes| - 1]);
        var (after, more) := step(before, bytes[|bytes| - 1]);
        (after, text + more)
    }

    /** The text of a whole stream. */
    function Text(bytes: seq<byte>): string {
      var (held, text) := Decode([], bytes);
      text + flush(held)
    }

    /** Decoding does not see where a stream was cut. */
    lemma {:induction false} DecodeAppend(held: Held, bytes: seq<byte>, more: seq<byte>)
      ensures var first := Decode(held, bytes);
              var second := Decode(first.0, more);
              Decode(held, bytes + more) == (second.0, first.1 + second.1)
    {
      var first := Decode(held, bytes);
      if more == [] {
        assert bytes + more == bytes;
        assert first.1 + "" == first.1;
      } else {
        var less := more[..|more| - 1];
        assert (bytes + more)[..|bytes + more| - 1] == bytes + less;
        DecodeAppend(held, bytes, less);
        var part := Decode(first.0, less);
        var last := step(part.0, more[|more| - 1]);
        assert first.1 + (part.1 + last.1) == first.1 + part.1 + last.1;
      }
    }

    /** Nothing is decoded of nothing, and one byte is one step. */
    lemma DecodeByte(held: Held, b: byte)
      ensures Decode(held, []) == (held, "") && Decode(held, [b]) == step(held, b)
      ensures Text([]) == flush([]) && Text([b]) == step([], b).1 + flush(step([], b).0)
    {
      assert [b][..0] == [];
      assert "" + step(held, b).1 == step(held, b).1 && "" + step([], b).1 == step([], b).1;
      assert "" + flush([]) == flush([]);
    }

    /** The end of a stream adds no line break. */
    ghost predicate Sound() {
      forall held {:trigger flush(held)} :: OneLine(flush(held))
    }
  }

  function Concat(chunks: seq<seq<byte>>): seq<byte> {
    if chunks == [] then [] else Concat(chunks[..|chunks| - 1]) + chunks[|chunks| - 1]
  }

  /** The bytes of all chunks, in order and none lost. */
  lemma {:induction false} ConcatAppend(chunks: seq<seq<byte>>, more: seq<seq<byte>>, one: seq<byte>)
    ensures Concat(chunks + more) == Concat(chunks) + Concat(more) && Concat([one]) == one
  {
    assert [one][..0] == [];
    if more == [] {
      assert chunks + more == chunks;
    } else {
      assert (chunks + more)[..|chunks + more| - 1] == chunks + more[..|more| - 1];
      ConcatAppend(chunks, more[..|more| - 1], one);
    }
  }

  const MAX_SAFE_INTEGER: int := 0x1F_FFFF_FFFF_FFFF

  function IndexOfNewline(text: string, from: nat): (n: int)
    requires from <= |text|
    ensures -1 <= n < |text|
    ensures n == -1 <==> OneLine(text[from..])
    ensures n != -1 ==> from <= n && text[n] == '\n' && OneLine(text[from..n])
    decreases |text| - from
  {
    if from == |text| then -1
    else if text[from] == '\n' then from
    else
      assert text[from..] == [text[from]] + text[from + 1..];
      var n := IndexOfNewline(text, from + 1);
      assert n != -1 ==> text[from..n] == [text[from]] + text[from + 1..n];
      n
  }

  /** The decoder is this far, all lines but the last are cut off, and no line break is left. */
  ghost predicate Awaits(decoder: Decoder, bytes: seq<byte>, held: Held, lines: Lines, buffer: string) {
    && decoder.Decode([], bytes).0 == held
    && Cut(NoText, decoder.Decode([], bytes).1) == Pieces(lines, buffer)
    && OneLine(buffer)
  }

  /** One chunk more is text behind what was decoded, in the last line. */
  lemma ChunkDecoded(decoder: Decoder, bytes: seq<byte>, chunk: seq<byte>, held: Held, lines: Lines, buffer: string)
    requires Awaits(decoder, bytes, held, lines, buffer)
    ensures decoder.Decode([], bytes + chunk).0 == decoder.Decode(held, chunk).0
    ensures Cut(NoText, decoder.Decode([], bytes + chunk).1) ==
      Cut(Pieces(lines, ""), buffer + decoder.Decode(held, chunk).1)
  {
    var decoded := decoder.Decode(held, chunk);
    decoder.DecodeAppend([], bytes, chunk);
    CutAppend(NoText, decoder.Decode([], bytes).1, decoded.1);
    CutAppend(Pieces(lines, ""), buffer, decoded.1);
    CutPlain(Pieces(lines, ""), buffer);
    assert "" + buffer == buffer;
  }

  /** What has no line break yet is held as a whole, however long it is: the limit is one of events. */
  lemma UnfinishedLineHeld(decoder: Decoder, bytes: seq<byte>, held: Held, lines: Lines, buffer: string)
    requires Awaits(decoder, bytes, held, lines, buffer)
    ensures buffer == decoder.Decode([], bytes).1 <==> OneLine(decoder.Decode([], bytes).1)
  {
    var text := decoder.Decode([], bytes).1;
    if OneLine(text) {
      CutPlain(NoText, text);
      assert "" + text == text;
    }
  }

  /** The lines of a stream, with a last line that is not empty. */
  function Ended(lines: Lines, rest: string): Lines {
    if rest == "" then lines else Then(lines, rest)
  }

  lemma StreamDecoded<Usage>(decoder: Decoder, readers: Readers<Usage>, kind: EndpointKind, limit: nat,
                             bytes: seq<byte>, held: Held, lines: Lines, buffer: string)
    requires decoder.Sound() && Awaits(decoder, bytes, held, lines, buffer)
    ensures Capture(readers, kind, limit, decoder.Text(bytes)) ==
            ResultOf(readers, kind, AllSeen(readers.parse, kind, limit,
              AllBlocks(Ended(lines, buffer + decoder.flush(held)))))
  {
    var decoded := decoder.Decode([], bytes);
    var rest := buffer + decoder.flush(held);
    CutAppend(NoText, decoded.1, decoder.flush(held));
    CutPlain(Pieces(lines, buffer), decoder.flush(held));
    assert TextEvents(decoder.Text(bytes)) == AllBlocks(Then(lines, rest));
    if rest == "" {
      assert IsBlank(rest);
    }
  }

  class UsageAccumulator<!Usage> {
    const decoder: Decoder
    const readers: Readers<Usage>
    const kind: EndpointKind
    const maxEventBytes: nat
    var held: Held
    var buffer: string
    var discardEvent: bool
    var eventBytes: nat
    var eventLines: seq<string>
    var seen: Seen
    var finalized: bool
    ghost var bytes: seq<byte>
    ghost var lines: Lines

    constructor (decoder: Decoder, readers: Readers<Usage>, kind: EndpointKind, maxEventBytes: nat)
      requires 1 <= maxEventBytes <= MAX_SAFE_INTEGER && decoder.Sound()
      ensures this.decoder == decoder && this.readers == readers && this.kind == kind
        && this.maxEventBytes == maxEventBytes
      ensures Valid() && !finalized && bytes == []
    {
      this.decoder, this.readers, this.kind, this.maxEventBytes := decoder, readers, kind, maxEventBytes;
      held, buffer, discardEvent, eventBytes, eventLines := [], "", false, 0, [];
      seen, finalized := NothingSeen, false;
      bytes, lines := [], NoLines;
    }

    /** The fields say what the lines so far say. */
    ghost predicate Reading()
      reads this
    {
      && OpenEvent(discardEvent, eventBytes, eventLines) == Kept(maxEventBytes, OpenBlock(lines))
      && seen == Said(readers.parse, kind, maxEventBytes, lines)
    }

    ghost predicate Valid()
      reads this
    {
      && decoder.Sound()
      && (!finalized ==>
           && Reading()
           && Awaits(decoder, bytes, held, lines, buffer))
    }

    /** The data lines held for the open event never exceed the limit. */
    function HeldBytes(): (n: nat)
      requires Reading()
      reads this
      ensures n <= maxEventBytes
    {
      SizeIsLength(OpenBlock(lines));
      TotalLength(eventLines)
    }

    method AddChunk(chunk: seq<byte>) returns (ok: bool)
      requires Valid()
      modifies this
      ensures Valid() && ok == !old(finalized) && finalized == old(finalized)
      ensures bytes == if ok then old(bytes) + chunk else old(bytes)
      ensures old(seen.truncated) ==> seen.truncated
      ensures old(seen.terminal) ==> seen.terminal
    {
      if finalized {
        return false;
      }
      var decoded := decoder.Decode(held, chunk);
      ChunkDecoded(decoder, bytes, chunk, held, lines, buffer);
      bytes := bytes + chunk;
      held, buffer := decoded.0, buffer + decoded.1;
      ProcessLines(decoder.Decode([], bytes).1);
      SaidSticky(readers.parse, kind, maxEventBytes, old(lines), lines);
      return true;
    }

    method ProcessLines(ghost text: string)
      requires Reading() && Cut(NoText, text) == Cut(Pieces(lines, ""), buffer)
      modifies `buffer, `lines, `discardEvent, `eventBytes, `eventLines, `seen
      ensures Reading() && Cut(NoText, text) == Pieces(lines, buffer) && OneLine(buffer) && Extends(lines, old(lines))
    {
      var newline := IndexOfNewline(buffer, 0);
      while newline >= 0
        invariant Reading() && Cut(NoText, text) == Cut(Pieces(lines, ""), buffer) && Extends(lines, old(lines))
        invariant newline == IndexOfNewline(buffer, 0)
        decreases |buffer|
      {
        TakeLine(newline);
        newline := IndexOfNewline(buffer, 0);
      }
      assert buffer[0..] == buffer && "" + buffer == buffer;
      CutPlain(Pieces(lines, ""), buffer);
    }

    /** Process the line in front of a line break. */
    method TakeLine(newline: nat)
      requires Reading() && newline < |buffer| && buffer[newline] == '\n' && OneLine(buffer[0..newline])
      modifies `buffer, `lines, `discardEvent, `eventBytes, `eventLines, `seen
      ensures Reading() && lines.Then? && lines.before == old(lines) && |buffer| < old(|buffer|)
      ensures Cut(Pieces(lines, ""), buffer) == old(Cut(Pieces(lines, ""), buffer))
    {
      assert buffer[0..newline] == buffer[..newline];
      CutAt(lines, buffer, newline);
      ProcessLine(buffer[..newline]);
      buffer := buffer[newline + 1..];
    }

    method ProcessLine(rawLine: string)
      requires Reading()
      modifies `lines, `discardEvent, `eventBytes, `eventLines, `seen
      ensures Reading() && lines == Then(old(lines), rawLine)
    {
      var line := Stripped(rawLine);
      if line == "" {
        DispatchEvent();
        BlankEnds(readers.parse, kind, maxEventBytes, lines, rawLine);
        lines := Then(lines, rawLine);
        return;
      }
      LineAdds(readers.parse, kind, maxEventBytes, lines, rawLine);
      lines := Then(lines, rawLine);
      if !IsData(rawLine) {
        return;
      }
      HoldData(TrimmedFrom(line, 5));
    }

    /** Count the data of a line, and hold it unless its event is too large. */
    method HoldData(data: string)
      requires discardEvent ==> eventBytes > maxEventBytes
      modifies `discardEvent, `eventBytes, `eventLines, `seen
      ensures eventBytes == old(eventBytes) + Utf8Length(data) && discardEvent == (eventBytes > maxEventBytes)
      ensures eventLines == if discardEvent then [] else old(eventLines) + [data]
      ensures seen == if discardEvent then old(seen).(truncated := true) else old(seen)
    {
      eventBytes := eventBytes + Utf8Length(data);
      if eventBytes > maxEventBytes {
        discardEvent := true;
        seen := seen.(truncated := true);
        eventLines := [];
        return;
      }
      if !discardEvent {
        eventLines := eventLines + [data];
      }
    }

    /** The end of an event. */
    method DispatchEvent()
      requires Reading()
      modifies `discardEvent, `eventBytes, `eventLines, `seen
      ensures OpenEvent(discardEvent, eventBytes, eventLines) == NoEvent
      ensures seen == AllSeen(readers.parse, kind, maxEventBytes, AllBlocks(lines))
    {
      if |eventLines| > 0 && !discardEvent {
        var data := JoinLines(eventLines);
        if data == "[DONE]" {
          seen := seen.(terminal := true);
        } else {
          var parsed := readers.parse(data);
          if parsed.Some? {
            seen := Observed(kind, seen, parsed.value);
          } else {
            seen := seen.(truncated := true);
          }
        }
      }
      eventLines, eventBytes, discardEvent := [], 0, false;
    }

    /** The result is that of one pass over the whole decoded text, however it was cut. */
    method Finalize() returns (result: Option<CaptureResult<Usage>>)
      requires Valid()
      modifies this
      ensures Valid() && finalized && bytes == old(bytes)
      ensures result ==
              if old(finalized) then None else Some(Capture(readers, kind, maxEventBytes, decoder.Text(bytes)))
    {
      if finalized {
        return None;
      }
      finalized := true;
      EndText();
      return Some(ResultOf(readers, kind, seen));
    }

    /** The text that the decoder still held, and the end of the stream. */
    method EndText()
      requires decoder.Sound() && Reading() && Awaits(decoder, bytes, held, lines, buffer)
      modifies `buffer, `lines, `discardEvent, `eventBytes, `eventLines, `seen
      ensures ResultOf(readers, kind, seen) == Capture(readers, kind, maxEventBytes, decoder.Text(bytes))
    {
      StreamDecoded(decoder, readers, kind, maxEventBytes, bytes, held, lines, buffer);
      buffer := buffer + decoder.flush(held);
      CloseStream();
    }

    /** The last line, when there is one, and the end of the last event. */
    method CloseStream()
      requires Reading()
      modifies `lines, `discardEvent, `eventBytes, `eventLines, `seen
      ensures lines == Ended(old(lines), buffer)
      ensures seen == AllSeen(readers.parse, kind, maxEventBytes, AllBlocks(lines))
    {
      if buffer != "" {
        ProcessLine(buffer);
      }
      DispatchEvent();
    }
  }

  /** A whole stream in chunks, observed from start to end. */
  method Observe<Usage>(decoder: Decoder, readers: Readers<Usage>, kind: EndpointKind, limit: int,
                        chunks: seq<seq<byte>>)
    returns (result: Option<CaptureResult<Usage>>)
    requires decoder.Sound()
    ensures result ==
            if 1 <= limit <= MAX_SAFE_INTEGER then Some(Capture(readers, kind, limit, decoder.Text(Concat(chunks))))
            else None
  {
    if !(1 <= limit <= MAX_SAFE_INTEGER) {
      return None;
    }
    var accumulator := new UsageAccumulator(decoder, readers, kind, limit);
    for n := 0 to |chunks|
      invariant fresh(accumulator) && accumulator.Valid() && !accumulator.finalized
      invariant accumulator.bytes == Concat(chunks[..n])
    {
      assert chunks[..n + 1][..n] == chunks[..n];
      var ok := accumulator.AddChunk(chunks[n]);
    }
    assert chunks[..|chunks|] == chunks;
    result := accumulator.Finalize();
  }
}
