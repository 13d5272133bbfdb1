/** Numbering timeline events, and matching tool results with tool calls of the same id. */
module CallPairing {

  datatype Option<+T> = None | Some(value: T)

  datatype Kind = UserMessage | AssistantMessage | SystemMessage | ReasoningSummary | ToolCall | ToolResult | Other
    | TruncationMarker

  datatype Draft = Draft(kind: Kind, callId: Option<string>, text: string)

  /** A numbered event. Its operation is named after the number of its call. */
  datatype TimelineEvent = TimelineEvent(
    eventNo: nat,
    draft: Draft,
    operation: Option<nat>,
    callEventNo: Option<nat>,
    resultEventNo: Option<nat>,
    unpaired: bool)

  function Numbered(draft: Draft, index: nat): TimelineEvent {
    TimelineEvent(index + 1, draft, None, None, None, false)
  }

  predicate Is(draft: Draft, kind: Kind, id: string) {
    draft.kind == kind && draft.callId == Some(id)
  }

  /** The positions of the drafts of one kind with one call id, in order. */
  function Positions(drafts: seq<Draft>, kind: Kind, id: string): seq<nat> {
    if drafts == [] then []
    else
      var n := |drafts| - 1;
      var before := Positions(drafts[..n], kind, id);
      if Is(drafts[n], kind, id) then before + [n] else before
  }

  /** How many drafts of its kind with its call id stand before a draft. */
  function Rank(drafts: seq<Draft>, i: nat): nat
    requires i < |drafts| && drafts[i].callId.Some?
  {
    |Positions(drafts[..i], drafts[i].kind, drafts[i].callId.value)|
  }

  lemma PositionsStep(drafts: seq<Draft>, n: nat, kind: Kind, id: string)
    requires n < |drafts|
    ensures Positions(drafts[..n + 1], kind, id) ==
            Positions(drafts[..n], kind, id) + if Is(drafts[n], kind, id) then [n] else []
  {
    assert drafts[..n + 1][..n] == drafts[..n];
  }

  /** The positions of a part begin the positions of the whole. */
  lemma {:induction false} PositionsPrefix(drafts: seq<Draft>, n: nat, m: nat, kind: Kind, id: string)
    requires n <= m <= |drafts|
    ensures Positions(drafts[..n], kind, id) <= Positions(drafts[..m], kind, id)
  {
    if n < m {
      PositionsPrefix(drafts, n, m - 1, kind, id);
      PositionsStep(drafts, m - 1, kind, id);
    }
  }

  /** Positions are those of the kind and id, each found under its rank. */
  lemma {:induction false} PositionsRanked(drafts: seq<Draft>, n: nat, kind: Kind, id: string)
    requires n <= |drafts|
    ensures var positions := Positions(drafts[..n], kind, id);
            forall k {:trigger positions[k]} :: 0 <= k < |positions| ==>
              positions[k] < n && Is(drafts[positions[k]], kind, id) && Rank(drafts, positions[k]) == k
  {
    if n > 0 {
      PositionsRanked(drafts, n - 1, kind, id);
      PositionsStep(drafts, n - 1, kind, id);
    }
  }

  lemma PositionRanked(drafts: seq<Draft>, n: nat, kind: Kind, id: string, k: nat)
    requires n <= |drafts| && k < |Positions(drafts[..n], kind, id)|
    ensures var i := Positions(drafts[..n], kind, id)[k];
            i < n && Is(drafts[i], kind, id) && Rank(drafts, i) == k
  {
    PositionsRanked(drafts, n, kind, id);
  }

  /** Every draft of the kind and id stands at its rank. */
  lemma RankedAt(drafts: seq<Draft>, i: nat, n: nat, kind: Kind, id: string)
    requires i < n <= |drafts| && Is(drafts[i], kind, id)
    ensures Rank(drafts, i) < |Positions(drafts[..n], kind, id)|
      && Positions(drafts[..n], kind, id)[Rank(drafts, i)] == i
  {
    PositionsStep(drafts, i, kind, id);
    PositionsPrefix(drafts, i + 1, n, kind, id);
  }

  // ----- The pairing

  /** The event at a position once the results before `n` have been linked. */
  function EventAt(drafts: seq<Draft>, n: nat, i: nat): TimelineEvent
    requires n <= |drafts| && i < |drafts|
  {
    var draft, event := drafts[i], Numbered(drafts[i], i);
    if draft.callId.None? then event
    else
      var id := draft.callId.value;
      var rank := Rank(drafts, i);
      if draft.kind == ToolCall then
        var results := Positions(drafts[..n], ToolResult, id);
        if rank < |results| then event.(operation := Some(i + 1), resultEventNo := Some(results[rank] + 1)) else event
      else if draft.kind == ToolResult && i < n then
        var calls := Positions(drafts, ToolCall, id);
        if rank < |calls| then event.(operation := Some(calls[rank] + 1), callEventNo := Some(calls[rank] + 1))
        else event.(unpaired := true)
      else event
  }

  /** An event of the finished timeline. */
  function Finished(drafts: seq<Draft>, i: nat): TimelineEvent
    requires i < |drafts|
  {
    EventAt(drafts, |drafts|, i)
  }

  /** Linking one result changes it and the call of its rank, and nothing else. */
  lemma LinkStep(drafts: seq<Draft>, n: nat, i: nat)
    requires n < |drafts| && i < |drafts|
    ensures var result := drafts[n];
            var linked := result.kind == ToolResult && result.callId.Some?;
            var call := if linked then CallFor(drafts, n) else None;
            EventAt(drafts, n + 1, i) ==
              if linked && i == n then
                if call.Some? then
                  Numbered(result, n).(operation := Some(call.value + 1), callEventNo := Some(call.value + 1))
                else Numbered(result, n).(unpaired := true)
              else if call == Some(i) then
                Numbered(drafts[i], i).(operation := Some(i + 1), resultEventNo := Some(n + 1))
              else EventAt(drafts, n, i)
  {
    var result := drafts[n];
    assert drafts[..|drafts|] == drafts;
    if result.kind == ToolResult && result.callId.Some? {
      var id := result.callId.value;
      PositionsRanked(drafts, |drafts|, ToolCall, id);
      if Is(drafts[i], ToolCall, id) {
        RankedAt(drafts, i, |drafts|, ToolCall, id);
        PositionsStep(drafts, n, ToolResult, id);
        assert Rank(drafts, n) == |Positions(drafts[..n], ToolResult, id)|;
        assert CallFor(drafts, n) == Some(i) <==> Rank(drafts, i) == Rank(drafts, n);
      } else {
        assert CallFor(drafts, n) != Some(i);
      }
    }
    if drafts[i].callId.Some? && drafts[i].kind == ToolCall {
      PositionsStep(drafts, n, ToolResult, drafts[i].callId.value);
    }
  }

  /** The call that the result at a position answers: the one of its rank. */
  function CallFor(drafts: seq<Draft>, n: nat): (call: Option<nat>)
    requires n < |drafts| && drafts[n].callId.Some?
  {
    var calls := Positions(drafts, ToolCall, drafts[n].callId.value);
    if Rank(drafts, n) < |calls| then Some(calls[Rank(drafts, n)]) else None
  }

  lemma CallRanked(drafts: seq<Draft>, n: nat)
    requires n < |drafts| && drafts[n].callId.Some?
    ensures var call := CallFor(drafts, n);
            call.Some? ==>
              && call.value < |drafts| && Is(drafts[call.value], ToolCall, drafts[n].callId.value)
              && Rank(drafts, call.value) == Rank(drafts, n)
  {
    var id := drafts[n].callId.value;
    assert drafts[..|drafts|] == drafts;
    if CallFor(drafts, n).Some? {
      PositionRanked(drafts, |drafts|, ToolCall, id, Rank(drafts, n));
    }
  }

  // ----- What the timeline promises

  /** Events are numbered from one and keep their drafts. */
  lemma Numbering(drafts: seq<Draft>)
    ensures forall i: nat {:trigger Finished(drafts, i)} :: i < |drafts| ==>
      Finished(drafts, i).eventNo == i + 1 && Finished(drafts, i).draft == drafts[i]
  {
  }

  /** A call names a result exactly when the result names the call. */
  lemma LinksMutual(drafts: seq<Draft>, c: nat, r: nat)
    requires c < |drafts| && r < |drafts|
    ensures Finished(drafts, c).resultEventNo == Some(r + 1) <==> Finished(drafts, r).callEventNo == Some(c + 1)
  {
    CalledFrom(drafts, c, r);
    AnsweredFrom(drafts, c, r);
  }

  lemma CalledFrom(drafts: seq<Draft>, c: nat, r: nat)
    requires c < |drafts| && r < |drafts|
    ensures Finished(drafts, r).callEventNo == Some(c + 1) <==>
            (&& drafts[c].kind == ToolCall && drafts[r].kind == ToolResult && drafts[c].callId.Some?
             && drafts[c].callId == drafts[r].callId && Rank(drafts, c) == Rank(drafts, r))
  {
    assert drafts[..|drafts|] == drafts;
    if drafts[r].callId.Some? {
      var id := drafts[r].callId.value;
      PositionsRanked(drafts, |drafts|, ToolCall, id);
      if Is(drafts[c], ToolCall, id) {
        RankedAt(drafts, c, |drafts|, ToolCall, id);
      }
    }
  }

  lemma AnsweredFrom(drafts: seq<Draft>, c: nat, r: nat)
    requires c < |drafts| && r < |drafts|
    ensures Finished(drafts, c).resultEventNo == Some(r + 1) <==>
            (&& drafts[c].kind == ToolCall && drafts[r].kind == ToolResult && drafts[c].callId.Some?
             && drafts[c].callId == drafts[r].callId && Rank(drafts, c) == Rank(drafts, r))
  {
    assert drafts[..|drafts|] == drafts;
    if drafts[c].callId.Some? {
      var id := drafts[c].callId.value;
      PositionsRanked(drafts, |drafts|, ToolResult, id);
      if Is(drafts[r], ToolResult, id) {
        RankedAt(drafts, r, |drafts|, ToolResult, id);
      }
    }
  }

  /** Linked events are a call and a result of one call id, of equal rank, in one operation named
      after the call; so each result has at most one call and each call at most one result. */
  lemma LinkedShare(drafts: seq<Draft>, c: nat, r: nat)
    requires c < |drafts| && r < |drafts| && Finished(drafts, r).callEventNo == Some(c + 1)
    ensures drafts[c].kind == ToolCall && drafts[r].kind == ToolResult
    ensures drafts[c].callId.Some? && drafts[c].callId == drafts[r].callId
    ensures Rank(drafts, c) == Rank(drafts, r)
    ensures Finished(drafts, c).operation == Finished(drafts, r).operation == Some(c + 1)
    ensures !Finished(drafts, r).unpaired
  {
    CalledFrom(drafts, c, r);
    AnsweredFrom(drafts, c, r);
  }

  /** Nothing but linked events is in an operation. */
  lemma OperationLinked(drafts: seq<Draft>, i: nat)
    requires i < |drafts|
    ensures var event := Finished(drafts, i);
            event.operation.Some? <==> (event.callEventNo.Some? || event.resultEventNo.Some?)
  {
  }

  function Count(drafts: seq<Draft>, kind: Kind, id: string): nat {
    if drafts == [] then 0
    else Count(drafts[1..], kind, id) + if Is(drafts[0], kind, id) then 1 else 0
  }

  lemma {:induction false} CountPositions(drafts: seq<Draft>, kind: Kind, id: string)
    ensures Count(drafts, kind, id) == |Positions(drafts, kind, id)|
  {
    if drafts != [] {
      var n := |drafts| - 1;
      CountPositions(drafts[..n], kind, id);
      CountAppend(drafts[..n], drafts[n..], kind, id);
      assert drafts == drafts[..n] + drafts[n..];
      assert drafts[n..] == [drafts[n]] && drafts[n..][1..] == [];
    }
  }

  lemma {:induction false} CountAppend(a: seq<Draft>, b: seq<Draft>, kind: Kind, id: string)
    ensures Count(a + b, kind, id) == Count(a, kind, id) + Count(b, kind, id)
  {
    if a == [] {
      assert a + b == b;
    } else {
      assert (a + b)[1..] == a[1..] + b;
      CountAppend(a[1..], b, kind, id);
    }
  }

  /** A result is unpaired exactly when the results of its id up to it outnumber the calls of its
      id, wherever those stand. */
  lemma UnpairedExactly(drafts: seq<Draft>, i: nat)
    requires i < |drafts| && drafts[i].callId.Some? && drafts[i].kind == ToolResult
    ensures var id := drafts[i].callId.value;
            Finished(drafts, i).unpaired <==> Count(drafts[..i + 1], ToolResult, id) > Count(drafts, ToolCall, id)
  {
    var id := drafts[i].callId.value;
    var results, calls := Positions(drafts[..i], ToolResult, id), Positions(drafts, ToolCall, id);
    assert Finished(drafts, i).unpaired <==> |results| >= |calls|;
    PositionsStep(drafts, i, ToolResult, id);
    CountPositions(drafts[..i + 1], ToolResult, id);
    CountPositions(drafts, ToolCall, id);
  }

  // ----- The loops

  type Waiting = map<string, seq<nat>>

  function WaitingFor(waiting: Waiting, id: string): seq<nat> {
    if id in waiting then waiting[id] else []
  }

  method CollectCalls(drafts: seq<Draft>) returns (waiting: Waiting)
    ensures forall id {:trigger WaitingFor(waiting, id)} :: WaitingFor(waiting, id) == Positions(drafts, ToolCall, id)
  {
    waiting := map[];
    for n := 0 to |drafts|
      invariant forall id {:trigger WaitingFor(waiting, id)} ::
        WaitingFor(waiting, id) == Positions(drafts[..n], ToolCall, id)
    {
      forall id ensures Positions(drafts[..n + 1], ToolCall, id) ==
                        Positions(drafts[..n], ToolCall, id) + if Is(drafts[n], ToolCall, id) then [n] else [] {
        PositionsStep(drafts, n, ToolCall, id);
      }
      ghost var before := waiting;
      var draft := drafts[n];
      if draft.kind == ToolCall && draft.callId.Some? {
        waiting := waiting[draft.callId.value := WaitingFor(waiting, draft.callId.value) + [n]];
      }
      assert forall id {:trigger WaitingFor(waiting, id)} ::
        WaitingFor(waiting, id) == WaitingFor(before, id) + if Is(draft, ToolCall, id) then [n] else [];
    }
    assert drafts[..|drafts|] == drafts;
  }

  /** The calls of an id that wait after `n` drafts: those whose rank no result has had yet. */
  function Left(drafts: seq<Draft>, n: nat, id: string): seq<nat>
    requires n <= |drafts|
  {
    var calls, done := Positions(drafts, ToolCall, id), |Positions(drafts[..n], ToolResult, id)|;
    if done <= |calls| then calls[done..] else []
  }

  lemma LeftStep(drafts: seq<Draft>, n: nat, id: string)
    requires n < |drafts|
    ensures var left := Left(drafts, n, id);
            Left(drafts, n + 1, id) == if Is(drafts[n], ToolResult, id) && left != [] then left[1..] else left
    ensures Is(drafts[n], ToolResult, id) ==>
      CallFor(drafts, n) == if Left(drafts, n, id) == [] then None else Some(Left(drafts, n, id)[0])
  {
    PositionsStep(drafts, n, ToolResult, id);
  }

  /** All events after one more draft. */
  ghost predicate Linked(drafts: seq<Draft>, n: nat, events: seq<TimelineEvent>)
    requires n <= |drafts|
  {
    |events| == |drafts| && forall i {:trigger events[i]} :: 0 <= i < |drafts| ==> events[i] == EventAt(drafts, n, i)
  }

  lemma LinkNothing(drafts: seq<Draft>, n: nat, events: seq<TimelineEvent>)
    requires n < |drafts| && Linked(drafts, n, events)
    requires !(drafts[n].kind == ToolResult && drafts[n].callId.Some?)
    ensures Linked(drafts, n + 1, events)
  {
    forall i | 0 <= i < |drafts| ensures events[i] == EventAt(drafts, n + 1, i) {
      LinkStep(drafts, n, i);
    }
  }

  lemma LinkResult(drafts: seq<Draft>, n: nat, events: seq<TimelineEvent>)
    requires n < |drafts| && Linked(drafts, n, events) && drafts[n].kind == ToolResult && drafts[n].callId.Some?
    ensures CallFor(drafts, n).None? ==> Linked(drafts, n + 1, events[n := events[n].(unpaired := true)])
    ensures CallFor(drafts, n).Some? && CallFor(drafts, n).value < |drafts| ==>
      var call := CallFor(drafts, n).value;
      var called := events[call := events[call].(operation := Some(call + 1), resultEventNo := Some(n + 1))];
      Linked(drafts, n + 1, called[n := called[n].(operation := Some(call + 1), callEventNo := Some(call + 1))])
  {
    forall i | 0 <= i < |drafts| {
      LinkStep(drafts, n, i);
    }
    Untouched(drafts, n, n);
    CallRanked(drafts, n);
    if CallFor(drafts, n).Some? {
      Untouched(drafts, n, CallFor(drafts, n).value);
    }
  }

  /** A result not reached yet and a call no result has reached yet are as they were numbered. */
  lemma Untouched(drafts: seq<Draft>, n: nat, i: nat)
    requires n < |drafts| && i < |drafts| && drafts[n].callId.Some? && drafts[n].kind == ToolResult
    requires i == n || (Is(drafts[i], ToolCall, drafts[n].callId.value) && Rank(drafts, i) == Rank(drafts, n))
    ensures EventAt(drafts, n, i) == Numbered(drafts[i], i)
  {
  }

  /** For every id, the calls that are left wait. */
  ghost predicate Waits(drafts: seq<Draft>, n: nat, waiting: Waiting)
    requires n <= |drafts|
  {
    forall id {:trigger WaitingFor(waiting, id)} :: WaitingFor(waiting, id) == Left(drafts, n, id)
  }

  /** A result takes the first call that waits for it. */
  lemma WaitStep(drafts: seq<Draft>, n: nat, waiting: Waiting, id: string)
    requires n < |drafts| && Waits(drafts, n, waiting) && Is(drafts[n], ToolResult, id)
    ensures var outstanding := WaitingFor(waiting, id);
            && CallFor(drafts, n) == (if outstanding == [] then None else Some(outstanding[0]))
            && Waits(drafts, n + 1, if outstanding == [] then waiting else waiting[id := outstanding[1..]])
  {
    var outstanding := WaitingFor(waiting, id);
    var waiting' := if outstanding == [] then waiting else waiting[id := outstanding[1..]];
    LeftStep(drafts, n, id);
    forall other ensures WaitingFor(waiting', other) == Left(drafts, n + 1, other) {
      assert WaitingFor(waiting, other) == Left(drafts, n, other);
      LeftStep(drafts, n, other);
    }
  }

  lemma WaitOn(drafts: seq<Draft>, n: nat, waiting: Waiting)
    requires n < |drafts| && Waits(drafts, n, waiting)
    requires !(drafts[n].kind == ToolResult && drafts[n].callId.Some?)
    ensures Waits(drafts, n + 1, waiting)
  {
    forall other ensures WaitingFor(waiting, other) == Left(drafts, n + 1, other) {
      LeftStep(drafts, n, other);
    }
  }

  method NumberAndPair(drafts: seq<Draft>) returns (events: array<TimelineEvent>)
    ensures fresh(events) && events.Length == |drafts|
    ensures forall i: nat :: i < |drafts| ==> events[i] == Finished(drafts, i)
  {
    events := new TimelineEvent[|drafts|](i requires 0 <= i < |drafts| => Numbered(drafts[i], i));
    var waiting := CollectCalls(drafts);
    assert drafts[..0] == [];
    for n := 0 to |drafts|
      invariant Linked(drafts, n, events[..])
      invariant Waits(drafts, n, waiting)
    {
      var draft := drafts[n];
      if draft.kind == ToolResult && draft.callId.Some? {
        waiting := LinkOne(drafts, n, draft.callId.value, events, waiting);
      } else {
        WaitOn(drafts, n, waiting);
        LinkNothing(drafts, n, events[..]);
      }
    }
  }

  /** Link one result to the first call that waits for it; without one it is unpaired. */
  method LinkOne(ghost drafts: seq<Draft>, n: nat, id: string, events: array<TimelineEvent>, waiting: Waiting)
    returns (left: Waiting)
    requires n < |drafts| && Is(drafts[n], ToolResult, id)
    requires Linked(drafts, n, events[..]) && Waits(drafts, n, waiting)
    modifies events
    ensures Linked(drafts, n + 1, events[..]) && Waits(drafts, n + 1, left)
  {
    ghost var before := events[..];
    WaitStep(drafts, n, waiting, id);
    LinkResult(drafts, n, before);
    CallRanked(drafts, n);
    var outstanding := WaitingFor(waiting, id);
    if outstanding == [] {
      events[n] := events[n].(unpaired := true);
      assert events[..] == before[n := before[n].(unpaired := true)];
      return waiting;
    }
    var call := outstanding[0];
    events[call] := events[call].(operation := Some(call + 1), resultEventNo := Some(n + 1));
    ghost var called := events[..];
    events[n] := events[n].(operation := Some(call + 1), callEventNo := Some(call + 1));
    assert events[..] == called[n := called[n].(operation := Some(call + 1), callEventNo := Some(call + 1))];
    return waiting[id := outstanding[1..]];
  }
}
