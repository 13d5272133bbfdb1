/** What storing one event writes, field by field: the row of its task and its own record. */
module LogRows {
  import opened LogTables
  import opened LogMatching
  import opened LogSafety
  import opened LogRuns
  import opened LogContinuation

  // ----- Times

  /** The text is one of these and no earlier than any of them. */
  ghost predicate Latest(rules: Rules, text: string, of: set<string>) {
    text in of && forall other :: other in of ==> AtLeast(rules, text, other)
  }

  lemma LatestOne(rules: Rules, now: string, value: string)
    requires rules.parse("") == None
    ensures Latest(rules, LatestOf(rules, now, [Some(value)]), {now, value}) || value == ""
    ensures value == "" ==> LatestOf(rules, now, [Some(value)]) == now
  {
    LatestIsLast(rules, now, [Some(value)]);
    assert [Some(value)][0].value == value;
    assert [Some(value)][..0] == [];
  }

  lemma LatestTwo(rules: Rules, now: string, first: Option<string>, second: string)
    requires rules.parse("") == None
    ensures var text := LatestOf(rules, now, [first, Some(second)]);
            && AtLeast(rules, text, now) && (first.Some? ==> AtLeast(rules, text, first.value))
                 && AtLeast(rules, text, second)
            && (text == now || (first.Some? && text == first.value) || text == second)
  {
    var values := [first, Some(second)];
    LatestIsLast(rules, now, values);
    assert values[0] == first && values[1] == Some(second);
    assert first.Some? && first.value != "" ==> AtLeast(rules, LatestOf(rules, now, values), values[0].value);
    assert second != "" ==> AtLeast(rules, LatestOf(rules, now, values), values[1].value);
  }

  /** The first text that is not empty. */
  function FirstOf(a: string, b: string, otherwise: string): string {
    if |a| > 0 then a else if |b| > 0 then b else otherwise
  }

  // ----- The row of a finished request

  /** The model of the request, or else the one the task had. */
  ghost predicate ModelIs(model: Option<string>, before: Option<string>, e: Event) {
    if e.model.Some? && |e.model.value| > 0 then model == e.model else model == before
  }

  /** What every finished request leaves of its task. */
  ghost predicate ShowsRequest(rules: Rules, row: TaskRow, e: Event, now: string) {
    && row.kind == e.kind && row.endpoint == e.path && row.profile == e.profile && !row.pending
    && AtLeast(rules, row.lastSeenAt, now) && AtLeast(rules, row.lastSeenAt, e.timestamp)
  }

  /** A request that brought a status or a response id counts as answered at its time. */
  ghost predicate AnsweredSince(rules: Rules, after: Option<string>, before: Option<string>, e: Event, now: string) {
    if e.hasStatus || |e.responseIds| > 0 then
      && after.Some? && AtLeast(rules, after.value, now) && AtLeast(rules, after.value, e.timestamp)
      && (before.Some? ==> AtLeast(rules, after.value, before.value))
      && (after.value == now || after.value == e.timestamp || after == before)
    else after == before
  }

  lemma UpdatedShows(rules: Rules, db: Database, found: Found, e: Event, now: string)
    requires rules.parse("") == None
    ensures var row := UpdatedTask(rules, db, found, e, now);
            && ShowsRequest(rules, row, e, now) && ModelIs(row.model, found.row.model, e)
            && AtLeast(rules, row.lastSeenAt, found.row.lastSeenAt)
            && row.lastSeenAt in {now, found.row.lastSeenAt, e.timestamp}
            && AnsweredSince(rules, row.lastResponseAt, found.row.lastResponseAt, e, now)
            && row.startedAt == found.row.startedAt && row.createdAt == found.row.createdAt
            && row.confidence == found.row.confidence
  {
    LatestTwo(rules, now, Some(found.row.lastSeenAt), e.timestamp);
    LatestTwo(rules, now, found.row.lastResponseAt, e.timestamp);
  }

  /** What a new task begins with. */
  lemma NewShows(rules: Rules, e: Event, c: Call)
    requires rules.parse("") == None
    ensures var found := NewTask(rules, e, c);
            && found.id == c.newId && ModelIs(found.row.model, None, e) && found.row.lastResponseAt.None?
            && found.row.kind == e.kind && found.row.endpoint == e.path && found.row.profile == e.profile
            && !found.row.pending && found.row.requestCount == 0 && found.row.confidence == 1.0
            && found.row.startedAt == FirstOf(e.startedTimestamp, e.timestamp, c.now) && found.row.createdAt == c.now
            && AtLeast(rules, found.row.lastSeenAt, c.now) && AtLeast(rules, found.row.lastSeenAt, e.timestamp)
            && found.row.lastSeenAt in {c.now, e.timestamp}
  {
    LatestOne(rules, c.now, e.timestamp);
  }

  /** How sure the match is: a task found by its closeness is less than certain, a new or promoted one is
      certain, and any other keeps what it had. */
  ghost predicate Sure(rules: Rules, db: Database, e: Event, c: Call, task: Id, confidence: real)
    requires Known(db, c.recent)
  {
    if task !in db.tasks || db.tasks[task].pending then confidence == 1.0
    else if (e.id in db.records && db.records[e.id].task == task)
            || Answers(rules, db, e, task) || (Unanswered(rules, db, e) && Keyed(rules, db, e, task))
    then confidence == db.tasks[task].confidence
    else confidence == 0.95
  }

  lemma FoundSure(rules: Rules, db: Database, e: Event, c: Call)
    requires Sound(db) && Given(db, c)
    ensures var found := MatchedTask(rules, db, e, c); Sure(rules, db, e, c, found.id, found.row.confidence)
  {
    var answered, keyed := TaskForPreviousResponse(rules, db, e), TaskForContextKeys(rules, db, e.contextKeys, e);
    ContinuationStands(rules, db, e, c);
    assert e.contextKeys[0..] == e.contextKeys;
    forall t ensures answered.Some? && answered.value.id == t <==> Answers(rules, db, e, t) {
      AnsweredIs(rules, db, e, t);
    }
    forall t ensures keyed.Some? && keyed.value.id == t <==> Keyed(rules, db, e, t) {
      KeyedIs(rules, db, e, 0, t);
    }
    if e.id in db.records {
      OwnTask(db, e.id);
    }
    if answered.Some? {
      AnsweredIs(rules, db, e, answered.value.id);
    } else if keyed.Some? {
      KeyedIs(rules, db, e, 0, keyed.value.id);
    }
  }

  /** The row that a finished request leaves. */
  lemma FinishedRow(rules: Rules, db: Database, e: Event, c: Call)
    requires Sound(db) && Given(db, c) && e.id != "" && !e.bodyPending && rules.parse("") == None
    ensures Save(rules, db, e, c).Ok?
    ensures var task, after := Assign(rules, db, e, c).value.task, Save(rules, db, e, c).value;
            && task in after.tasks
            && var row := after.tasks[task];
               && ShowsRequest(rules, row, e, c.now) && Sure(rules, db, e, c, task, row.confidence)
               && row.requestCount == |RecordsOf(after, task)|
               && (task in db.tasks ==>
                     && ModelIs(row.model, db.tasks[task].model, e)
                     && AtLeast(rules, row.lastSeenAt, db.tasks[task].lastSeenAt)
                     && row.lastSeenAt in {c.now, e.timestamp, db.tasks[task].lastSeenAt}
                     && AnsweredSince(rules, row.lastResponseAt, db.tasks[task].lastResponseAt, e, c.now)
                     && row.startedAt == db.tasks[task].startedAt && row.createdAt == db.tasks[task].createdAt)
               && (task !in db.tasks ==>
                     && task == c.newId && ModelIs(row.model, None, e) && row.lastSeenAt in {c.now, e.timestamp}
                     && AnsweredSince(rules, row.lastResponseAt, None, e, c.now)
                     && row.startedAt == FirstOf(e.startedTimestamp, e.timestamp, c.now) && row.createdAt == c.now)
  {
    var found := MatchedTask(rules, db, e, c);
    SaveDoes(rules, db, e, c);
    OrderlyKeeps(rules, db, e, c);
    FoundSure(rules, db, e, c);
    UpdatedShows(rules, db, found, e, c.now);
    NewShows(rules, e, c);
    MatchedRow(rules, db, e, c);
    assert Counts(Save(rules, db, e, c).value, found.id);
  }

  /** Before what the request adds, the task is the stored one, but for its confidence and for what
      settling it changes, or a new one. */
  lemma MatchedRow(rules: Rules, db: Database, e: Event, c: Call)
    requires Sound(db) && Given(db, c)
    ensures var found := MatchedTask(rules, db, e, c);
            if found.id in db.tasks then
              var row := db.tasks[found.id];
              && found.row.model == row.model && found.row.lastSeenAt == row.lastSeenAt
              && found.row.lastResponseAt == row.lastResponseAt && found.row.startedAt == row.startedAt
              && found.row.createdAt == row.createdAt
            else found == NewTask(rules, e, c)
  {
    ContinuationStands(rules, db, e, c);
    if e.id in db.records {
      OwnTask(db, e.id);
    }
  }

  /** The row that a body-pending request leaves: its own pending one as it was, or a new one in flight
      with this record alone. */
  lemma PendingRow(rules: Rules, db: Database, e: Event, c: Call)
    requires Sound(db) && Given(db, c) && e.id != "" && e.bodyPending && rules.parse("") == None
    ensures Save(rules, db, e, c).Ok?
    ensures var a, after := Assign(rules, db, e, c).value, Save(rules, db, e, c).value;
            && a.task in after.tasks && a.responseIds == [] && a.contextKeys == [] && a.superseded == []
            && var row := after.tasks[a.task];
               if e.id in db.records && db.tasks[db.records[e.id].task].pending then
                 a.task == db.records[e.id].task && row == db.tasks[a.task]
               else
                 && a.task == c.newId && row.pending && row.requestCount == 1 && row.confidence == 1.0
                 && row.kind == e.kind && row.endpoint == e.path && row.profile == e.profile
                 && ModelIs(row.model, None, e) && row.lastResponseAt.None?
                 && row.startedAt == FirstOf(e.startedTimestamp, e.timestamp, c.now) && row.createdAt == c.now
                 && AtLeast(rules, row.lastSeenAt, c.now) && AtLeast(rules, row.lastSeenAt, e.timestamp)
                 && row.lastSeenAt in {c.now, e.timestamp}
  {
    SaveDoes(rules, db, e, c);
    NewShows(rules, e, c);
    if e.id in db.records {
      OwnTask(db, e.id);
    }
  }

  // ----- The record

  /** Some record of the task has this sequence. */
  ghost predicate Holds(db: Database, task: Id, sequence: int) {
    exists r :: r in db.records && db.records[r].task == task && db.records[r].sequence == sequence
  }

  /** The sequence is one above the largest of the task's other records, or one. */
  ghost predicate NextAfter(db: Database, task: Id, sequence: int) {
    && (forall r :: r in db.records && db.records[r].task == task ==> db.records[r].sequence < sequence)
    && (sequence == 1 || Holds(db, task, sequence - 1))
    && ((forall r :: r in db.records ==> db.records[r].task != task) ==> sequence == 1)
  }

  lemma NextIs(db: Database, task: Id)
    ensures NextAfter(db, task, NextSequence(db, task))
  {
    forall r | r in db.records && db.records[r].task == task ensures db.records[r].sequence in Sequences(db, task) {
    }
    var next := NextSequence(db, task);
    if Sequences(db, task) != {} {
      assert next - 1 in Sequences(db, task);
    }
  }

  /** The record holds its text; in the task it was in it keeps its sequence, and in another one it takes
      the next. No other record changes. */
  lemma RecordWritten(rules: Rules, db: Database, e: Event, c: Call)
    requires Sound(db) && Given(db, c) && e.id != ""
    ensures Save(rules, db, e, c).Ok?
    ensures var task, after := Assign(rules, db, e, c).value.task, Save(rules, db, e, c).value;
            && after.records.Keys == db.records.Keys + {e.id}
            && (forall r :: r in db.records && r != e.id ==> after.records[r] == db.records[r])
            && after.records[e.id].task == task && after.records[e.id].text == e.text
            && if e.id in db.records && db.records[e.id].task == task
               then after.records[e.id].sequence == db.records[e.id].sequence
               else NextAfter(db, task, after.records[e.id].sequence)
  {
    SaveDoes(rules, db, e, c);
    var a := Assign(rules, db, e, c).value;
    RecordSaved(db, Save(rules, db, e, c).value, e, a, Gone(rules, db, e, c));
  }

  lemma RecordSaved(db: Database, after: Database, e: Event, a: Assignment, gone: set<Id>)
    requires Saved(db, after, e, a, gone) && a.sequence == SequenceForRecord(db, e.id, a.task)
    ensures after.records.Keys == db.records.Keys + {e.id}
    ensures forall r :: r in db.records && r != e.id ==> after.records[r] == db.records[r]
    ensures after.records[e.id].task == a.task && after.records[e.id].text == e.text
    ensures if e.id in db.records && db.records[e.id].task == a.task
            then after.records[e.id].sequence == db.records[e.id].sequence
            else NextAfter(db, a.task, after.records[e.id].sequence)
  {
    NextIs(db, a.task);
  }
}
