/** The traffic log over whole runs of stored events and deletions. */
module LogRuns {
  import opened Whitespace
  import opened LogTables
  import opened LogMatching
  import opened LogSafety

  /** What the surroundings give: the listing is of settled tasks, and the new id is new. */
  ghost predicate Given(db: Database, c: Call) {
    Recent(db, c.recent) && !Blank(c.newId) && c.newId !in db.tasks
  }

  /** A body-pending event comes before its request is settled in a task. */
  predicate Orderly(db: Database, e: Event) {
    e.bodyPending && e.id in db.records && db.records[e.id].task in db.tasks ==> db.tasks[db.records[e.id].task].pending
  }

  // ----- What the matcher picks

  /** A task the matcher found in the log: the stored row, but for its confidence. */
  ghost predicate Stands(db: Database, found: Found) {
    found.id in db.tasks && found.row == db.tasks[found.id].(confidence := found.row.confidence)
  }

  lemma {:induction false} ContextTaskStands(rules: Rules, db: Database, keys: seq<string>, e: Event)
    requires Sound(db)
    ensures var found := TaskForContextKeys(rules, db, keys, e);
            found.Some? ==> Stands(db, found.value) && !found.value.row.pending
  {
    if keys != [] {
      if keys[0] in db.contextLinks {
        assert Counts(db, db.contextLinks[keys[0]]);
      }
      ContextTaskStands(rules, db, keys[1..], e);
    }
  }

  /** A continued task is never in flight: links name settled tasks only. */
  lemma ContinuationStands(rules: Rules, db: Database, e: Event, c: Call)
    requires Sound(db) && Given(db, c)
    ensures var found := ContinuationTask(rules, db, e, c.nowMs, c.recent);
            found.Some? ==> Stands(db, found.value) && !found.value.row.pending
  {
    ContextTaskStands(rules, db, e.contextKeys, e);
    if e.previousResponse.Some? && e.previousResponse.value in db.responseLinks {
      assert Counts(db, db.responseLinks[e.previousResponse.value]);
    }
  }

  /** The sequence of the record is free in its task. */
  lemma SequenceFree(db: Database, record: Id, task: Id, text: string)
    requires DistinctSequences(db)
    ensures !Taken(db, record, RecordRow(task, SequenceForRecord(db, record, task), text))
  {
    var sequence := SequenceForRecord(db, record, task);
    forall r | r in db.records && r != record && db.records[r].task == task ensures db.records[r].sequence != sequence {
      assert db.records[r].sequence in Sequences(db, task);
    }
  }

  lemma OwnTask(db: Database, record: Id)
    requires Sound(db) && record in db.records
    ensures var own := ExistingTask(db, record);
            && own == Some(Found(db.records[record].task, db.tasks[db.records[record].task]))
            && record in RecordsOf(db, own.value.id)
            && (own.value.row.pending ==> RecordsOf(db, own.value.id) == {record} && Unlinked(db, own.value.id))
  {
    var t := db.records[record].task;
    assert Counts(db, t);
    if db.tasks[t].pending {
      var others := RecordsOf(db, t) - {record};
      assert |others| == 0;
      assert RecordsOf(db, t) == {record};
    }
  }

  lemma NewTaskEmpty(db: Database, id: Id)
    requires Sound(db) && id !in db.tasks
    ensures RecordsOf(db, id) == {} && Unlinked(db, id)
  {
  }

  /** The task of a finished request stands in the log or is new. */
  lemma MatchedStands(rules: Rules, db: Database, e: Event, c: Call)
    requires Sound(db) && Given(db, c)
    ensures var found := MatchedTask(rules, db, e, c);
            || (found.id == c.newId && e.id !in db.records)
            || (&& found.id in db.tasks
                && found.row.lastSeenAt == db.tasks[found.id].lastSeenAt
                && found.row.startedAt == db.tasks[found.id].startedAt)
  {
    ContinuationStands(rules, db, e, c);
    if e.id in db.records {
      OwnTask(db, e.id);
    }
  }

  /** Only a task in flight is superseded, and it has this record alone. */
  lemma SupersededAlone(rules: Rules, db: Database, e: Event, c: Call, w: TrafficWrite)
    requires Sound(db) && Given(db, c)
    requires w.superseded == Superseded(rules, db, e, c) && w.task == MatchedTask(rules, db, e, c).id
      && w.recordId == e.id
    ensures FitsGone(db, w, set t | t in w.superseded)
    ensures forall t :: t in w.superseded ==> t in db.tasks && db.tasks[t].pending
  {
    ContinuationStands(rules, db, e, c);
    if e.id in db.records {
      OwnTask(db, e.id);
    }
    if w.superseded == [] {
      GoneNone(db, w);
    } else {
      GoneOwn(db, w, db.records[e.id].task);
    }
  }

  lemma GoneNone(db: Database, w: TrafficWrite)
    requires w.superseded == []
    requires w.recordId in db.records ==> db.records[w.recordId].task == w.task
    ensures FitsGone(db, w, set t | t in w.superseded)
  {
    SelectedOne([]);
  }

  lemma GoneOwn(db: Database, w: TrafficWrite, own: Id)
    requires Sound(db) && w.superseded == [own] && own != w.task && own in db.tasks && db.tasks[own].pending
    requires w.recordId in db.records && db.records[w.recordId].task == own
    ensures FitsGone(db, w, set t | t in w.superseded)
  {
    OwnTask(db, w.recordId);
    SelectedOne([own]);
  }

  lemma SelectedOne(ids: seq<Id>)
    requires |ids| <= 1 && forall id :: id in ids ==> !Blank(id)
    ensures Selected(ids) == set t | t in ids
  {
  }

  lemma LinksAll(keys: seq<string>, task: Id)
    ensures forall i {:trigger LinksTo(keys, task)[i]} :: 0 <= i < |LinksTo(keys, task)| ==>
      LinksTo(keys, task)[i].task == task
  {
  }

  /** The tasks a stored event may take away. */
  function Gone(rules: Rules, db: Database, e: Event, c: Call): set<Id>
    requires Known(db, c.recent)
  {
    if e.bodyPending then {} else set t | t in Superseded(rules, db, e, c)
  }

  lemma PendingFits(rules: Rules, db: Database, e: Event, c: Call)
    requires Sound(db) && Given(db, c) && e.id != "" && e.bodyPending && Orderly(db, e)
    ensures Fits(db, WriteOf(e, Assign(rules, db, e, c).value), {})
  {
    var task := PendingTask(rules, db, e, c);
    SequenceFree(db, e.id, task.id, e.text);
    if e.id in db.records {
      OwnTask(db, e.id);
      assert Counts(db, task.id);
      assert RecordsOf(db, task.id) + {e.id} == {e.id};
    } else {
      NewTaskEmpty(db, c.newId);
      assert RecordsOf(db, task.id) + {e.id} == {e.id};
    }
  }

  lemma MatchedNamed(rules: Rules, db: Database, e: Event, c: Call)
    requires Sound(db) && Given(db, c)
    ensures !Blank(MatchedTask(rules, db, e, c).id)
  {
    MatchedStands(rules, db, e, c);
  }

  lemma CountWith(db: Database, record: Id, task: Id)
    ensures |RecordsOf(db, task) + {record}| ==
            |RecordsOf(db, task)| + if record in db.records && db.records[record].task == task then 0 else 1
  {
    if record in RecordsOf(db, task) {
      assert RecordsOf(db, task) + {record} == RecordsOf(db, task);
    }
  }

  lemma FinishedTaskFits(rules: Rules, db: Database, e: Event, c: Call)
    requires DistinctSequences(db) && Known(db, c.recent) && e.id != "" && !e.bodyPending
    requires !Blank(MatchedTask(rules, db, e, c).id)
    ensures FitsTask(db, WriteOf(e, Assign(rules, db, e, c).value))
  {
    var found := MatchedTask(rules, db, e, c);
    SequenceFree(db, e.id, found.id, e.text);
    CountWith(db, e.id, found.id);
  }

  lemma FinishedFits(rules: Rules, db: Database, e: Event, c: Call)
    requires Sound(db) && Given(db, c) && e.id != "" && !e.bodyPending
    ensures Fits(db, WriteOf(e, Assign(rules, db, e, c).value), Gone(rules, db, e, c))
    ensures forall t :: t in Gone(rules, db, e, c) ==> t in db.tasks && db.tasks[t].pending
  {
    var found := MatchedTask(rules, db, e, c);
    MatchedNamed(rules, db, e, c);
    FinishedTaskFits(rules, db, e, c);
    SupersededAlone(rules, db, e, c, WriteOf(e, Assign(rules, db, e, c).value));
    LinksAll(e.responseIds, found.id);
    LinksAll(e.contextKeys, found.id);
  }

  // ----- One event

  /** What storing an event did: its own record was written in its task, and tasks that were in
      flight with this record alone are gone. */
  ghost predicate Saved(db: Database, after: Database, e: Event, a: Assignment, gone: set<Id>) {
    && after.records == db.records[e.id := RecordRow(a.task, a.sequence, e.text)]
    && after.tasks == UpsertTask(db, a.task, a.row).tasks - gone
    && a.task !in gone
    && (forall t :: t in gone ==> t in db.tasks && db.tasks[t].pending && RecordsOf(db, t) == {e.id})
  }

  /** Storing an orderly event succeeds and keeps the log sound; superseding deletes no record. */
  lemma OrderlyKeeps(rules: Rules, db: Database, e: Event, c: Call)
    requires Sound(db) && Given(db, c) && Orderly(db, e) && e.id != ""
    ensures Save(rules, db, e, c).Ok? && Sound(Save(rules, db, e, c).value)
    ensures Saved(db, Save(rules, db, e, c).value, e, Assign(rules, db, e, c).value, Gone(rules, db, e, c))
  {
    var w := WriteOf(e, Assign(rules, db, e, c).value);
    var gone := Gone(rules, db, e, c);
    if e.bodyPending {
      PendingFits(rules, db, e, c);
    } else {
      FinishedFits(rules, db, e, c);
    }
    CommitKeeps(db, w, gone);
  }

  lemma RemoveNone(db: Database)
    ensures RemoveTasks(db, []) == db
  {
    assert Selected([]) == {};
    assert RemoveTasks(db, []).documents == db.documents;
  }

  /** A body-pending event of a settled request takes the record from its task and leaves that
      task counting one too many. */
  lemma DisorderlyBreaks(rules: Rules, db: Database, e: Event, c: Call)
    requires Sound(db) && Given(db, c) && !Orderly(db, e) && e.id != ""
    ensures Save(rules, db, e, c).Ok?
    ensures var t := db.records[e.id].task;
            var after := Save(rules, db, e, c).value;
            t in after.tasks && after.tasks[t].requestCount == |RecordsOf(after, t)| + 1
  {
    var a := Assign(rules, db, e, c).value;
    var t := db.records[e.id].task;
    DisorderlyWrites(rules, db, e, c);
    assert Counts(db, t);
    MovedAway(db, WriteOf(e, a), t);
  }

  /** A body-pending event of a settled request is stored in a new task. */
  lemma DisorderlyWrites(rules: Rules, db: Database, e: Event, c: Call)
    requires Sound(db) && Given(db, c) && !Orderly(db, e) && e.id != ""
    ensures var a := Assign(rules, db, e, c).value;
            a.task == c.newId && Save(rules, db, e, c) == Ok(Stored(db, WriteOf(e, a)))
    ensures db.records[e.id].task != c.newId && e.id in RecordsOf(db, db.records[e.id].task)
  {
    var a := Assign(rules, db, e, c).value;
    OwnTask(db, e.id);
    SequenceFree(db, e.id, a.task, e.text);
    BareWrite(db, WriteOf(e, a));
  }

  lemma MovedAway(db: Database, w: TrafficWrite, t: Id)
    requires t in db.tasks && t != w.task && w.record.task == w.task && w.recordId in RecordsOf(db, t)
    ensures t in Stored(db, w).tasks && Stored(db, w).tasks[t] == db.tasks[t]
    ensures |RecordsOf(Stored(db, w), t)| == |RecordsOf(db, t)| - 1
  {
    StoredRecords(db, w, t);
  }

  /** A write without links and superseded tasks stores its task and its record. */
  lemma BareWrite(db: Database, w: TrafficWrite)
    requires Searchable(db) && w.record.task == w.task && !Taken(db, w.recordId, w.record)
    requires w.responseLinks == [] && w.contextLinks == [] && w.superseded == []
    ensures WriteTraffic(db, w) == Ok(Stored(db, w))
  {
    StoreSucceeds(db, w);
    RemoveNone(Stored(db, w));
  }

  /** No statement of a stored event ever fails, and the log stays sound exactly when the event is
      orderly. */
  lemma SaveKeeps(rules: Rules, db: Database, e: Event, c: Call)
    requires Sound(db) && Given(db, c)
    ensures Save(rules, db, e, c).Ok?
    ensures Sound(Save(rules, db, e, c).value) <==> Orderly(db, e) || e.id == ""
  {
    if e.id != "" {
      if Orderly(db, e) {
        OrderlyKeeps(rules, db, e, c);
      } else {
        DisorderlyBreaks(rules, db, e, c);
        var after := Save(rules, db, e, c).value;
        assert !Counts(after, db.records[e.id].task);
      }
    }
  }

  /** The record is in this task under this sequence, and the task is not in flight. */
  predicate Settled(db: Database, record: Id, task: Id, sequence: int) {
    && record in db.records && db.records[record].task == task && db.records[record].sequence == sequence
    && task in db.tasks && !db.tasks[task].pending
  }

  /** Whatever event is stored, orderly or not, this is what it does. */
  lemma SaveDoes(rules: Rules, db: Database, e: Event, c: Call)
    requires Sound(db) && Given(db, c) && e.id != ""
    ensures Save(rules, db, e, c).Ok?
    ensures Saved(db, Save(rules, db, e, c).value, e, Assign(rules, db, e, c).value, Gone(rules, db, e, c))
  {
    if Orderly(db, e) {
      OrderlyKeeps(rules, db, e, c);
    } else {
      DisorderlyWrites(rules, db, e, c);
      StoredDoes(db, e, Assign(rules, db, e, c).value);
    }
  }

  lemma StoredDoes(db: Database, e: Event, a: Assignment)
    ensures Saved(db, Stored(db, WriteOf(e, a)), e, a, {})
  {
  }

  /** A record whose task is settled keeps its task and its sequence, whatever event comes next,
      exactly unless that is a body-pending event of its own. */
  lemma SettledStays(rules: Rules, db: Database, e: Event, c: Call, record: Id, task: Id, sequence: int)
    requires Sound(db) && Given(db, c) && Settled(db, record, task, sequence)
    ensures Save(rules, db, e, c).Ok?
    ensures Settled(Save(rules, db, e, c).value, record, task, sequence) <==>
      e.id == "" || !e.bodyPending || e.id != record
  {
    if e.id != "" {
      SaveDoes(rules, db, e, c);
      SettledAssigned(rules, db, e, c);
      var a := Assign(rules, db, e, c).value;
      SavedSettled(db, Save(rules, db, e, c).value, e, a, Gone(rules, db, e, c), record, task, sequence);
    }
  }

  lemma SavedSettled(db: Database, after: Database, e: Event, a: Assignment, gone: set<Id>, record: Id, task: Id,
                     sequence: int)
    requires Saved(db, after, e, a, gone) && Settled(db, record, task, sequence)
    requires a.task == task ==> !a.row.pending
    ensures Settled(after, record, task, sequence) <==> (record == e.id ==> a.task == task && a.sequence == sequence)
  {
  }

  /** A finished event of a settled record goes to where the record is, a body-pending one to a new
      task; only tasks in flight are written as such. */
  lemma SettledAssigned(rules: Rules, db: Database, e: Event, c: Call)
    requires Known(db, c.recent) && e.id != "" && Placed(db) && c.newId !in db.tasks
    ensures var a := Assign(rules, db, e, c).value;
            && (e.id in db.records && !db.tasks[db.records[e.id].task].pending ==>
                 if e.bodyPending then a.task == c.newId
                 else a.task == db.records[e.id].task && a.sequence == db.records[e.id].sequence)
            && (a.row.pending && a.task in db.tasks ==> db.tasks[a.task].pending)
  {
  }

  /** A task is never seen earlier than before, and keeps when it started and was created. */
  lemma TimesAdvance(rules: Rules, db: Database, e: Event, c: Call, task: Id)
    requires Sound(db) && Given(db, c) && rules.parse("") == None && task in db.tasks
    requires Save(rules, db, e, c).Ok? && task in Save(rules, db, e, c).value.tasks
    ensures var after := Save(rules, db, e, c).value.tasks[task];
            && AtLeast(rules, after.lastSeenAt, db.tasks[task].lastSeenAt)
            && after.startedAt == db.tasks[task].startedAt
            && after.createdAt == db.tasks[task].createdAt
  {
    if e.id != "" {
      SaveDoes(rules, db, e, c);
      MatchedStands(rules, db, e, c);
      var a := Assign(rules, db, e, c).value;
      SavedTask(db, Save(rules, db, e, c).value, e, a, Gone(rules, db, e, c), task);
      if a.task == task {
        RowAdvances(rules, db, e, c);
      }
    }
  }

  lemma SavedTask(db: Database, after: Database, e: Event, a: Assignment, gone: set<Id>, task: Id)
    requires Saved(db, after, e, a, gone) && task in db.tasks && task in after.tasks
    ensures after.tasks[task] ==
            if task == a.task then a.row.(createdAt := db.tasks[task].createdAt) else db.tasks[task]
  {
  }

  /** What is written of a stored task was seen no earlier, and started when it did. */
  lemma RowAdvances(rules: Rules, db: Database, e: Event, c: Call)
    requires Known(db, c.recent) && e.id != "" && rules.parse("") == None
    requires Assign(rules, db, e, c).value.task in db.tasks && c.newId !in db.tasks
    requires !e.bodyPending ==>
      var found := MatchedTask(rules, db, e, c);
      found.row.lastSeenAt == db.tasks[found.id].lastSeenAt && found.row.startedAt == db.tasks[found.id].startedAt
    ensures var a := Assign(rules, db, e, c).value;
            && AtLeast(rules, a.row.lastSeenAt, db.tasks[a.task].lastSeenAt)
            && a.row.startedAt == db.tasks[a.task].startedAt
  {
    var a := Assign(rules, db, e, c).value;
    if !e.bodyPending {
      var seen := [Some(db.tasks[a.task].lastSeenAt), Some(e.timestamp)];
      LatestIsLast(rules, c.now, seen);
      assert a.row.lastSeenAt == LatestOf(rules, c.now, seen);
      assert seen[0].value == db.tasks[a.task].lastSeenAt;
    }
  }

  // ----- Runs

  datatype Operation = StoreEvent(event: Event, call: Call) | Deletion(ids: seq<Id>)

  ghost predicate Admitted(db: Database, op: Operation) {
    op.StoreEvent? ==> Given(db, op.call) && Orderly(db, op.event)
  }

  function Step(rules: Rules, db: Database, op: Operation): Result<Database>
    requires op.StoreEvent? ==> Known(db, op.call.recent)
  {
    match op
    case StoreEvent(e, c) => Save(rules, db, e, c)
    case Deletion(ids) => Ok(RemoveTasks(db, ids))
  }

  lemma StepKeeps(rules: Rules, db: Database, op: Operation)
    requires Sound(db) && Admitted(db, op)
    ensures Step(rules, db, op).Ok? && Sound(Step(rules, db, op).value)
  {
    match op
    case StoreEvent(e, c) => SaveKeeps(rules, db, e, c);
    case Deletion(ids) => RemoveKeeps(db, ids, {});
  }

  /** The states of a run from an empty log in which every operation was admitted. */
  ghost predicate Run(rules: Rules, states: seq<Database>, ops: seq<Operation>) {
    && |states| == |ops| + 1 && states[0] == EmptyDatabase
    && forall i {:trigger ops[i]} :: 0 <= i < |ops| ==>
         Admitted(states[i], ops[i]) && Step(rules, states[i], ops[i]) == Ok(states[i + 1])
  }

  lemma {:induction false} RunSound(rules: Rules, states: seq<Database>, ops: seq<Operation>, n: nat)
    requires Run(rules, states, ops) && n < |states|
    ensures Sound(states[n])
  {
    if n > 0 {
      RunSound(rules, states, ops, n - 1);
      StepKeeps(rules, states[n - 1], ops[n - 1]);
      assert Step(rules, states[n - 1], ops[n - 1]) == Ok(states[n]);
    }
  }
}
