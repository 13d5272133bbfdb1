/** What every stored event and every deletion keep of the traffic log. */
module LogSafety {
  import opened Whitespace
  import opened LogTables

  // ----- The invariant

  /** Every task has a name, and every record has its task. */
  ghost predicate Placed(db: Database) {
    && (forall t {:trigger t in db.tasks} :: t in db.tasks ==> !Blank(t))
    && (forall r {:trigger db.records[r]} :: r in db.records ==> db.records[r].task in db.tasks)
  }

  /** No two records of a task have the same sequence. */
  ghost predicate DistinctSequences(db: Database) {
    forall a, b {:trigger db.records[a], db.records[b]} :: a in db.records && b in db.records && a != b ==>
      db.records[a].task != db.records[b].task || db.records[a].sequence != db.records[b].sequence
  }

  ghost predicate Unlinked(db: Database, task: Id) {
    && (forall k {:trigger db.responseLinks[k]} :: k in db.responseLinks ==> db.responseLinks[k] != task)
    && (forall k {:trigger db.contextLinks[k]} :: k in db.contextLinks ==> db.contextLinks[k] != task)
  }

  /** A task counts its records, and a task in flight has exactly one and no links. */
  ghost predicate Counts(db: Database, task: Id)
    requires task in db.tasks
  {
    && db.tasks[task].requestCount == |RecordsOf(db, task)|
    && (db.tasks[task].pending ==> |RecordsOf(db, task)| == 1 && Unlinked(db, task))
  }

  /** All tasks count, except those about to go, which nothing hangs on. */
  ghost predicate CountsBut(db: Database, gone: set<Id>) {
    && (forall t {:trigger Counts(db, t)} :: t in db.tasks && t !in gone ==> Counts(db, t))
    && (forall t :: t in gone ==> RecordsOf(db, t) == {} && Unlinked(db, t))
  }

  ghost predicate LinksHeld(db: Database) {
    && (forall k {:trigger db.responseLinks[k]} :: k in db.responseLinks ==> db.responseLinks[k] in db.tasks)
    && (forall k {:trigger db.contextLinks[k]} :: k in db.contextLinks ==> db.contextLinks[k] in db.tasks)
  }

  /** Every record has one map row, with its task, and one indexed document, with its text; there
      are no other map rows and no other documents. */
  ghost predicate Searchable(db: Database) {
    && db.searchMap.Keys == db.records.Keys
    && (forall r {:trigger db.searchMap[r]} :: r in db.searchMap ==>
         && db.searchMap[r].task == db.records[r].task
         && db.searchMap[r].rowid in db.documents
         && db.documents[db.searchMap[r].rowid] == Document(r, db.records[r].task, db.records[r].text))
    && (forall n {:trigger db.documents[n]} :: n in db.documents ==>
         db.documents[n].record in db.searchMap && db.searchMap[db.documents[n].record].rowid == n)
  }

  /** The log holds together, but for tasks about to go. */
  ghost predicate SoundBut(db: Database, gone: set<Id>) {
    Placed(db) && DistinctSequences(db) && CountsBut(db, gone) && LinksHeld(db) && Searchable(db)
  }

  ghost predicate Sound(db: Database) {
    SoundBut(db, {})
  }

  // ----- Deleting tasks

  lemma RemovedSearch(db: Database, ids: seq<Id>)
    requires Searchable(db)
    ensures Searchable(RemoveTasks(db, ids))
  {
    var gone := Selected(ids);
    var after := RemoveTasks(db, ids);
    forall r | r in after.searchMap ensures after.searchMap[r].rowid in after.documents {
      assert db.documents[db.searchMap[r].rowid].record == r;
    }
    forall n | n in after.documents ensures after.documents[n].record in after.searchMap {
      var r := db.documents[n].record;
      assert db.searchMap[r].rowid == n;
    }
  }

  lemma RemovedCounts(db: Database, ids: seq<Id>, gone: set<Id>)
    requires CountsBut(db, gone) && gone <= Selected(ids)
    ensures CountsBut(RemoveTasks(db, ids), {})
  {
    var after := RemoveTasks(db, ids);
    forall t | t in after.tasks ensures Counts(after, t) {
      assert RecordsOf(after, t) == RecordsOf(db, t);
      assert Counts(db, t);
    }
  }

  /** Deleting tasks leaves a log that holds together, also when some were already hollow. */
  lemma RemoveKeeps(db: Database, ids: seq<Id>, gone: set<Id>)
    requires SoundBut(db, gone) && gone <= Selected(ids)
    ensures Sound(RemoveTasks(db, ids))
  {
    RemovedSearch(db, ids);
    RemovedCounts(db, ids, gone);
  }

  /** The task is one of those named for deletion; blank names name none. */
  ghost predicate Dropped(ids: seq<Id>, task: Id) {
    !Blank(task) && exists i :: 0 <= i < |ids| && ids[i] == task
  }

  /** The named tasks are gone with their records and links; everything else stands unchanged. */
  ghost predicate TablesLeft(db: Database, after: Database, ids: seq<Id>) {
    && (forall t :: t in after.tasks <==> t in db.tasks && !Dropped(ids, t))
    && (forall t :: t in after.tasks ==> after.tasks[t] == db.tasks[t])
    && (forall r :: r in after.records <==> r in db.records && !Dropped(ids, db.records[r].task))
    && (forall r :: r in after.records ==> after.records[r] == db.records[r])
    && (forall k :: k in after.responseLinks <==> k in db.responseLinks && !Dropped(ids, db.responseLinks[k]))
    && (forall k :: k in after.responseLinks ==> after.responseLinks[k] == db.responseLinks[k])
    && (forall k :: k in after.contextLinks <==> k in db.contextLinks && !Dropped(ids, db.contextLinks[k]))
    && (forall k :: k in after.contextLinks ==> after.contextLinks[k] == db.contextLinks[k])
  }

  /** So are their map rows, those of their records, and in a searchable log their documents. */
  ghost predicate SearchLeft(db: Database, after: Database, ids: seq<Id>) {
    && (forall r :: r in after.searchMap <==>
          && r in db.searchMap && !Dropped(ids, db.searchMap[r].task)
          && !(r in db.records && Dropped(ids, db.records[r].task)))
    && (forall r :: r in after.searchMap ==> after.searchMap[r] == db.searchMap[r])
    && (Searchable(db) ==>
          forall n :: n in after.documents <==> n in db.documents && !Dropped(ids, db.documents[n].task))
    && (forall n :: n in after.documents ==> n in db.documents && after.documents[n] == db.documents[n])
  }

  /** What a deletion leaves, table by table. */
  lemma RemoveExactly(db: Database, ids: seq<Id>)
    ensures TablesLeft(db, RemoveTasks(db, ids), ids) && SearchLeft(db, RemoveTasks(db, ids), ids)
  {
    SelectedDropped(ids);
    RemoveSearch(db, ids);
  }

  lemma SelectedDropped(ids: seq<Id>)
    ensures forall t :: t in Selected(ids) <==> Dropped(ids, t)
  {
  }

  lemma RemoveSearch(db: Database, ids: seq<Id>)
    ensures SearchLeft(db, RemoveTasks(db, ids), ids)
  {
    SelectedDropped(ids);
    if Searchable(db) {
      DocumentsDropped(db, ids);
    }
  }

  lemma DocumentsDropped(db: Database, ids: seq<Id>)
    requires Searchable(db)
    ensures forall n :: n in db.documents ==>
      (n in RowidsForTasks(db, Selected(ids)) <==> Dropped(ids, db.documents[n].task))
  {
    forall n | n in db.documents
      ensures n in RowidsForTasks(db, Selected(ids)) <==> Dropped(ids, db.documents[n].task)
    {
      DocumentDropped(db, ids, n);
    }
  }

  lemma DocumentDropped(db: Database, ids: seq<Id>, n: int)
    requires Searchable(db) && n in db.documents
    ensures n in RowidsForTasks(db, Selected(ids)) <==> Dropped(ids, db.documents[n].task)
  {
    var r := db.documents[n].record;
    assert db.searchMap[r].rowid == n && db.documents[db.searchMap[r].rowid].task == db.searchMap[r].task;
    if n in RowidsForTasks(db, Selected(ids)) {
      var other :| other in db.searchMap && db.searchMap[other].task in Selected(ids) && db.searchMap[other].rowid == n;
      assert db.documents[n].record == other;
    }
  }

  /** Deleting hollow tasks deletes nothing else. */
  lemma RemoveHollow(db: Database, ids: seq<Id>, gone: set<Id>)
    requires CountsBut(db, gone) && Searchable(db) && Selected(ids) == gone
    ensures RemoveTasks(db, ids) == db.(tasks := db.tasks - gone)
  {
    var after := RemoveTasks(db, ids);
    HollowRecords(db, gone);
    assert after.records == db.records;
    assert after.searchMap == db.searchMap;
    assert after.documents == db.documents;
    HollowLinks(db, gone);
    assert after.responseLinks == db.responseLinks;
    assert after.contextLinks == db.contextLinks;
  }

  lemma HollowRecords(db: Database, gone: set<Id>)
    requires CountsBut(db, gone)
    ensures forall r {:trigger db.records[r]} :: r in db.records ==> db.records[r].task !in gone
  {
    forall r | r in db.records ensures db.records[r].task !in gone {
      assert r in RecordsOf(db, db.records[r].task);
    }
  }

  lemma HollowLinks(db: Database, gone: set<Id>)
    requires CountsBut(db, gone)
    ensures forall k {:trigger db.responseLinks[k]} :: k in db.responseLinks ==> db.responseLinks[k] !in gone
    ensures forall k {:trigger db.contextLinks[k]} :: k in db.contextLinks ==> db.contextLinks[k] !in gone
  {
  }

  // ----- Storing the record

  /** The log with one task and one record written and its search row in step. */
  function Stored(db: Database, w: TrafficWrite): Database {
    var rowid := if w.recordId in db.searchMap then db.searchMap[w.recordId].rowid else After(Rowids(db));
    UpsertTask(db, w.task, w.row).(
      records := db.records[w.recordId := w.record],
      searchMap := db.searchMap[w.recordId := SearchEntry(rowid, w.record.task)],
      documents := db.documents[rowid := Document(w.recordId, w.record.task, w.record.text)])
  }

  /** A new search row never meets an indexed one. */
  lemma FreshRowid(db: Database)
    requires Searchable(db)
    ensures After(Rowids(db)) !in db.documents
  {
    forall n | n in db.documents ensures n in Rowids(db) {
      assert db.searchMap[db.documents[n].record].rowid == n;
    }
  }

  lemma StoreSucceeds(db: Database, w: TrafficWrite)
    requires Searchable(db) && w.record.task == w.task && !Taken(db, w.recordId, w.record)
    ensures UpsertRecord(UpsertTask(db, w.task, w.row), w.recordId, w.record).Ok?
    ensures SyncRecord(UpsertRecord(UpsertTask(db, w.task, w.row), w.recordId, w.record).value, w.recordId, w.record) ==
      Ok(Stored(db, w))
  {
    FreshRowid(db);
    var upserted := UpsertTask(db, w.task, w.row);
    assert Taken(upserted, w.recordId, w.record) == Taken(db, w.recordId, w.record);
    var recorded := upserted.(records := db.records[w.recordId := w.record]);
    assert UpsertRecord(upserted, w.recordId, w.record) == Ok(recorded);
    assert Rowids(recorded) == Rowids(db);
    var entry := Stored(db, w).searchMap[w.recordId];
    var document := Document(w.recordId, w.record.task, w.record.text);
    assert (db.documents - {entry.rowid})[entry.rowid := document] == db.documents[entry.rowid := document];
  }

  lemma StoredSearch(db: Database, w: TrafficWrite)
    requires Searchable(db)
    ensures Searchable(Stored(db, w))
  {
    FreshRowid(db);
    var after := Stored(db, w);
    forall r | r in after.searchMap
      ensures after.searchMap[r].rowid in after.documents
      ensures after.documents[after.searchMap[r].rowid] == Document(r, after.records[r].task, after.records[r].text)
    {
      if r != w.recordId {
        assert db.documents[db.searchMap[r].rowid].record == r;
      }
    }
  }

  lemma StoredSequences(db: Database, w: TrafficWrite)
    requires DistinctSequences(db) && !Taken(db, w.recordId, w.record)
    ensures DistinctSequences(Stored(db, w))
  {
  }

  lemma StoredRecords(db: Database, w: TrafficWrite, task: Id)
    ensures RecordsOf(Stored(db, w), task) ==
            if task == w.record.task then RecordsOf(db, task) + {w.recordId} else RecordsOf(db, task) - {w.recordId}
  {
  }

  /** The task counts the record, in a free sequence, and has nothing else while in flight. */
  ghost predicate FitsTask(db: Database, w: TrafficWrite) {
    && !Blank(w.task) && w.record.task == w.task && !Taken(db, w.recordId, w.record)
    && w.row.requestCount == |RecordsOf(db, w.task) + {w.recordId}|
    && (w.row.pending ==>
         RecordsOf(db, w.task) <= {w.recordId} && Unlinked(db, w.task) && w.responseLinks == [] && w.contextLinks == [])
  }

  /** Superseded tasks have this record alone, and the record leaves no other task. */
  ghost predicate FitsGone(db: Database, w: TrafficWrite, gone: set<Id>) {
    && Selected(w.superseded) == gone
    && (forall t :: t in gone ==> t != w.task && RecordsOf(db, t) == {w.recordId} && Unlinked(db, t))
    && (w.recordId in db.records ==> db.records[w.recordId].task == w.task || db.records[w.recordId].task in gone)
  }

  ghost predicate FitsLinks(w: TrafficWrite) {
    && (forall i {:trigger w.responseLinks[i]} :: 0 <= i < |w.responseLinks| ==> w.responseLinks[i].task == w.task)
    && (forall i {:trigger w.contextLinks[i]} :: 0 <= i < |w.contextLinks| ==> w.contextLinks[i].task == w.task)
  }

  /** What an assignment must be for the write made of it to keep the log sound. */
  ghost predicate Fits(db: Database, w: TrafficWrite, gone: set<Id>) {
    FitsTask(db, w) && FitsGone(db, w, gone) && FitsLinks(w)
  }

  lemma WrittenTaskCounts(db: Database, w: TrafficWrite)
    requires FitsTask(db, w)
    ensures Counts(Stored(db, w), w.task)
  {
    var after := Stored(db, w);
    StoredRecords(db, w, w.task);
    assert Unlinked(after, w.task) == Unlinked(db, w.task);
    assert RecordsOf(db, w.task) <= {w.recordId} ==> RecordsOf(db, w.task) + {w.recordId} == {w.recordId};
  }

  lemma OtherTaskCounts(db: Database, w: TrafficWrite, t: Id)
    requires t in db.tasks && t != w.task && w.record.task == w.task && Counts(db, t) && w.recordId !in RecordsOf(db, t)
    ensures Counts(Stored(db, w), t)
  {
    StoredRecords(db, w, t);
    assert RecordsOf(db, t) - {w.recordId} == RecordsOf(db, t);
    SameCounts(db, Stored(db, w), t);
  }

  lemma SameCounts(db: Database, after: Database, t: Id)
    requires t in db.tasks && t in after.tasks && after.tasks[t] == db.tasks[t]
      && RecordsOf(after, t) == RecordsOf(db, t)
    requires after.responseLinks == db.responseLinks && after.contextLinks == db.contextLinks && Counts(db, t)
    ensures Counts(after, t)
  {
  }

  lemma StoredTaskCounts(db: Database, w: TrafficWrite, gone: set<Id>, t: Id)
    requires CountsBut(db, {}) && Fits(db, w, gone) && t in Stored(db, w).tasks && t !in gone
    ensures Counts(Stored(db, w), t)
  {
    if t == w.task {
      WrittenTaskCounts(db, w);
    } else {
      assert Counts(db, t);
      OtherTaskCounts(db, w, t);
    }
  }

  lemma StoredCounts(db: Database, w: TrafficWrite, gone: set<Id>)
    requires CountsBut(db, {}) && Fits(db, w, gone)
    ensures CountsBut(Stored(db, w), gone)
  {
    var after := Stored(db, w);
    forall t | t in after.tasks && t !in gone ensures Counts(after, t) {
      StoredTaskCounts(db, w, gone, t);
    }
    forall t | t in gone ensures RecordsOf(after, t) == {} && Unlinked(after, t) {
      StoredRecords(db, w, t);
      assert Unlinked(after, t) == Unlinked(db, t);
    }
  }

  lemma StoredSound(db: Database, w: TrafficWrite, gone: set<Id>)
    requires Sound(db) && Fits(db, w, gone)
    ensures SoundBut(Stored(db, w), gone)
  {
    StoredSearch(db, w);
    StoredSequences(db, w);
    StoredCounts(db, w, gone);
  }

  // ----- Storing the links

  /** Only links changed, and those that did name this task. */
  ghost predicate Relinked(db: Database, after: Database, task: Id) {
    && after == db.(responseLinks := after.responseLinks, contextLinks := after.contextLinks)
    && (forall k {:trigger after.responseLinks[k]} :: k in after.responseLinks ==>
         after.responseLinks[k] == task || (k in db.responseLinks && db.responseLinks[k] == after.responseLinks[k]))
    && (forall k {:trigger after.contextLinks[k]} :: k in after.contextLinks ==>
         after.contextLinks[k] == task || (k in db.contextLinks && db.contextLinks[k] == after.contextLinks[k]))
  }

  lemma RelinkedCounts(db: Database, after: Database, task: Id, gone: set<Id>)
    requires CountsBut(db, gone) && task in db.tasks && task !in gone && !db.tasks[task].pending
    requires Relinked(db, after, task)
    ensures CountsBut(after, gone)
  {
    forall t ensures RecordsOf(after, t) == RecordsOf(db, t) && (t != task && Unlinked(db, t) ==> Unlinked(after, t)) {
    }
    forall t | t in after.tasks && t !in gone ensures Counts(after, t) {
      assert Counts(db, t);
    }
  }

  lemma RelinkedKeeps(db: Database, after: Database, task: Id, gone: set<Id>)
    requires SoundBut(db, gone) && task in db.tasks && task !in gone && !db.tasks[task].pending
    requires Relinked(db, after, task)
    ensures SoundBut(after, gone)
  {
    RelinkedCounts(db, after, task, gone);
    assert Placed(after);
    assert DistinctSequences(after);
    assert LinksHeld(after);
    assert Searchable(after);
  }

  lemma {:induction false} ResponsesKeep(db: Database, links: seq<Link>, task: Id, gone: set<Id>)
    requires SoundBut(db, gone) && task in db.tasks && task !in gone && !db.tasks[task].pending
    requires forall i {:trigger links[i]} :: 0 <= i < |links| ==> links[i].task == task
    ensures LinkResponses(db, links).Ok? && SoundBut(LinkResponses(db, links).value, gone)
    ensures LinkResponses(db, links).value == db.(responseLinks := LinkResponses(db, links).value.responseLinks)
  {
    if links != [] {
      var before := links[..|links| - 1];
      ResponsesKeep(db, before, task, gone);
      var middle := LinkResponses(db, before).value;
      RelinkedKeeps(middle, LinkResponse(middle, links[|links| - 1]).value, task, gone);
    }
  }

  lemma {:induction false} ContextsKeep(db: Database, links: seq<Link>, task: Id, gone: set<Id>)
    requires SoundBut(db, gone) && task in db.tasks && task !in gone && !db.tasks[task].pending
    requires forall i {:trigger links[i]} :: 0 <= i < |links| ==> links[i].task == task
    ensures LinkContexts(db, links).Ok? && SoundBut(LinkContexts(db, links).value, gone)
    ensures LinkContexts(db, links).value == db.(contextLinks := LinkContexts(db, links).value.contextLinks)
  {
    if links != [] {
      var before := links[..|links| - 1];
      ContextsKeep(db, before, task, gone);
      var middle := LinkContexts(db, before).value;
      RelinkedKeeps(middle, LinkContext(middle, links[|links| - 1]).value, task, gone);
    }
  }

  // ----- One commit

  /** What a commit stores besides links: one record in one task; only a superseded task goes. */
  ghost predicate Committed(db: Database, after: Database, w: TrafficWrite) {
    && after.records == db.records[w.recordId := w.record]
    && after.tasks == UpsertTask(db, w.task, w.row).tasks - Selected(w.superseded)
  }

  lemma CommitKeeps(db: Database, w: TrafficWrite, gone: set<Id>)
    requires Sound(db) && Fits(db, w, gone)
    ensures var r := WriteTraffic(db, w);
            r.Ok? && Sound(r.value) && Committed(db, r.value, w)
  {
    StoreSucceeds(db, w);
    StoredSound(db, w, gone);
    CommitLinked(Stored(db, w), w, gone);
  }

  /** From the stored record on: the links, and then the superseded tasks. */
  lemma CommitLinked(stored: Database, w: TrafficWrite, gone: set<Id>)
    requires SoundBut(stored, gone) && FitsLinks(w) && Selected(w.superseded) == gone
    requires w.task in stored.tasks && w.task !in gone && stored.tasks[w.task].pending == w.row.pending
    requires w.row.pending ==> w.responseLinks == [] && w.contextLinks == []
    ensures LinkResponses(stored, w.responseLinks).Ok?
    ensures LinkContexts(LinkResponses(stored, w.responseLinks).value, w.contextLinks).Ok?
    ensures var linked := LinkContexts(LinkResponses(stored, w.responseLinks).value, w.contextLinks).value;
            var after := RemoveTasks(linked, w.superseded);
            Sound(after) && after.records == stored.records && after.tasks == stored.tasks - gone
  {
    if w.row.pending {
      HollowRemoved(stored, w.superseded, gone);
    } else {
      LinksKeep(stored, w.responseLinks, w.contextLinks, w.task, gone);
      HollowRemoved(Linked(stored, w.responseLinks, w.contextLinks), w.superseded, gone);
    }
  }

  lemma HollowRemoved(db: Database, ids: seq<Id>, gone: set<Id>)
    requires SoundBut(db, gone) && Selected(ids) == gone
    ensures Sound(RemoveTasks(db, ids)) && RemoveTasks(db, ids) == db.(tasks := db.tasks - gone)
  {
    RemoveKeeps(db, ids, gone);
    RemoveHollow(db, ids, gone);
  }

  /** The log with both kinds of links stored, when they can be. */
  function Linked(db: Database, responses: seq<Link>, contexts: seq<Link>): Database {
    match LinkResponses(db, responses)
    case Failed => db
    case Ok(answered) =>
      match LinkContexts(answered, contexts)
      case Failed => db
      case Ok(linked) => linked
  }

  lemma LinksKeep(db: Database, responses: seq<Link>, contexts: seq<Link>, task: Id, gone: set<Id>)
    requires SoundBut(db, gone) && task in db.tasks && task !in gone && !db.tasks[task].pending
    requires forall i {:trigger responses[i]} :: 0 <= i < |responses| ==> responses[i].task == task
    requires forall i {:trigger contexts[i]} :: 0 <= i < |contexts| ==> contexts[i].task == task
    ensures LinkResponses(db, responses).Ok?
      && LinkContexts(LinkResponses(db, responses).value, contexts) == Ok(Linked(db, responses, contexts))
    ensures SoundBut(Linked(db, responses, contexts), gone)
    ensures Linked(db, responses, contexts).tasks == db.tasks && Linked(db, responses, contexts).records == db.records
  {
    ResponsesKeep(db, responses, task, gone);
    ContextsKeep(LinkResponses(db, responses).value, contexts, task, gone);
  }

  // ----- When a commit fails

  /** Some link with a key that is not blank names a task that is not there. */
  ghost predicate Dangling(links: seq<Link>, tasks: set<Id>) {
    exists i :: 0 <= i < |links| && !Blank(links[i].key) && links[i].task !in tasks
  }

  lemma {:induction false} LinksFail(db: Database, links: seq<Link>)
    ensures LinkResponses(db, links).Failed? <==> Dangling(links, db.tasks.Keys)
    ensures LinkContexts(db, links).Failed? <==> Dangling(links, db.tasks.Keys)
    ensures LinkResponses(db, links).Ok? ==> LinkResponses(db, links).value.tasks == db.tasks
    ensures LinkContexts(db, links).Ok? ==> LinkContexts(db, links).value.tasks == db.tasks
  {
    if links != [] {
      var less, last := links[..|links| - 1], links[|links| - 1];
      LinksFail(db, less);
      assert Dangling(links, db.tasks.Keys) <==>
             Dangling(less, db.tasks.Keys) || (!Blank(last.key) && last.task !in db.tasks) by {
        assert links[|links| - 1] == last && forall i :: 0 <= i < |less| ==> less[i] == links[i];
      }
    }
  }

  /** Another record of the task has the sequence already. */
  ghost predicate SequenceClash(db: Database, w: TrafficWrite) {
    exists r :: r in db.records && r != w.recordId && db.records[r].task == w.record.task
                && db.records[r].sequence == w.record.sequence
  }

  /** The next row number of the search map is that of an indexed document. */
  ghost predicate RowClash(db: Database, w: TrafficWrite) {
    w.recordId !in db.searchMap && After(Rowids(db)) in db.documents
  }

  /** For any database, a commit fails exactly for a record of a missing task, a sequence or a row number
      that is taken, or a link to a missing task. */
  lemma CommitFails(db: Database, w: TrafficWrite)
    ensures var tasks := db.tasks.Keys + {w.task};
            WriteTraffic(db, w).Failed? <==>
              || w.record.task !in tasks || SequenceClash(db, w) || RowClash(db, w)
              || Dangling(w.responseLinks, tasks) || Dangling(w.contextLinks, tasks)
  {
    var upserted := UpsertTask(db, w.task, w.row);
    assert upserted.tasks.Keys == db.tasks.Keys + {w.task};
    if recorded: Database :| UpsertRecord(upserted, w.recordId, w.record) == Ok(recorded) {
      assert Rowids(recorded) == Rowids(db);
      if synced: Database :| SyncRecord(recorded, w.recordId, w.record) == Ok(synced) {
        LinksFail(synced, w.responseLinks);
        if answered: Database :| LinkResponses(synced, w.responseLinks) == Ok(answered) {
          LinksFail(answered, w.contextLinks);
        }
      }
    }
  }
}
