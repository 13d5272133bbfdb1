/** The traffic log as the objects that hold and change it: a repository over one database, a
    matcher that reads it, and the service that stores events. */
module TrafficLog {
  import opened LogTables
  import opened LogMatching
  import opened LogSafety
  import opened LogRuns

  /** Remove indexed documents by row number, one after the other. */
  method DeleteRows(documents: map<int, Document>, rowids: set<int>) returns (kept: map<int, Document>)
    ensures kept == documents - rowids
  {
    kept := documents;
    var left := rowids;
    while left != {}
      invariant left <= rowids && kept == documents - (rowids - left)
      decreases left
    {
      assert (forall n :: n !in left) ==> left == {};
      var n :| n in left;
      kept := kept - {n};
      left := left - {n};
    }
  }

  class TrafficRepository {
    var database: Database

    constructor ()
      ensures database == EmptyDatabase && Sound(database)
    {
      database := EmptyDatabase;
    }

    /** Store one request in one commit: when a statement fails, nothing is stored. */
    method WriteTraffic(w: TrafficWrite) returns (ok: bool)
      modifies this
      ensures ok == LogTables.WriteTraffic(old(database), w).Ok?
      ensures database == if ok then LogTables.WriteTraffic(old(database), w).value else old(database)
    {
      var recorded := UpsertRecord(UpsertTask(database, w.task, w.row), w.recordId, w.record);
      if recorded.Failed? {
        return false;
      }
      var work := SyncRecord(recorded.value, w.recordId, w.record);
      if work.Failed? {
        return false;
      }
      work := LinkEachResponse(work.value, w.responseLinks);
      if work.Failed? {
        return false;
      }
      work := LinkEachContext(work.value, w.contextLinks);
      if work.Failed? {
        return false;
      }
      database := RemoveInside(work.value, w.superseded);
      return true;
    }

    static method LinkEachResponse(db: Database, links: seq<Link>) returns (r: Result<Database>)
      ensures r == LinkResponses(db, links)
    {
      r := Ok(db);
      for n := 0 to |links|
        invariant r == LinkResponses(db, links[..n])
      {
        assert links[..n + 1][..n] == links[..n];
        if r.Ok? {
          r := LinkResponse(r.value, links[n]);
        }
      }
      assert links[..|links|] == links;
    }

    static method LinkEachContext(db: Database, links: seq<Link>) returns (r: Result<Database>)
      ensures r == LinkContexts(db, links)
    {
      r := Ok(db);
      for n := 0 to |links|
        invariant r == LinkContexts(db, links[..n])
      {
        assert links[..n + 1][..n] == links[..n];
        if r.Ok? {
          r := LinkContext(r.value, links[n]);
        }
      }
      assert links[..|links|] == links;
    }

    /** The documents that map rows of these tasks point at go first, then the tasks with all that
        cascades from them; blank names are ignored. */
    static method RemoveInside(db: Database, ids: seq<Id>) returns (after: Database)
      ensures after == RemoveTasks(db, ids)
    {
      var selected := Selected(ids);
      if selected == {} {
        assert RemoveTasks(db, ids) == db by {
          assert RemoveTasks(db, ids).documents == db.documents;
        }
        return db;
      }
      var documents := DeleteRows(db.documents, RowidsForTasks(db, selected));
      return DeleteTasks(db.(documents := documents), selected);
    }

    method Remove(ids: seq<Id>)
      requires Sound(database)
      modifies this
      ensures database == RemoveTasks(old(database), ids) && Sound(database)
      ensures forall t :: t in database.tasks <==> t in old(database).tasks && !Dropped(ids, t)
      ensures forall t :: t in database.tasks ==> database.tasks[t] == old(database).tasks[t]
      ensures forall r :: r in database.records <==>
        r in old(database).records && !Dropped(ids, old(database).records[r].task)
      ensures forall r :: r in database.records ==> database.records[r] == old(database).records[r]
    {
      RemoveKeeps(database, ids, {});
      RemoveExactly(database, ids);
      database := RemoveInside(database, ids);
    }
  }

  class TaskMatcher {
    const repository: TrafficRepository
    const rules: Rules

    constructor (repository: TrafficRepository, rules: Rules)
      ensures this.repository == repository && this.rules == rules
    {
      this.repository := repository;
      this.rules := rules;
    }

    method ContextTask(e: Event) returns (found: Option<Found>)
      ensures found == TaskForContextKeys(rules, repository.database, e.contextKeys, e)
    {
      var db := repository.database;
      for n := 0 to |e.contextKeys|
        invariant TaskForContextKeys(rules, db, e.contextKeys, e) ==
          TaskForContextKeys(rules, db, e.contextKeys[n..], e)
      {
        found := LinkedTask(rules, db, db.contextLinks, e.contextKeys[n], e);
        assert e.contextKeys[n..][1..] == e.contextKeys[n + 1..];
        if found.Some? {
          return;
        }
      }
      return None;
    }

    method Continuation(e: Event, c: Call) returns (found: Option<Found>)
      requires Known(repository.database, c.recent)
      ensures found == ContinuationTask(rules, repository.database, e, c.nowMs, c.recent)
    {
      var db := repository.database;
      found := TaskForPreviousResponse(rules, db, e);
      if found.Some? {
        return;
      }
      found := ContextTask(e);
      if found.Some? || e.kind !in MODEL_TASK_KINDS {
        return;
      }
      var best := BestHeuristicTask(rules, db, e, c.nowMs, c.recent);
      if best.Some? {
        found := Some(Found(best.value, db.tasks[best.value].(confidence := 0.95)));
      }
    }

    /** What the finished request adds to its task. */
    method Updated(found: Found, e: Event, c: Call) returns (row: TaskRow)
      ensures row == UpdatedTask(rules, repository.database, found, e, c.now)
    {
      var db := repository.database;
      row := found.row.(pending := false, kind := e.kind, endpoint := e.path, profile := e.profile);
      var observedAt := LatestTimestamp(rules, c.now, [Some(found.row.lastSeenAt), Some(e.timestamp)]);
      row := row.(lastSeenAt := observedAt);
      if e.hasStatus || e.responseIds != [] {
        var respondedAt := LatestTimestamp(rules, c.now, [found.row.lastResponseAt, Some(e.timestamp)]);
        row := row.(lastResponseAt := Some(respondedAt));
      }
      if e.model.Some? && e.model.value != "" {
        row := row.(model := e.model);
      }
      var more := if e.id in db.records && db.records[e.id].task == found.id then 0 else 1;
      row := row.(requestCount := |RecordsOf(db, found.id)| + more);
    }

    method Assign(e: Event, c: Call) returns (a: Option<Assignment>)
      requires Known(repository.database, c.recent)
      ensures a == LogMatching.Assign(rules, repository.database, e, c)
    {
      var db := repository.database;
      if e.id == "" {
        return None;
      }
      if e.bodyPending {
        var task := PendingTask(rules, db, e, c);
        return Some(Assignment(task.id, task.row, SequenceForRecord(db, e.id, task.id), [], [], []));
      }
      var requestTask := ExistingTask(db, e.id);
      var continued: Option<Found> := None;
      if requestTask.None? || requestTask.value.row.pending {
        continued := Continuation(e, c);
      }
      var existing := if continued.Some? then continued else requestTask;
      var superseded: seq<Id> := [];
      if requestTask.Some? && requestTask.value.row.pending && continued.Some? {
        superseded := [requestTask.value.id];
      }
      var matched;
      if existing.None? {
        matched := NewTask(rules, e, c);
      } else if existing.value.row.pending {
        matched := existing.value.(row := PromotePending(existing.value.row, e));
      } else {
        matched := existing.value;
      }
      var row := Updated(matched, e, c);
      return Some(Assignment(matched.id, row, SequenceForRecord(db, e.id, matched.id), e.responseIds, e.contextKeys,
        superseded));
    }
  }

  class TrafficLogService {
    const repository: TrafficRepository
    const matcher: TaskMatcher

    constructor (rules: Rules)
      ensures fresh(repository) && repository.database == EmptyDatabase
      ensures matcher.repository == repository && matcher.rules == rules
    {
      var store := new TrafficRepository();
      repository := store;
      matcher := new TaskMatcher(store, rules);
    }

    /** Store one event. No write ever fails, and an orderly event keeps the log sound. */
    method Store(e: Event, c: Call) returns (ok: bool)
      requires matcher.repository == repository
      requires Sound(repository.database) && Given(repository.database, c)
      modifies repository
      ensures ok && Save(matcher.rules, old(repository.database), e, c) == Ok(repository.database)
      ensures Sound(repository.database) <==> old(Orderly(repository.database, e)) || e.id == ""
    {
      SaveKeeps(matcher.rules, repository.database, e, c);
      var a := matcher.Assign(e, c);
      if a.None? {
        return true;
      }
      ok := repository.WriteTraffic(WriteOf(e, a.value));
    }
  }
}
