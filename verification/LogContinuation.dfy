/** Which task a finished request joins, said of the rows and links of the log: the answer it names,
    then its context keys in order, then the closest recent task, then its own pending task, then a
    new one. */
module LogContinuation {
  import opened Whitespace
  import opened LogTables
  import opened LogMatching
  import opened LogSafety
  import opened LogRuns

  // ----- What the log says of one task

  /** The task may go on with the request: kind, endpoint, model and boundaries are the same. */
  ghost predicate Agrees(rules: Rules, row: TaskRow, e: Event, withUser: bool) {
    && row.kind == e.kind && row.model == e.model && (row.endpoint != "" ==> row.endpoint == e.path)
    && rules.boundariesMatch(row, e, withUser)
  }

  /** A link leads from the key to this task, and the task may go on with the request. */
  ghost predicate Leads(rules: Rules, db: Database, links: map<string, Id>, key: string, e: Event, task: Id) {
    key in links && links[key] == task && task in db.tasks && Agrees(rules, db.tasks[task], e, false)
  }

  /** The request answers a response of this task. */
  ghost predicate Answers(rules: Rules, db: Database, e: Event, task: Id) {
    && e.kind == "responses" && e.previousResponse.Some? && e.previousResponse.value != ""
    && Leads(rules, db, db.responseLinks, e.previousResponse.value, e, task)
  }

  /** It answers no response that the log knows of a task it may go on with. */
  ghost predicate Unanswered(rules: Rules, db: Database, e: Event) {
    forall t :: !Answers(rules, db, e, t)
  }

  /** Of the request's context keys the one at `i` leads to this task, and none before leads anywhere. */
  ghost predicate KeyedAt(rules: Rules, db: Database, e: Event, task: Id, i: nat) {
    && i < |e.contextKeys| && Leads(rules, db, db.contextLinks, e.contextKeys[i], e, task)
    && forall j, other :: 0 <= j < i ==> !Leads(rules, db, db.contextLinks, e.contextKeys[j], e, other)
  }

  ghost predicate Keyed(rules: Rules, db: Database, e: Event, task: Id) {
    exists i: nat :: KeyedAt(rules, db, e, task, i)
  }

  function Distance(a: int, b: int): nat {
    if a < b then b - a else a - b
  }

  /** The time of the request, or now when it has none. */
  function TimeOf(rules: Rules, e: Event, nowMs: int): int {
    match rules.parse(e.timestamp)
    case Some(t) => t
    case None => nowMs
  }

  /** The task was last seen this far from the request, within a day, and looks like its beginning. */
  ghost predicate Near(rules: Rules, row: TaskRow, e: Event, nowMs: int, age: int) {
    && Agrees(rules, row, e, true)
    && (e.kind in {"chat", "messages", "responses"} ==> rules.continues(row, e))
    && rules.parse(row.lastSeenAt).Some?
    && age == Distance(TimeOf(rules, e, nowMs), rules.parse(row.lastSeenAt).value)
    && age <= 86_400_000
  }

  /** Of the recent tasks the one at `i` is nearest, and the first of those as near. */
  ghost predicate NearestAt(rules: Rules, db: Database, e: Event, c: Call, i: nat, age: int)
    requires Known(db, c.recent)
  {
    && i < |c.recent| && Near(rules, db.tasks[c.recent[i]], e, c.nowMs, age)
    && forall j, other :: 0 <= j < |c.recent| && Near(rules, db.tasks[c.recent[j]], e, c.nowMs, other) ==>
         age < other || (age == other && i <= j)
  }

  ghost predicate Nearest(rules: Rules, db: Database, e: Event, c: Call, task: Id)
    requires Known(db, c.recent)
  {
    && e.kind in {"responses", "chat", "messages", "completions"}
    && exists i: nat, age :: NearestAt(rules, db, e, c, i, age) && c.recent[i] == task
  }

  /** The order of the evidence: the first kind that names a task decides. */
  ghost predicate Continues(rules: Rules, db: Database, e: Event, c: Call, task: Id)
    requires Known(db, c.recent)
  {
    || Answers(rules, db, e, task)
    || (Unanswered(rules, db, e) && Keyed(rules, db, e, task))
    || (Unanswered(rules, db, e) && (forall t :: !Keyed(rules, db, e, t)) && Nearest(rules, db, e, c, task))
  }

  /** The request's own task, when it is stored. */
  ghost predicate Own(db: Database, e: Event, task: Id) {
    e.id in db.records && db.records[e.id].task == task && task in db.tasks
  }

  // ----- The matcher finds it

  lemma AgreesIs(rules: Rules, row: TaskRow, e: Event, withUser: bool)
    ensures StaticBoundariesMatch(rules, row, e, withUser) <==> Agrees(rules, row, e, withUser)
  {
  }

  lemma LinkedIs(rules: Rules, db: Database, links: map<string, Id>, key: string, e: Event, task: Id)
    ensures LinkedTask(rules, db, links, key, e).Some? && LinkedTask(rules, db, links, key, e).value.id == task <==>
            Leads(rules, db, links, key, e, task)
    ensures LinkedTask(rules, db, links, key, e).Some? ==>
              LinkedTask(rules, db, links, key, e).value.row == db.tasks[links[key]]
  {
    if key in links && links[key] in db.tasks {
      AgreesIs(rules, db.tasks[links[key]], e, false);
    }
  }

  lemma AnsweredIs(rules: Rules, db: Database, e: Event, task: Id)
    ensures var found := TaskForPreviousResponse(rules, db, e);
            && (found.Some? && found.value.id == task <==> Answers(rules, db, e, task))
            && (found.Some? ==> found.value.id in db.tasks && found.value.row == db.tasks[found.value.id])
  {
    if e.previousResponse.Some? {
      LinkedIs(rules, db, db.responseLinks, e.previousResponse.value, e, task);
    }
  }

  /** The keys from `n` on, none before having led anywhere. */
  lemma {:induction false} KeyedIs(rules: Rules, db: Database, e: Event, n: nat, task: Id)
    requires n <= |e.contextKeys|
    requires forall j, other :: 0 <= j < n ==> !Leads(rules, db, db.contextLinks, e.contextKeys[j], e, other)
    ensures var found := TaskForContextKeys(rules, db, e.contextKeys[n..], e);
            && (found.Some? && found.value.id == task <==> Keyed(rules, db, e, task))
            && (found.Some? ==> found.value.id in db.tasks && found.value.row == db.tasks[found.value.id])
    decreases |e.contextKeys| - n
  {
    if n < |e.contextKeys| {
      var found := LinkedTask(rules, db, db.contextLinks, e.contextKeys[n], e);
      assert e.contextKeys[n..][0] == e.contextKeys[n] && e.contextKeys[n..][1..] == e.contextKeys[n + 1..];
      if found.Some? {
        FirstKey(rules, db, e, n, found.value.id, task);
      } else {
        forall other ensures !Leads(rules, db, db.contextLinks, e.contextKeys[n], e, other) {
          LinkedIs(rules, db, db.contextLinks, e.contextKeys[n], e, other);
        }
        KeyedIs(rules, db, e, n + 1, task);
      }
    }
  }

  /** The first key that leads anywhere decides. */
  lemma FirstKey(rules: Rules, db: Database, e: Event, n: nat, found: Id, task: Id)
    requires n < |e.contextKeys| && LinkedTask(rules, db, db.contextLinks, e.contextKeys[n], e).Some?
    requires LinkedTask(rules, db, db.contextLinks, e.contextKeys[n], e).value.id == found
    requires forall j, other :: 0 <= j < n ==> !Leads(rules, db, db.contextLinks, e.contextKeys[j], e, other)
    ensures found == task <==> Keyed(rules, db, e, task)
    ensures found in db.tasks
    ensures LinkedTask(rules, db, db.contextLinks, e.contextKeys[n], e).value.row == db.tasks[found]
  {
    LinkedIs(rules, db, db.contextLinks, e.contextKeys[n], e, found);
    assert KeyedAt(rules, db, e, found, n);
    if Keyed(rules, db, e, task) {
      var i: nat :| KeyedAt(rules, db, e, task, i);
      assert i == n;
    }
  }

  lemma NearIs(rules: Rules, row: TaskRow, e: Event, nowMs: int, age: int)
    ensures CandidateAge(rules, row, e, nowMs) == Some(age) <==> Near(rules, row, e, nowMs, age)
  {
    AgreesIs(rules, row, e, true);
  }

  /** The best of a listing is its nearest task, and the first of those. */
  lemma {:induction false} BestIsFirst(rules: Rules, db: Database, e: Event, nowMs: int, listing: seq<Id>)
    requires Known(db, listing)
    ensures var best := BestOf(rules, db, e, nowMs, listing);
            && (best.None? ==>
                  forall j :: 0 <= j < |listing| ==> CandidateAge(rules, db.tasks[listing[j]], e, nowMs).None?)
            && (best.Some? ==> exists i: nat :: FirstBest(rules, db, e, nowMs, listing, best.value, i))
  {
    if listing != [] {
      var n := |listing| - 1;
      var less, last := listing[..n], listing[n];
      BestIsFirst(rules, db, e, nowMs, less);
      var best, before := BestOf(rules, db, e, nowMs, listing), BestOf(rules, db, e, nowMs, less);
      if before.Some? {
        var i: nat :| FirstBest(rules, db, e, nowMs, less, before.value, i);
        BestStep(rules, db, e, nowMs, listing, before.value, i);
      } else if best.Some? {
        assert FirstBest(rules, db, e, nowMs, listing, last, n);
      }
    }
  }

  ghost predicate FirstBest(rules: Rules, db: Database, e: Event, nowMs: int, listing: seq<Id>, best: Id, i: nat)
    requires Known(db, listing)
  {
    && i < |listing| && listing[i] == best && CandidateAge(rules, db.tasks[best], e, nowMs).Some?
    && var age := CandidateAge(rules, db.tasks[best], e, nowMs).value;
       forall j :: 0 <= j < |listing| ==> Beats(age, i, CandidateAge(rules, db.tasks[listing[j]], e, nowMs), j)
  }

  /** At place `i` nothing is as near as this: the other is further, or as far and not before it. */
  ghost predicate Beats(age: int, i: int, other: Option<int>, j: int) {
    other.Some? ==> age < other.value || (age == other.value && i <= j)
  }

  /** The candidate before is as near as the last one, or the last one is nearer. */
  lemma BestStep(rules: Rules, db: Database, e: Event, nowMs: int, listing: seq<Id>, before: Id, i: nat)
    requires Known(db, listing) && listing != []
    requires FirstBest(rules, db, e, nowMs, listing[..|listing| - 1], before, i)
    requires BestOf(rules, db, e, nowMs, listing[..|listing| - 1]) == Some(before)
    ensures var best, n := BestOf(rules, db, e, nowMs, listing), |listing| - 1;
            best.Some? && exists k: nat :: FirstBest(rules, db, e, nowMs, listing, best.value, k)
  {
    var n := |listing| - 1;
    var age, last := CandidateAge(rules, db.tasks[before], e, nowMs).value,
      CandidateAge(rules, db.tasks[listing[n]], e, nowMs);
    var k := if last.Some? && last.value < age then n else i;
    forall j | 0 <= j < |listing|
      ensures Beats(if k == n then last.value else age, k, CandidateAge(rules, db.tasks[listing[j]], e, nowMs), j)
    {
      if j < n {
        assert listing[..n][j] == listing[j];
      }
    }
    assert FirstBest(rules, db, e, nowMs, listing, listing[k], k);
  }

  lemma NearestIs(rules: Rules, db: Database, e: Event, c: Call, task: Id)
    requires Known(db, c.recent) && e.kind in MODEL_TASK_KINDS
    ensures BestOf(rules, db, e, c.nowMs, c.recent) == Some(task) <==> Nearest(rules, db, e, c, task)
  {
    var best := BestOf(rules, db, e, c.nowMs, c.recent);
    BestIsFirst(rules, db, e, c.nowMs, c.recent);
    forall j, age | 0 <= j < |c.recent|
      ensures CandidateAge(rules, db.tasks[c.recent[j]], e, c.nowMs) == Some(age) <==>
              Near(rules, db.tasks[c.recent[j]], e, c.nowMs, age)
    {
      NearIs(rules, db.tasks[c.recent[j]], e, c.nowMs, age);
    }
    if best.Some? {
      var i: nat :| FirstBest(rules, db, e, c.nowMs, c.recent, best.value, i);
      var age := CandidateAge(rules, db.tasks[best.value], e, c.nowMs).value;
      assert NearestAt(rules, db, e, c, i, age);
      if Nearest(rules, db, e, c, task) {
        var k: nat, other :| NearestAt(rules, db, e, c, k, other) && c.recent[k] == task;
        assert k == i;
      }
    }
  }

  /** The task to continue is the one that the log's rows and links name, and there is none exactly
      when they name none. */
  lemma ContinuesExactly(rules: Rules, db: Database, e: Event, c: Call, task: Id)
    requires Known(db, c.recent)
    ensures var found := ContinuationTask(rules, db, e, c.nowMs, c.recent);
            found.Some? && found.value.id == task <==> Continues(rules, db, e, c, task)
  {
    var answered, keyed := TaskForPreviousResponse(rules, db, e), TaskForContextKeys(rules, db, e.contextKeys, e);
    assert e.contextKeys[0..] == e.contextKeys;
    forall t ensures answered.Some? && answered.value.id == t <==> Answers(rules, db, e, t) {
      AnsweredIs(rules, db, e, t);
    }
    forall t ensures keyed.Some? && keyed.value.id == t <==> Keyed(rules, db, e, t) {
      KeyedIs(rules, db, e, 0, t);
    }
    if answered.Some? {
      assert Answers(rules, db, e, answered.value.id);
    } else if keyed.Some? {
      assert Keyed(rules, db, e, keyed.value.id);
    } else if e.kind in MODEL_TASK_KINDS {
      NearestIs(rules, db, e, c, task);
    }
  }

  // ----- Where a finished request goes

  /** Where the request goes when it is not settled already: the task that the log names, else its own
      pending one, else a new one. */
  ghost predicate Goes(rules: Rules, db: Database, e: Event, c: Call, task: Id)
    requires Known(db, c.recent)
  {
    || Continues(rules, db, e, c, task)
    || ((forall t :: !Continues(rules, db, e, c, t)) &&
        task == if e.id in db.records then db.records[e.id].task else c.newId)
  }

  lemma GoesIs(rules: Rules, db: Database, e: Event, c: Call)
    requires Sound(db) && Given(db, c)
    ensures var found := ContinuationTask(rules, db, e, c.nowMs, c.recent);
            && (found.Some? <==> exists t :: Continues(rules, db, e, c, t))
            && forall t :: Goes(rules, db, e, c, t) <==>
                 t == if found.Some? then found.value.id
                      else if e.id in db.records then db.records[e.id].task else c.newId
  {
    var found := ContinuationTask(rules, db, e, c.nowMs, c.recent);
    forall t ensures found.Some? && found.value.id == t <==> Continues(rules, db, e, c, t) {
      ContinuesExactly(rules, db, e, c, t);
    }
    if found.Some? {
      assert Continues(rules, db, e, c, found.value.id);
    }
  }

  /** A finished request of a settled record stays; any other goes where the log says, and its own
      pending task is superseded exactly when the log names another. It is written there. */
  lemma JoinsExactly(rules: Rules, db: Database, e: Event, c: Call)
    requires Sound(db) && Given(db, c) && e.id != "" && !e.bodyPending
    ensures var a := Assign(rules, db, e, c).value;
            if e.id in db.records && !db.tasks[db.records[e.id].task].pending
            then a.task == db.records[e.id].task && a.superseded == []
            else
              && (forall t :: Goes(rules, db, e, c, t) <==> a.task == t)
              && a.superseded == (if e.id in db.records && exists t :: Continues(rules, db, e, c, t)
                                  then [db.records[e.id].task] else [])
    ensures var a := Assign(rules, db, e, c).value;
            Save(rules, db, e, c).Ok? && e.id in Save(rules, db, e, c).value.records
            && Save(rules, db, e, c).value.records[e.id].task == a.task
  {
    SaveDoes(rules, db, e, c);
    GoesIs(rules, db, e, c);
    ContinuationStands(rules, db, e, c);
    if e.id in db.records {
      OwnTask(db, e.id);
    }
  }

  // ----- A link stored with one request leads the next one

  ghost predicate Names(links: seq<Link>, key: string) {
    exists i :: 0 <= i < |links| && links[i].key == key
  }

  /** The links with those of some keys, which all lead to this task; blank keys are not linked. */
  ghost predicate Linked(before: map<string, Id>, after: map<string, Id>, keys: set<string>, task: Id) {
    forall k ::
      && (k in after <==> k in before || (k in keys && !Blank(k)))
      && (k in after ==> after[k] == if k in keys && !Blank(k) then task else before[k])
  }

  ghost function KeysOf(links: seq<Link>): set<string> {
    set link | link in links :: link.key
  }

  lemma LinkedMore(before: map<string, Id>, between: map<string, Id>, keys: set<string>, key: string, task: Id)
    requires Linked(before, between, keys, task)
    ensures Linked(before, if Blank(key) then between else between[key := task], keys + {key}, task)
  {
  }

  lemma KeysMore(links: seq<Link>)
    requires links != []
    ensures KeysOf(links) == KeysOf(links[..|links| - 1]) + {links[|links| - 1].key}
  {
    assert links == links[..|links| - 1] + [links[|links| - 1]];
  }

  lemma {:induction false} ResponsesLinked(db: Database, links: seq<Link>, task: Id)
    requires forall i :: 0 <= i < |links| ==> links[i].task == task
    ensures LinkResponses(db, links).Ok? ==>
              var after := LinkResponses(db, links).value;
              Linked(db.responseLinks, after.responseLinks, KeysOf(links), task)
                && after.contextLinks == db.contextLinks
  {
    if links != [] {
      var less, key := links[..|links| - 1], links[|links| - 1].key;
      ResponsesLinked(db, less, task);
      KeysMore(links);
      if LinkResponses(db, links).Ok? {
        LinkedMore(db.responseLinks, LinkResponses(db, less).value.responseLinks, KeysOf(less), key, task);
      }
    }
  }

  lemma {:induction false} ContextsLinked(db: Database, links: seq<Link>, task: Id)
    requires forall i :: 0 <= i < |links| ==> links[i].task == task
    ensures LinkContexts(db, links).Ok? ==>
              var after := LinkContexts(db, links).value;
              Linked(db.contextLinks, after.contextLinks, KeysOf(links), task)
                && after.responseLinks == db.responseLinks
  {
    if links != [] {
      var less, key := links[..|links| - 1], links[|links| - 1].key;
      ContextsLinked(db, less, task);
      KeysMore(links);
      if LinkContexts(db, links).Ok? {
        LinkedMore(db.contextLinks, LinkContexts(db, less).value.contextLinks, KeysOf(less), key, task);
      }
    }
  }

  lemma KeysLinked(keys: seq<string>, task: Id)
    ensures forall i :: 0 <= i < |LinksTo(keys, task)| ==> LinksTo(keys, task)[i].task == task
    ensures KeysOf(LinksTo(keys, task)) == set k | k in keys
  {
    var links := LinksTo(keys, task);
    forall k | k in keys ensures k in KeysOf(links) {
      var i :| 0 <= i < |keys| && keys[i] == k;
      assert links[i] in links;
    }
  }

  /** Storing a finished request links exactly the response ids and context keys it brought, but blank
      ones, to its task; every other link stays. */
  lemma LinksStored(rules: Rules, db: Database, e: Event, c: Call)
    requires Sound(db) && Given(db, c) && e.id != "" && !e.bodyPending
    ensures Save(rules, db, e, c).Ok?
    ensures var task, after := Assign(rules, db, e, c).value.task, Save(rules, db, e, c).value;
            && Linked(db.responseLinks, after.responseLinks, (set k | k in e.responseIds), task)
            && Linked(db.contextLinks, after.contextLinks, (set k | k in e.contextKeys), task)
  {
    SaveDoes(rules, db, e, c);
    var a := Assign(rules, db, e, c).value;
    var w := WriteOf(e, a);
    var recorded := UpsertRecord(UpsertTask(db, w.task, w.row), w.recordId, w.record).value;
    var synced := SyncRecord(recorded, w.recordId, w.record).value;
    var answered := LinkResponses(synced, w.responseLinks).value;
    var linked := LinkContexts(answered, w.contextLinks).value;
    KeysLinked(e.responseIds, a.task);
    KeysLinked(e.contextKeys, a.task);
    ResponsesLinked(synced, w.responseLinks, a.task);
    ContextsLinked(answered, w.contextLinks, a.task);
    SupersededAlone(rules, db, e, c, w);
    LinksSurvive(db, linked, w, a.task);
  }

  /** Removing the superseded task takes no link: it had none, and none was written to it. */
  lemma LinksSurvive(db: Database, linked: Database, w: TrafficWrite, task: Id)
    requires w.task == task && FitsGone(db, w, set t | t in w.superseded)
    requires exists keys :: Linked(db.responseLinks, linked.responseLinks, keys, task)
    requires exists keys :: Linked(db.contextLinks, linked.contextLinks, keys, task)
    ensures RemoveTasks(linked, w.superseded).responseLinks == linked.responseLinks
    ensures RemoveTasks(linked, w.superseded).contextLinks == linked.contextLinks
  {
  }

  /** The two requests of a round trip: the first is stored, and the next is a new one. */
  ghost predicate InTurn(rules: Rules, db: Database, first: Event, c: Call, next: Event, d: Call) {
    && Sound(db) && Given(db, c) && first.id != "" && !first.bodyPending
    && (Save(rules, db, first, c).Ok? ==> Given(Save(rules, db, first, c).value, d))
    && next.id != "" && next.id != first.id && next.id !in db.records && !next.bodyPending
  }

  /** The database after the first of the two. */
  function After(rules: Rules, db: Database, first: Event, c: Call): Database
    requires Known(db, c.recent)
  {
    var saved := Save(rules, db, first, c);
    if saved.Ok? then saved.value else db
  }

  /** Both requests stand in one task. */
  ghost predicate Together(rules: Rules, after: Database, next: Event, d: Call, first: Id, task: Id)
    requires Known(after, d.recent)
  {
    var both := Save(rules, after, next, d);
    && both.Ok? && next.id in both.value.records && both.value.records[next.id].task == task
    && first in both.value.records && both.value.records[first].task == task
  }

  /** Round trip: a request that answers a response stored with an earlier one, and agrees with that
      task, joins it. */
  lemma AnswerJoins(rules: Rules, db: Database, first: Event, c: Call, next: Event, d: Call)
    requires InTurn(rules, db, first, c, next, d)
    requires next.kind == "responses" && next.previousResponse.Some? && !Blank(next.previousResponse.value)
    requires next.previousResponse.value in first.responseIds
    ensures Save(rules, db, first, c).Ok?
    ensures var after, task := After(rules, db, first, c), Assign(rules, db, first, c).value.task;
            && Sound(after) && task in after.tasks
            && (Agrees(rules, after.tasks[task], next, false) ==> Together(rules, after, next, d, first.id, task))
  {
    var task := Assign(rules, db, first, c).value.task;
    var after := StoredFirst(rules, db, first, c, next);
    LinksStored(rules, db, first, c);
    if Agrees(rules, after.tasks[task], next, false) {
      assert Answers(rules, after, next, task);
      NextJoins(rules, after, next, d, first.id, task);
    }
  }

  /** The same for a context key, when the request answers no stored response. */
  lemma ContextJoins(rules: Rules, db: Database, first: Event, c: Call, next: Event, d: Call)
    requires InTurn(rules, db, first, c, next, d)
    requires next.contextKeys != [] && next.contextKeys[0] in first.contextKeys && !Blank(next.contextKeys[0])
    requires Unanswered(rules, After(rules, db, first, c), next)
    ensures Save(rules, db, first, c).Ok?
    ensures var after, task := After(rules, db, first, c), Assign(rules, db, first, c).value.task;
            && Sound(after) && task in after.tasks
            && (Agrees(rules, after.tasks[task], next, false) ==> Together(rules, after, next, d, first.id, task))
  {
    var task := Assign(rules, db, first, c).value.task;
    var after := StoredFirst(rules, db, first, c, next);
    LinksStored(rules, db, first, c);
    ContextLeads(rules, after, next, d, first.id, task);
  }

  lemma ContextLeads(rules: Rules, after: Database, next: Event, d: Call, first: Id, task: Id)
    requires Sound(after) && Given(after, d) && next.id != "" && !next.bodyPending && next.id !in after.records
    requires first in after.records && after.records[first].task == task && first != next.id && task in after.tasks
    requires next.contextKeys != [] && Unanswered(rules, after, next)
    requires next.contextKeys[0] in after.contextLinks && after.contextLinks[next.contextKeys[0]] == task
    ensures Agrees(rules, after.tasks[task], next, false) ==> Together(rules, after, next, d, first, task)
  {
    if Agrees(rules, after.tasks[task], next, false) {
      FirstKeyLeads(rules, after, next, d, task);
      NextJoins(rules, after, next, d, first, task);
    }
  }

  lemma FirstKeyLeads(rules: Rules, db: Database, e: Event, c: Call, task: Id)
    requires Known(db, c.recent) && e.contextKeys != [] && Unanswered(rules, db, e)
    requires Leads(rules, db, db.contextLinks, e.contextKeys[0], e, task)
    ensures Continues(rules, db, e, c, task)
  {
    assert KeyedAt(rules, db, e, task, 0);
  }

  lemma NextJoins(rules: Rules, after: Database, next: Event, d: Call, first: Id, task: Id)
    requires Sound(after) && Given(after, d) && next.id != "" && !next.bodyPending && next.id !in after.records
    requires first in after.records && after.records[first].task == task && first != next.id
    requires Continues(rules, after, next, d, task)
    ensures Together(rules, after, next, d, first, task)
  {
    GoesThere(rules, after, next, d, task);
    BothStand(rules, after, next, d, first, task);
  }

  lemma GoesThere(rules: Rules, db: Database, e: Event, c: Call, task: Id)
    requires Sound(db) && Given(db, c) && e.id != "" && !e.bodyPending && e.id !in db.records
    requires Continues(rules, db, e, c, task)
    ensures Save(rules, db, e, c).Ok? && e.id in Save(rules, db, e, c).value.records
    ensures Save(rules, db, e, c).value.records[e.id].task == task
  {
    JoinsExactly(rules, db, e, c);
    assert Goes(rules, db, e, c, task);
  }

  lemma StoredFirst(rules: Rules, db: Database, first: Event, c: Call, next: Event) returns (after: Database)
    requires Sound(db) && Given(db, c) && first.id != "" && !first.bodyPending
    requires next.id != first.id && next.id !in db.records
    ensures Save(rules, db, first, c) == Ok(after) && Sound(after) && next.id !in after.records
    ensures var task := Assign(rules, db, first, c).value.task;
            task in after.tasks && first.id in after.records && after.records[first.id].task == task
            && !after.tasks[task].pending
  {
    OrderlyKeeps(rules, db, first, c);
    after := Save(rules, db, first, c).value;
  }

  /** A record of a settled task stays where it is when another one is stored. */
  lemma BothStand(rules: Rules, db: Database, e: Event, c: Call, record: Id, task: Id)
    requires Sound(db) && Given(db, c) && e.id != "" && record != e.id
    requires record in db.records && db.records[record].task == task
    ensures Save(rules, db, e, c).Ok?
    ensures record in Save(rules, db, e, c).value.records && Save(rules, db, e, c).value.records[record].task == task
  {
    SaveDoes(rules, db, e, c);
  }
}
