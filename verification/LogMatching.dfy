/** Which task a logged request belongs to. */
module LogMatching {
  import opened LogTables

  /** What the matcher reads of a traffic event. */
  datatype Event = Event(
    id: Id,
    bodyPending: bool,
    kind: string,
    path: string,
    startedTimestamp: string,
    timestamp: string,
    model: Option<string>,
    profile: Profile,
    previousResponse: Option<string>,
    contextKeys: seq<string>,
    responseIds: seq<string>,
    hasStatus: bool,
    text: string)

  /** Date parsing and the comparisons of what requests look like, as functions. */
  datatype Rules = Rules(
    parse: string -> Option<int>,
    boundariesMatch: (TaskRow, Event, bool) -> bool,
    continues: (TaskRow, Event) -> bool)

  datatype Found = Found(id: Id, row: TaskRow)

  datatype Assignment = Assignment(
    task: Id,
    row: TaskRow,
    sequence: int,
    responseIds: seq<string>,
    contextKeys: seq<string>,
    superseded: seq<Id>)

  const MODEL_TASK_KINDS: set<string> := {"responses", "chat", "messages", "completions"}
  const TASK_MATCH_WINDOW_MS: int := 24 * 60 * 60 * 1_000

  // ----- Timestamps

  /** The text kept after one more candidate: a later time wins, any time wins over no time. */
  function Later(rules: Rules, kept: string, candidate: string): string {
    if candidate == "" then kept
    else match rules.parse(candidate)
      case None => if rules.parse(kept).None? then candidate else kept
      case Some(t) => if rules.parse(kept).None? || t > rules.parse(kept).value then candidate else kept
  }

  function LatestOf(rules: Rules, fallback: string, values: seq<Option<string>>): string {
    if values == [] then fallback
    else
      var kept := LatestOf(rules, fallback, values[..|values| - 1]);
      match values[|values| - 1]
      case None => kept
      case Some(value) => Later(rules, kept, value)
  }

  /** The time of a text is at least the other's, when the other has one. */
  predicate AtLeast(rules: Rules, text: string, other: string) {
    rules.parse(other).Some? ==> rules.parse(text).Some? && rules.parse(text).value >= rules.parse(other).value
  }

  lemma {:induction false} LatestIsLast(rules: Rules, fallback: string, values: seq<Option<string>>)
    ensures var latest := LatestOf(rules, fallback, values);
            && AtLeast(rules, latest, fallback)
            && (forall i :: 0 <= i < |values| && values[i].Some? && values[i].value != "" ==>
                 AtLeast(rules, latest, values[i].value))
            && (latest == fallback || Some(latest) in values)
  {
    if values != [] {
      var before := values[..|values| - 1];
      LatestIsLast(rules, fallback, before);
      forall i | 0 <= i < |values| && values[i].Some? && values[i].value != ""
        ensures AtLeast(rules, LatestOf(rules, fallback, values), values[i].value)
      {
        if i < |before| {
          assert before[i] == values[i];
        }
      }
      assert forall v :: v in before ==> v in values;
      assert values[|values| - 1] in values;
    }
  }

  /** The texts to choose from, in order: what stands already and every value that is not empty. */
  function Choices(fallback: string, values: seq<Option<string>>): seq<string> {
    if values == [] then [fallback]
    else
      var last := values[|values| - 1];
      Choices(fallback, values[..|values| - 1]) + if last.Some? && |last.value| > 0 then [last.value] else []
  }

  /** Of these texts the one at `i` has the latest time, and is the first of those as late; when none
      has a time it is the last. */
  ghost predicate ChosenAt(rules: Rules, choices: seq<string>, i: nat) {
    && i < |choices|
    && match rules.parse(choices[i])
       case Some(t) =>
         forall j :: 0 <= j < |choices| && rules.parse(choices[j]).Some? ==>
           rules.parse(choices[j]).value < t || (rules.parse(choices[j]).value == t && i <= j)
       case None => i == |choices| - 1 && forall j :: 0 <= j < |choices| ==> rules.parse(choices[j]).None?
  }

  lemma {:induction false} LatestChosen(rules: Rules, fallback: string, values: seq<Option<string>>)
    ensures exists i: nat :: ChosenAt(rules, Choices(fallback, values), i)
                             && LatestOf(rules, fallback, values) == Choices(fallback, values)[i]
  {
    var choices := Choices(fallback, values);
    if values == [] {
      assert ChosenAt(rules, choices, 0);
    } else {
      var less := Choices(fallback, values[..|values| - 1]);
      LatestChosen(rules, fallback, values[..|values| - 1]);
      var i: nat :| ChosenAt(rules, less, i) && LatestOf(rules, fallback, values[..|values| - 1]) == less[i];
      if choices == less {
        assert ChosenAt(rules, choices, i);
      } else {
        ChosenMore(rules, less, i, choices[|less|]);
      }
    }
  }

  /** One text more is chosen when it is later, or when no text has a time. */
  lemma ChosenMore(rules: Rules, less: seq<string>, i: nat, text: string)
    requires ChosenAt(rules, less, i) && |text| > 0
    ensures exists k: nat :: ChosenAt(rules, less + [text], k) && (less + [text])[k] == Later(rules, less[i], text)
  {
    var choices, kept, time := less + [text], rules.parse(less[i]), rules.parse(text);
    assert forall j :: 0 <= j < |less| ==> choices[j] == less[j];
    var k: nat := if (time.None? && kept.None?) || (time.Some? && (kept.None? || time.value > kept.value))
      then |less| else i;
    assert ChosenAt(rules, choices, k) && choices[k] == Later(rules, less[i], text);
  }

  method LatestTimestamp(rules: Rules, fallback: string, values: seq<Option<string>>) returns (latestText: string)
    ensures latestText == LatestOf(rules, fallback, values)
  {
    latestText := fallback;
    var latestMs := rules.parse(fallback);
    for n := 0 to |values|
      invariant latestText == LatestOf(rules, fallback, values[..n]) && latestMs == rules.parse(latestText)
    {
      assert values[..n + 1][..n] == values[..n];
      if values[n].None? || values[n].value == "" {
        continue;
      }
      var milliseconds := rules.parse(values[n].value);
      if milliseconds.None? {
        if latestMs.None? {
          latestText := values[n].value;
        }
        continue;
      }
      if latestMs.None? || milliseconds.value > latestMs.value {
        latestText := values[n].value;
        latestMs := milliseconds;
      }
    }
    assert values[..|values|] == values;
  }

  // ----- Finding the task to continue

  function GetTask(db: Database, id: Id): Option<Found> {
    if id in db.tasks then Some(Found(id, db.tasks[id])) else None
  }

  function ExistingTask(db: Database, record: Id): Option<Found> {
    if record in db.records then GetTask(db, db.records[record].task) else None
  }

  /** Kind, endpoint, model and boundaries agree. */
  predicate StaticBoundariesMatch(rules: Rules, row: TaskRow, e: Event, includeUserBoundary: bool) {
    && row.kind == e.kind
    && (row.endpoint == "" || row.endpoint == e.path)
    && row.model == e.model
    && rules.boundariesMatch(row, e, includeUserBoundary)
  }

  function LinkedTask(rules: Rules, db: Database, links: map<string, Id>, key: string, e: Event): Option<Found> {
    if key !in links then None
    else
      var found := GetTask(db, links[key]);
      if found.Some? && StaticBoundariesMatch(rules, found.value.row, e, false) then found else None
  }

  function TaskForPreviousResponse(rules: Rules, db: Database, e: Event): Option<Found> {
    if e.kind != "responses" || e.previousResponse.None? || e.previousResponse.value == "" then None
    else LinkedTask(rules, db, db.responseLinks, e.previousResponse.value, e)
  }

  function TaskForContextKeys(rules: Rules, db: Database, keys: seq<string>, e: Event): Option<Found> {
    if keys == [] then None
    else
      var found := LinkedTask(rules, db, db.contextLinks, keys[0], e);
      if found.Some? then found else TaskForContextKeys(rules, db, keys[1..], e)
  }

  /** The recent listing: tasks that are not in flight. */
  predicate Recent(db: Database, listing: seq<Id>) {
    Known(db, listing) && forall id :: id in listing ==> !db.tasks[id].pending
  }

  predicate Known(db: Database, listing: seq<Id>) {
    forall id :: id in listing ==> id in db.tasks
  }

  /** How far the task is from the request, when the task is a candidate at all. */
  function CandidateAge(rules: Rules, row: TaskRow, e: Event, nowMs: int): Option<int> {
    var recordTime := if rules.parse(e.timestamp).Some? then rules.parse(e.timestamp).value else nowMs;
    if !StaticBoundariesMatch(rules, row, e, true) || rules.parse(row.lastSeenAt).None? then None
    else if e.kind in {"chat", "messages", "responses"} && !rules.continues(row, e) then None
    else
      var apart := recordTime - rules.parse(row.lastSeenAt).value;
      var age := if apart < 0 then -apart else apart;
      if age <= TASK_MATCH_WINDOW_MS then Some(age) else None
  }

  /** The best candidate of a listing: the youngest, and the first of those. */
  function BestOf(rules: Rules, db: Database, e: Event, nowMs: int, listing: seq<Id>): (best: Option<Id>)
    requires Known(db, listing)
    ensures best.Some? ==> best.value in listing && CandidateAge(rules, db.tasks[best.value], e, nowMs).Some?
  {
    if listing == [] then None
    else
      var last := listing[|listing| - 1];
      var best := BestOf(rules, db, e, nowMs, listing[..|listing| - 1]);
      var age := CandidateAge(rules, db.tasks[last], e, nowMs);
      if age.None? then best
      else if best.Some? && CandidateAge(rules, db.tasks[best.value], e, nowMs).value <= age.value then best
      else Some(last)
  }

  /** The best candidate is one of the listing's, and no candidate is closer in time. */
  lemma {:induction false} BestIsClosest(rules: Rules, db: Database, e: Event, nowMs: int, listing: seq<Id>)
    requires Known(db, listing)
    ensures var best := BestOf(rules, db, e, nowMs, listing);
            && (best.None? <==> forall id :: id in listing ==> CandidateAge(rules, db.tasks[id], e, nowMs).None?)
            && (best.Some? ==>
                  && best.value in listing
                  && CandidateAge(rules, db.tasks[best.value], e, nowMs).Some?
                  && forall id :: id in listing && CandidateAge(rules, db.tasks[id], e, nowMs).Some? ==>
                       CandidateAge(rules, db.tasks[best.value], e, nowMs).value <=
                       CandidateAge(rules, db.tasks[id], e, nowMs).value)
  {
    if listing != [] {
      var before, last := listing[..|listing| - 1], listing[|listing| - 1];
      assert listing == before + [last];
      assert forall id :: id in listing <==> id in before || id == last;
      BestIsClosest(rules, db, e, nowMs, before);
    }
  }

  method BestHeuristicTask(rules: Rules, db: Database, e: Event, nowMs: int, listing: seq<Id>)
    returns (best: Option<Id>)
    requires Known(db, listing)
    ensures best == BestOf(rules, db, e, nowMs, listing)
  {
    best := None;
    var bestAge: Option<int> := None;
    for n := 0 to |listing|
      invariant best == BestOf(rules, db, e, nowMs, listing[..n])
      invariant best.Some? <==> bestAge.Some?
      invariant best.Some? ==> best.value in db.tasks && CandidateAge(rules, db.tasks[best.value], e, nowMs) == bestAge
    {
      assert listing[..n + 1][..n] == listing[..n];
      var age := CandidateAge(rules, db.tasks[listing[n]], e, nowMs);
      if age.Some? && (bestAge.None? || age.value < bestAge.value) {
        best, bestAge := Some(listing[n]), age;
      }
    }
    assert listing[..|listing|] == listing;
  }

  function HeuristicTask(rules: Rules, db: Database, e: Event, nowMs: int, listing: seq<Id>): Option<Found>
    requires Known(db, listing)
  {
    match BestOf(rules, db, e, nowMs, listing)
    case None => None
    case Some(id) => Some(Found(id, db.tasks[id].(confidence := 0.95)))
  }

  function ContinuationTask(rules: Rules, db: Database, e: Event, nowMs: int, listing: seq<Id>): Option<Found>
    requires Known(db, listing)
  {
    var answered := TaskForPreviousResponse(rules, db, e);
    var keyed := TaskForContextKeys(rules, db, e.contextKeys, e);
    if answered.Some? then answered
    else if keyed.Some? then keyed
    else if e.kind in MODEL_TASK_KINDS then HeuristicTask(rules, db, e, nowMs, listing)
    else None
  }

  // ----- Building the assignment

  /** What one call reads besides the log: the time, a new id and the recent listing. */
  datatype Call = Call(now: string, nowMs: int, newId: Id, recent: seq<Id>)

  function SequenceForRecord(db: Database, record: Id, task: Id): int {
    if record in db.records && db.records[record].task == task then db.records[record].sequence
    else NextSequence(db, task)
  }

  function NewTask(rules: Rules, e: Event, c: Call): Found {
    Found(c.newId, TaskRow(
      kind := e.kind,
      endpoint := e.path,
      model := if e.model.Some? && e.model.value != "" then e.model else None,
      profile := e.profile,
      startedAt :=
        if e.startedTimestamp != "" then e.startedTimestamp else if e.timestamp != "" then e.timestamp else c.now,
      lastSeenAt := LatestOf(rules, c.now, [Some(e.timestamp)]),
      lastResponseAt := None,
      createdAt := c.now,
      requestCount := 0,
      pending := false,
      confidence := 1.0))
  }

  function PendingTask(rules: Rules, db: Database, e: Event, c: Call): Found {
    var existing := ExistingTask(db, e.id);
    if existing.Some? && existing.value.row.pending then existing.value
    else
      var created := NewTask(rules, e, c);
      created.(row := created.row.(pending := true, requestCount := 1))
  }

  function PromotePending(row: TaskRow, e: Event): TaskRow {
    row.(pending := false, kind := e.kind, endpoint := e.path, confidence := 1.0)
  }

  function UpdatedTask(rules: Rules, db: Database, found: Found, e: Event, now: string): TaskRow {
    var row := found.row;
    var hasResponse := e.hasStatus || e.responseIds != [];
    row.(
      pending := false,
      kind := e.kind,
      endpoint := e.path,
      lastSeenAt := LatestOf(rules, now, [Some(row.lastSeenAt), Some(e.timestamp)]),
      lastResponseAt :=
        if hasResponse then Some(LatestOf(rules, now, [row.lastResponseAt, Some(e.timestamp)]))
        else row.lastResponseAt,
      model := if e.model.Some? && e.model.value != "" then e.model else row.model,
      profile := e.profile,
      requestCount := |RecordsOf(db, found.id)|
        + if e.id in db.records && db.records[e.id].task == found.id then 0 else 1)
  }

  /** The task that a finished request goes to, before what it observed is added. */
  function MatchedTask(rules: Rules, db: Database, e: Event, c: Call): Found
    requires Known(db, c.recent)
  {
    var own := ExistingTask(db, e.id);
    if own.Some? && !own.value.row.pending then own.value
    else
      var continued := ContinuationTask(rules, db, e, c.nowMs, c.recent);
      var existing := if continued.Some? then continued else own;
      if existing.None? then NewTask(rules, e, c)
      else if existing.value.row.pending then existing.value.(row := PromotePending(existing.value.row, e))
      else existing.value
  }

  /** The pending task that a finished request leaves for one it continues. */
  function Superseded(rules: Rules, db: Database, e: Event, c: Call): seq<Id>
    requires Known(db, c.recent)
  {
    var own := ExistingTask(db, e.id);
    var continued := ContinuationTask(rules, db, e, c.nowMs, c.recent).Some?;
    if own.Some? && own.value.row.pending && continued then [own.value.id] else []
  }

  /** The task, the sequence and the links of one request; none for a request without an id. */
  function Assign(rules: Rules, db: Database, e: Event, c: Call): Option<Assignment>
    requires Known(db, c.recent)
  {
    if e.id == "" then None
    else if e.bodyPending then
      var task := PendingTask(rules, db, e, c);
      Some(Assignment(task.id, task.row, SequenceForRecord(db, e.id, task.id), [], [], []))
    else
      var matched := MatchedTask(rules, db, e, c);
      Some(Assignment(matched.id, UpdatedTask(rules, db, matched, e, c.now), SequenceForRecord(db, e.id, matched.id),
                      e.responseIds, e.contextKeys, Superseded(rules, db, e, c)))
  }

  function LinksTo(keys: seq<string>, task: Id): seq<Link> {
    seq(|keys|, i requires 0 <= i < |keys| => Link(keys[i], task))
  }

  function WriteOf(e: Event, a: Assignment): TrafficWrite {
    TrafficWrite(a.task, a.row, e.id, RecordRow(a.task, a.sequence, e.text), LinksTo(a.responseIds, a.task),
                 LinksTo(a.contextKeys, a.task), a.superseded)
  }

  /** Storing one event: nothing for an event without an id. */
  function Save(rules: Rules, db: Database, e: Event, c: Call): Result<Database>
    requires Known(db, c.recent)
  {
    match Assign(rules, db, e, c)
    case None => Ok(db)
    case Some(a) => WriteTraffic(db, WriteOf(e, a))
  }
}
