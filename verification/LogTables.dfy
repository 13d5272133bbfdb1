/** The tables of the traffic log as values, and the statements that change them. */
module LogTables {
  import opened Whitespace

  type Id = string

  datatype Option<+T> = None | Some(value: T)

  datatype Result<+T> = Ok(value: T) | Failed {
    predicate IsFailure() { Failed? }
    function PropagateFailure<U>(): Result<U>
      requires IsFailure()
    {
      Failed
    }
    function Extract(): T
      requires !IsFailure()
    {
      value
    }
  }

  /** What a request looked like: fingerprints, boundary fingerprints and user messages. */
  type Profile(==, !new) = string

  datatype TaskRow = TaskRow(
    kind: string,
    endpoint: string,
    model: Option<string>,
    profile: Profile,
    startedAt: string,
    lastSeenAt: string,
    lastResponseAt: Option<string>,
    createdAt: string,
    requestCount: int,
    pending: bool,
    confidence: real)

  datatype RecordRow = RecordRow(task: Id, sequence: int, text: string)

  /** A row of the search map; the record is its unique key. */
  datatype SearchEntry = SearchEntry(rowid: int, task: Id)

  /** A row of the full-text index. */
  datatype Document = Document(record: Id, task: Id, text: string)

  datatype Database = Database(
    tasks: map<Id, TaskRow>,
    records: map<Id, RecordRow>,
    responseLinks: map<string, Id>,
    contextLinks: map<string, Id>,
    searchMap: map<Id, SearchEntry>,
    documents: map<int, Document>)

  const EmptyDatabase := Database(map[], map[], map[], map[], map[], map[])

  datatype Link = Link(key: string, task: Id)

  /** One request to be stored. */
  datatype TrafficWrite = TrafficWrite(
    task: Id,
    row: TaskRow,
    recordId: Id,
    record: RecordRow,
    responseLinks: seq<Link>,
    contextLinks: seq<Link>,
    superseded: seq<Id>)

  // ----- Reads

  function RecordsOf(db: Database, task: Id): set<Id> {
    set r | r in db.records && db.records[r].task == task
  }

  predicate IsLargest(numbers: set<int>, m: int) {
    m in numbers && forall n :: n in numbers ==> n <= m
  }

  /** One number more: the larger of it and the largest so far. */
  lemma LargestOfMore(others: set<int>, pick: int, m: int)
    requires IsLargest(others, m)
    ensures IsLargest(others + {pick}, if pick > m then pick else m)
  {
  }

  lemma LargestExists(numbers: set<int>)
    requires numbers != {}
    ensures exists m :: IsLargest(numbers, m)
  {
    assert (forall n :: n !in numbers) ==> numbers == {};
    var pick :| pick in numbers;
    var others := numbers - {pick};
    assert numbers == others + {pick};
    if others == {} {
      assert IsLargest(numbers, pick);
    } else {
      LargestExists(others);
      var m :| IsLargest(others, m);
      LargestOfMore(others, pick, m);
    }
  }

  function Largest(numbers: set<int>): (m: int)
    requires numbers != {}
    ensures IsLargest(numbers, m)
  {
    LargestExists(numbers);
    var m :| m in numbers && IsLargest(numbers, m);
    m
  }

  function Sequences(db: Database, task: Id): set<int> {
    set r | r in db.records && db.records[r].task == task :: db.records[r].sequence
  }

  function Rowids(db: Database): set<int> {
    set r | r in db.searchMap :: db.searchMap[r].rowid
  }

  /** One more than the largest number, and one when there is none. */
  function After(numbers: set<int>): (n: int)
    ensures forall k :: k in numbers ==> k < n
    ensures if numbers == {} then n == 1 else n - 1 in numbers
  {
    if numbers == {} then 1 else Largest(numbers) + 1
  }

  /** Records of one task are counted on from its last. */
  function NextSequence(db: Database, task: Id): int {
    After(Sequences(db, task))
  }

  // ----- Statements

  /** Insert a task, or replace the stored one and keep when it was created. */
  function UpsertTask(db: Database, id: Id, row: TaskRow): Database {
    var created := if id in db.tasks then db.tasks[id].createdAt else row.createdAt;
    db.(tasks := db.tasks[id := row.(createdAt := created)])
  }

  /** A record of the same task that already has the sequence. */
  predicate Taken(db: Database, id: Id, record: RecordRow) {
    exists r :: r in db.records && r != id && db.records[r].task == record.task
      && db.records[r].sequence == record.sequence
  }

  /** Insert or replace a record; fails on a missing task and on a taken sequence. */
  function UpsertRecord(db: Database, id: Id, record: RecordRow): Result<Database> {
    if record.task !in db.tasks || Taken(db, id, record) then Failed
    else Ok(db.(records := db.records[id := record]))
  }

  /** Bring the search row of a record in step with it; fails on a row that is already indexed. */
  function SyncRecord(db: Database, id: Id, record: RecordRow): Result<Database> {
    var rowid := if id in db.searchMap then db.searchMap[id].rowid else After(Rowids(db));
    var kept := if id in db.searchMap then db.documents - {rowid} else db.documents;
    if id !in db.records || record.task !in db.tasks || rowid in kept then Failed
    else
      Ok(db.(searchMap := db.searchMap[id := SearchEntry(rowid, record.task)],
             documents := kept[rowid := Document(id, record.task, record.text)]))
  }

  function LinkResponse(db: Database, link: Link): Result<Database> {
    if Blank(link.key) then Ok(db)
    else if link.task !in db.tasks then Failed
    else Ok(db.(responseLinks := db.responseLinks[link.key := link.task]))
  }

  function LinkContext(db: Database, link: Link): Result<Database> {
    if Blank(link.key) then Ok(db)
    else if link.task !in db.tasks then Failed
    else Ok(db.(contextLinks := db.contextLinks[link.key := link.task]))
  }

  function Selected(ids: seq<Id>): set<Id> {
    set id | id in ids && !Blank(id)
  }

  /** The tables without these tasks: the foreign keys drop every row that refers to one. */
  function DeleteTasks(db: Database, gone: set<Id>): Database {
    Database(
      db.tasks - gone,
      map r | r in db.records && db.records[r].task !in gone :: db.records[r],
      map k | k in db.responseLinks && db.responseLinks[k] !in gone :: db.responseLinks[k],
      map k | k in db.contextLinks && db.contextLinks[k] !in gone :: db.contextLinks[k],
      map r | r in db.searchMap && db.searchMap[r].task !in gone && !(r in db.records && db.records[r].task in gone) ::
        db.searchMap[r],
      db.documents)
  }

  /** The documents that the map rows of these tasks name. */
  function RowidsForTasks(db: Database, tasks: set<Id>): set<int> {
    set r | r in db.searchMap && db.searchMap[r].task in tasks :: db.searchMap[r].rowid
  }

  /** Delete tasks with all that hangs on them, their indexed documents first. */
  function RemoveTasks(db: Database, ids: seq<Id>): Database {
    var gone := Selected(ids);
    DeleteTasks(db.(documents := db.documents - RowidsForTasks(db, gone)), gone)
  }

  function LinkResponses(db: Database, links: seq<Link>): Result<Database> {
    if links == [] then Ok(db)
    else
      var linked :- LinkResponses(db, links[..|links| - 1]);
      LinkResponse(linked, links[|links| - 1])
  }

  function LinkContexts(db: Database, links: seq<Link>): Result<Database> {
    if links == [] then Ok(db)
    else
      var linked :- LinkContexts(db, links[..|links| - 1]);
      LinkContext(linked, links[|links| - 1])
  }

  /** The statements of one commit, in order. */
  function WriteTraffic(db: Database, w: TrafficWrite): Result<Database> {
    var recorded :- UpsertRecord(UpsertTask(db, w.task, w.row), w.recordId, w.record);
    var synced :- SyncRecord(recorded, w.recordId, w.record);
    var answered :- LinkResponses(synced, w.responseLinks);
    var linked :- LinkContexts(answered, w.contextLinks);
    Ok(RemoveTasks(linked, w.superseded))
  }
}
