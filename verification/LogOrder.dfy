/** Runs of the traffic log told by the order of their events: a request's body-pending events come
    before its finished ones. */
module LogOrder {
  import opened LogTables
  import opened LogMatching
  import opened LogSafety
  import opened LogRuns

  /** A request's finished event is followed by no body-pending event of the same request. */
  ghost predicate InOrder(ops: seq<Operation>) {
    forall i, j {:trigger ops[i], ops[j]} :: 0 <= i < j < |ops| && ops[i].StoreEvent? && ops[j].StoreEvent? ==>
      ops[i].event.id == ops[j].event.id && ops[j].event.bodyPending ==> ops[i].event.bodyPending
  }

  /** What the surroundings give an operation: a new task id, and a listing of settled tasks. */
  ghost predicate Supplied(db: Database, op: Operation) {
    op.StoreEvent? ==> Given(db, op.call)
  }

  /** The states that operations lead through, from an empty log. */
  ghost predicate Execution(rules: Rules, states: seq<Database>, ops: seq<Operation>) {
    && |states| == |ops| + 1 && states[0] == EmptyDatabase
    && forall i {:trigger ops[i]} :: 0 <= i < |ops| ==>
         Supplied(states[i], ops[i]) && Step(rules, states[i], ops[i]) == Ok(states[i + 1])
  }

  /** The request had a finished event among the first `n` operations. */
  ghost predicate Finished(ops: seq<Operation>, n: nat, record: Id) {
    exists i :: 0 <= i < n && i < |ops| && ops[i].StoreEvent? && ops[i].event.id == record && !ops[i].event.bodyPending
  }

  ghost predicate InSettledTask(db: Database, record: Id) {
    record in db.records && db.records[record].task in db.tasks && !db.tasks[db.records[record].task].pending
  }

  /** Only a finished event settles the task of a record, and only that of its own record. */
  lemma StoreSettles(rules: Rules, db: Database, e: Event, c: Call, record: Id)
    requires Sound(db) && Given(db, c) && Orderly(db, e) && e.id != ""
    requires Save(rules, db, e, c).Ok? && InSettledTask(Save(rules, db, e, c).value, record)
    ensures (record == e.id && !e.bodyPending) || InSettledTask(db, record)
  {
    OrderlyKeeps(rules, db, e, c);
    var a := Assign(rules, db, e, c).value;
    SavedSettles(db, Save(rules, db, e, c).value, e, a, Gone(rules, db, e, c), record);
    if record != e.id && db.records[record].task == a.task && !e.bodyPending {
      WrittenTask(rules, db, e, c, record);
    }
  }

  lemma SavedSettles(db: Database, after: Database, e: Event, a: Assignment, gone: set<Id>, record: Id)
    requires Saved(db, after, e, a, gone) && InSettledTask(after, record)
    ensures if record == e.id then !a.row.pending
            else
              && record in db.records
              && (InSettledTask(db, record) || (db.records[record].task == a.task && !a.row.pending))
  {
  }

  /** A finished event writes a task that was settled, or new, or had only its own record. */
  lemma WrittenTask(rules: Rules, db: Database, e: Event, c: Call, record: Id)
    requires Sound(db) && Given(db, c) && !e.bodyPending && e.id != "" && record != e.id && record in db.records
    requires db.records[record].task == MatchedTask(rules, db, e, c).id
    ensures InSettledTask(db, record)
  {
    ContinuationStands(rules, db, e, c);
    OwnTask(db, record);
    if e.id in db.records {
      OwnTask(db, e.id);
    }
  }

  lemma StepSettles(rules: Rules, db: Database, op: Operation, record: Id)
    requires Sound(db) && Admitted(db, op)
    requires Step(rules, db, op).Ok? && InSettledTask(Step(rules, db, op).value, record)
    ensures (op.StoreEvent? && op.event.id == record && !op.event.bodyPending) || InSettledTask(db, record)
  {
    if op.StoreEvent? && op.event.id != "" {
      StoreSettles(rules, db, op.event, op.call, record);
    }
  }

  /** Every record in a settled task had a finished event among the first `n` operations. */
  ghost predicate AllFinished(db: Database, ops: seq<Operation>, n: nat) {
    forall record {:trigger InSettledTask(db, record)} :: InSettledTask(db, record) ==> Finished(ops, n, record)
  }

  lemma FinishedLater(ops: seq<Operation>, n: nat, m: nat, record: Id)
    requires Finished(ops, n, record) && n <= m
    ensures Finished(ops, m, record)
  {
  }

  lemma StepFinished(rules: Rules, db: Database, ops: seq<Operation>, n: nat, after: Database)
    requires n < |ops| && Sound(db) && Admitted(db, ops[n]) && AllFinished(db, ops, n)
    requires Step(rules, db, ops[n]) == Ok(after)
    ensures AllFinished(after, ops, n + 1)
  {
    forall record | InSettledTask(after, record) ensures Finished(ops, n + 1, record) {
      StepSettles(rules, db, ops[n], record);
      if InSettledTask(db, record) {
        FinishedLater(ops, n, n + 1, record);
      }
    }
  }

  /** A body-pending event in its order comes before its request is settled. */
  lemma OrderAdmits(ops: seq<Operation>, db: Database, n: nat)
    requires InOrder(ops) && n < |ops| && Supplied(db, ops[n]) && AllFinished(db, ops, n)
    ensures Admitted(db, ops[n])
  {
    if ops[n].StoreEvent? && ops[n].event.bodyPending {
      assert !Finished(ops, n, ops[n].event.id);
      assert !InSettledTask(db, ops[n].event.id);
    }
  }

  /** At every point of an ordered execution the next operation is admitted. */
  lemma {:induction false} OrderKept(rules: Rules, states: seq<Database>, ops: seq<Operation>, n: nat)
    requires Execution(rules, states, ops) && InOrder(ops) && n < |states|
    ensures Sound(states[n]) && AllFinished(states[n], ops, n)
    ensures n < |ops| ==> Admitted(states[n], ops[n])
  {
    if n > 0 {
      OrderKept(rules, states, ops, n - 1);
      StepKeeps(rules, states[n - 1], ops[n - 1]);
      assert Step(rules, states[n - 1], ops[n - 1]) == Ok(states[n]);
      StepFinished(rules, states[n - 1], ops, n - 1, states[n]);
    }
    if n < |ops| {
      OrderAdmits(ops, states[n], n);
    }
  }

  /** Over every execution that stores each request's body-pending events before its finished ones,
      the log is sound throughout, and no operation that could come next fails. */
  lemma OrderedRunSound(rules: Rules, states: seq<Database>, ops: seq<Operation>, next: Operation)
    requires Execution(rules, states, ops) && InOrder(ops + [next]) && Supplied(states[|ops|], next)
    ensures Run(rules, states, ops) && forall n :: 0 <= n < |states| ==> Sound(states[n])
    ensures Step(rules, states[|ops|], next).Ok? && Sound(Step(rules, states[|ops|], next).value)
  {
    assert forall i :: 0 <= i < |ops| ==> (ops + [next])[i] == ops[i];
    forall n | 0 <= n < |ops| ensures Admitted(states[n], ops[n]) {
      OrderKept(rules, states, ops, n);
    }
    forall n | 0 <= n < |states| ensures Sound(states[n]) {
      RunSound(rules, states, ops, n);
    }
    OrderKept(rules, states, ops, |ops|);
    assert AllFinished(states[|ops|], ops + [next], |ops|) by {
      forall record | InSettledTask(states[|ops|], record) ensures Finished(ops + [next], |ops|, record) {
        var i :| 0 <= i < |ops| && ops[i].StoreEvent? && ops[i].event.id == record && !ops[i].event.bodyPending;
        assert (ops + [next])[i] == ops[i];
      }
    }
    OrderAdmits(ops + [next], states[|ops|], |ops|);
    StepKeeps(rules, states[|ops|], next);
  }

  /** Over a whole ordered execution: once a record is in a settled task it stays there under its
      sequence, for as long as no deletion names that task. */
  lemma {:induction false} SettledForLife(rules: Rules, states: seq<Database>, ops: seq<Operation>, m: nat, n: nat,
                                          record: Id, task: Id, sequence: int)
    requires Execution(rules, states, ops) && InOrder(ops) && m <= n < |states|
    requires Settled(states[m], record, task, sequence)
    requires forall i {:trigger ops[i]} :: m <= i < n && ops[i].Deletion? ==> task !in ops[i].ids
    ensures Settled(states[n], record, task, sequence)
  {
    if m < n {
      SettledForLife(rules, states, ops, m, n - 1, record, task, sequence);
      var before, op := states[n - 1], ops[n - 1];
      OrderKept(rules, states, ops, n - 1);
      assert Step(rules, before, op) == Ok(states[n]) && Admitted(before, op);
      if op.StoreEvent? {
        SettledStays(rules, before, op.event, op.call, record, task, sequence);
      }
    }
  }

  /** The order is needed: a finished event and then a body-pending event of the same request, in an
      empty log, are both stored and leave a task that counts one record too many. */
  lemma OutOfOrderBreaks(rules: Rules, finished: Event, first: Call, pending: Event, second: Call)
    requires finished.id != "" && pending.id == finished.id && !finished.bodyPending && pending.bodyPending
    requires Given(EmptyDatabase, first)
    requires Save(rules, EmptyDatabase, finished, first).Ok? ==>
      Given(Save(rules, EmptyDatabase, finished, first).value, second)
    ensures Save(rules, EmptyDatabase, finished, first).Ok?
    ensures var db := Save(rules, EmptyDatabase, finished, first).value;
            && Sound(db) && !Orderly(db, pending)
            && Save(rules, db, pending, second).Ok? && !Sound(Save(rules, db, pending, second).value)
  {
    assert Sound(EmptyDatabase);
    OrderlyKeeps(rules, EmptyDatabase, finished, first);
    var db := Save(rules, EmptyDatabase, finished, first).value;
    assert db.records[finished.id].task in db.tasks;
    SaveKeeps(rules, db, pending, second);
  }
}
