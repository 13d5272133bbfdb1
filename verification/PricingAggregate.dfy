/** The cost of a task: its requests added up, in total and by price group. */
module PricingAggregate {
  import opened Decimals
  import opened Money
  import opened RequestPricing

  /** A stored request as the aggregation reads it. */
  datatype Row = Row(
    finished: bool,
    durationMs: real,
    startedMs: Option<real>,
    status: Status,
    reason: Option<string>,
    billingModel: Option<string>,
    cost: Option<int>,
    price: Option<UnitPrice>,
    algorithmVersion: Option<int>,
    usage: Option<Buckets>)

  /** The requests that are added up together; its text form names a group. */
  datatype GroupKey = GroupKey(billingModel: Option<string>, algorithmVersion: Option<int>, price: UnitPrice)

  /** What is added up for priced requests: how many, their stored cost, tokens and exact products. */
  datatype Tally = Tally(count: int, cost: int, tokens: Buckets, products: Buckets) {
    function Plus(other: Tally): Tally {
      Tally(count + other.count, cost + other.cost, tokens.Plus(other.tokens), products.Plus(other.products))
    }
  }

  const NoTally := Tally(0, 0, NoBuckets, NoBuckets)

  /** When the finished requests ran. */
  datatype Times = Times(activeMs: real, firstStartMs: Option<real>, lastEndMs: Option<real>)

  datatype Summary = Summary(
    times: Times,
    priced: Tally,
    unpricedCount: int,
    pendingCount: int,
    unpricedReasons: map<string, int>,
    groups: map<GroupKey, Tally>)

  const NoSummary := Summary(Times(0.0, None, None), NoTally, 0, 0, map[], map[])

  // ----- One row

  predicate Chargeable(row: Row) {
    row.status == Priced && row.cost.Some? && row.price.Some? && row.usage.Some?
  }

  /** Adding the row fails: its stored usage and price give no cost. */
  predicate Throws(row: Row) {
    Chargeable(row) && CalculateCost(row.usage.value, row.price.value).Err?
  }

  function KeyOf(row: Row): GroupKey
    requires Chargeable(row)
  {
    GroupKey(row.billingModel, row.algorithmVersion, row.price.value)
  }

  function TallyOf(row: Row): Tally
    requires Chargeable(row) && !Throws(row)
  {
    Tally(1, row.cost.value, row.usage.value, CalculateCost(row.usage.value, row.price.value).value.breakdown)
  }

  /** Why a row that is neither pending nor charged is unpriced. */
  function ReasonOf(row: Row): string {
    if row.status == Priced then "invalid_pricing_record"
    else if row.reason.Some? then row.reason.value else "unknown"
  }

  function Earlier(a: Option<real>, b: real): Option<real> {
    if a.None? || b < a.value then Some(b) else a
  }

  function Later(a: Option<real>, b: real): Option<real> {
    if a.None? || b > a.value then Some(b) else a
  }

  function Timed(t: Times, row: Row): Times {
    if !row.finished then t
    else if row.startedMs.None? then t.(activeMs := t.activeMs + row.durationMs)
    else
      Times(t.activeMs + row.durationMs,
            Earlier(t.firstStartMs, row.startedMs.value),
            Later(t.lastEndMs, row.startedMs.value + row.durationMs))
  }

  function WithTime(s: Summary, row: Row): Summary {
    s.(times := Timed(s.times, row))
  }

  function AtKey(groups: map<GroupKey, Tally>, key: GroupKey): Tally {
    if key in groups then groups[key] else NoTally
  }

  function AtReason(reasons: map<string, int>, reason: string): int {
    if reason in reasons then reasons[reason] else 0
  }

  function WithCharge(s: Summary, row: Row): Summary
    requires !Throws(row)
  {
    if row.status == Pending then s.(pendingCount := s.pendingCount + 1)
    else if Chargeable(row) then
      s.(priced := s.priced.Plus(TallyOf(row)),
         groups := Grouped(s.groups, KeyOf(row), TallyOf(row)))
    else
      s.(unpricedCount := s.unpricedCount + 1,
         unpricedReasons := Counted(s.unpricedReasons, ReasonOf(row)))
  }

  function Added(s: Summary, row: Row): Summary
    requires !Throws(row)
  {
    WithCharge(WithTime(s, row), row)
  }

  predicate AllCount(rows: seq<Row>) {
    forall row :: row in rows ==> !Throws(row)
  }

  function Summarized(rows: seq<Row>): Summary
    requires AllCount(rows)
  {
    if rows == [] then NoSummary
    else Added(Summarized(rows[..|rows| - 1]), rows[|rows| - 1])
  }

  // ----- The order of rows does not matter

  lemma TimesCommute(s: Summary, a: Row, b: Row)
    ensures WithTime(WithTime(s, a), b) == WithTime(WithTime(s, b), a)
  {
  }

  function Grouped(groups: map<GroupKey, Tally>, key: GroupKey, more: Tally): map<GroupKey, Tally> {
    groups[key := AtKey(groups, key).Plus(more)]
  }

  function Counted(reasons: map<string, int>, reason: string): map<string, int> {
    reasons[reason := AtReason(reasons, reason) + 1]
  }

  lemma GroupedCommute(groups: map<GroupKey, Tally>, k: GroupKey, t: Tally, l: GroupKey, u: Tally)
    ensures Grouped(Grouped(groups, k, t), l, u) == Grouped(Grouped(groups, l, u), k, t)
  {
    if k == l {
      TallyCommute(AtKey(groups, k), t, u);
    } else {
      ApartCommute(groups, k, AtKey(groups, k).Plus(t), l, AtKey(groups, l).Plus(u));
    }
  }

  lemma TallyCommute(a: Tally, t: Tally, u: Tally)
    ensures a.Plus(t).Plus(u) == a.Plus(u).Plus(t)
  {
  }

  lemma ApartCommute(groups: map<GroupKey, Tally>, k: GroupKey, t: Tally, l: GroupKey, u: Tally)
    requires k != l
    ensures groups[k := t][l := u] == groups[l := u][k := t]
  {
  }

  lemma CountedCommute(reasons: map<string, int>, a: string, b: string)
    ensures Counted(Counted(reasons, a), b) == Counted(Counted(reasons, b), a)
  {
    assert Counted(Counted(reasons, a), b) == Counted(Counted(reasons, b), a);
  }

  lemma ChargesCommute(s: Summary, a: Row, b: Row)
    requires !Throws(a) && !Throws(b)
    ensures WithCharge(WithCharge(s, a), b) == WithCharge(WithCharge(s, b), a)
  {
    if a.status != Pending && b.status != Pending {
      if Chargeable(a) && Chargeable(b) {
        var t, u := TallyOf(a), TallyOf(b);
        GroupedCommute(s.groups, KeyOf(a), t, KeyOf(b), u);
        PlusLaws(s.priced, t, u);
        PlusLaws(s.priced, u, t);
        PlusLaws(t, u, NoTally);
      } else if !Chargeable(a) && !Chargeable(b) {
        CountedCommute(s.unpricedReasons, ReasonOf(a), ReasonOf(b));
      }
    }
  }

  lemma TimeAndCharge(s: Summary, a: Row, b: Row)
    requires !Throws(b)
    ensures WithTime(WithCharge(s, b), a) == WithCharge(WithTime(s, a), b)
  {
  }

  lemma AddedCommute(s: Summary, a: Row, b: Row)
    requires !Throws(a) && !Throws(b)
    ensures Added(Added(s, a), b) == Added(Added(s, b), a)
  {
    TimeAndCharge(WithTime(s, a), b, a);
    TimeAndCharge(WithTime(s, b), a, b);
    TimesCommute(s, a, b);
    ChargesCommute(WithTime(WithTime(s, a), b), a, b);
  }

  function Without(rows: seq<Row>, i: nat): seq<Row>
    requires i < |rows|
  {
    rows[..i] + rows[i + 1..]
  }

  /** Any row may be added last. */
  lemma {:induction false} AddLast(rows: seq<Row>, i: nat)
    requires AllCount(rows) && i < |rows|
    ensures AllCount(Without(rows, i)) && Summarized(rows) == Added(Summarized(Without(rows, i)), rows[i])
  {
    var n := |rows| - 1;
    var less := rows[..n];
    if i == n {
      assert Without(rows, i) == less;
    } else {
      AddLast(less, i);
      assert Without(rows, i)[..n - 1] == Without(less, i) && Without(rows, i)[n - 1] == rows[n];
      assert Without(rows, i) == Without(less, i) + [rows[n]];
      AddedCommute(Summarized(Without(less, i)), rows[i], rows[n]);
    }
  }

  /** The summary is that of the rows as a bag. */
  lemma {:induction false} OrderIrrelevant(a: seq<Row>, b: seq<Row>)
    requires multiset(a) == multiset(b) && AllCount(a)
    ensures AllCount(b) && Summarized(a) == Summarized(b)
    decreases |a|
  {
    forall row | row in b ensures row in a {
      assert row in multiset(a);
    }
    if a == [] {
      assert |multiset(b)| == 0;
    } else {
      var n := |a| - 1;
      var i := FoundLast(a, b);
      AddLast(b, i);
      OrderIrrelevant(a[..n], Without(b, i));
    }
  }

  /** Where the last row of one listing stands in another of the same rows. */
  lemma FoundLast(a: seq<Row>, b: seq<Row>) returns (i: nat)
    requires multiset(a) == multiset(b) && a != []
    ensures i < |b| && b[i] == a[|a| - 1]
    ensures multiset(Without(b, i)) == multiset(a[..|a| - 1])
  {
    var n := |a| - 1;
    assert a[n] in multiset(b);
    i :| i < |b| && b[i] == a[n];
    TakenOut(a, n);
    TakenOut(b, i);
    assert Without(a, n) == a[..n];
  }

  lemma TakenOut(rows: seq<Row>, i: nat)
    requires i < |rows|
    ensures multiset(Without(rows, i)) == multiset(rows) - multiset{rows[i]}
  {
    assert rows == rows[..i] + ([rows[i]] + rows[i + 1..]);
    assert multiset(rows) == multiset(rows[..i]) + (multiset{rows[i]} + multiset(rows[i + 1..]));
  }

  // ----- The totals reconcile

  /** The sum of all groups, taken in any order. */
  ghost function GroupsTotal(groups: map<GroupKey, Tally>): Tally
    decreases |groups|
  {
    if groups == map[] then NoTally
    else
      var key :| key in groups;
      GroupsTotal(groups - {key}).Plus(groups[key])
  }

  lemma PlusLaws(a: Tally, b: Tally, c: Tally)
    ensures a.Plus(b) == b.Plus(a) && a.Plus(b).Plus(c) == a.Plus(b.Plus(c)) && a.Plus(NoTally) == a
  {
  }

  /** Any group may be taken out first. */
  lemma {:induction false} GroupsTotalBut(groups: map<GroupKey, Tally>, key: GroupKey)
    requires key in groups
    ensures GroupsTotal(groups) == GroupsTotal(groups - {key}).Plus(groups[key])
    decreases |groups|
  {
    var picked :| picked in groups && GroupsTotal(groups) == GroupsTotal(groups - {picked}).Plus(groups[picked]);
    if picked != key {
      GroupsTotalBut(groups - {picked}, key);
      GroupsTotalBut(groups - {key}, picked);
      assert groups - {picked} - {key} == groups - {key} - {picked};
      var rest := GroupsTotal(groups - {picked} - {key});
      PlusLaws(rest, groups[key], groups[picked]);
      PlusLaws(rest, groups[picked], groups[key]);
      PlusLaws(groups[key], groups[picked], rest);
    }
  }

  lemma GroupAdded(groups: map<GroupKey, Tally>, key: GroupKey, more: Tally)
    ensures GroupsTotal(Grouped(groups, key, more)) == GroupsTotal(groups).Plus(more)
  {
    var after := Grouped(groups, key, more);
    GroupsTotalBut(after, key);
    assert after - {key} == groups - {key};
    if key in groups {
      GroupsTotalBut(groups, key);
      PlusLaws(GroupsTotal(groups - {key}), groups[key], more);
    } else {
      assert groups - {key} == groups;
      PlusLaws(GroupsTotal(groups), NoTally, more);
      PlusLaws(more, NoTally, NoTally);
    }
  }

  ghost function ReasonsTotal(reasons: map<string, int>): int
    decreases |reasons|
  {
    if reasons == map[] then 0
    else
      var reason :| reason in reasons;
      ReasonsTotal(reasons - {reason}) + reasons[reason]
  }

  lemma {:induction false} ReasonsTotalBut(reasons: map<string, int>, reason: string)
    requires reason in reasons
    ensures ReasonsTotal(reasons) == ReasonsTotal(reasons - {reason}) + reasons[reason]
    decreases |reasons|
  {
    var picked :| picked in reasons && ReasonsTotal(reasons) == ReasonsTotal(reasons - {picked}) + reasons[picked];
    if picked != reason {
      ReasonsTotalBut(reasons - {picked}, reason);
      ReasonsTotalBut(reasons - {reason}, picked);
      assert reasons - {picked} - {reason} == reasons - {reason} - {picked};
    }
  }

  lemma ReasonAdded(reasons: map<string, int>, reason: string)
    ensures ReasonsTotal(Counted(reasons, reason)) == ReasonsTotal(reasons) + 1
  {
    var after := Counted(reasons, reason);
    ReasonsTotalBut(after, reason);
    assert after - {reason} == reasons - {reason};
    if reason in reasons {
      ReasonsTotalBut(reasons, reason);
    } else {
      assert reasons - {reason} == reasons;
    }
  }

  ghost predicate Reconciled(s: Summary, count: int) {
    && GroupsTotal(s.groups) == s.priced
    && ReasonsTotal(s.unpricedReasons) == s.unpricedCount
    && s.priced.count + s.unpricedCount + s.pendingCount == count
  }

  lemma ChargeReconciles(s: Summary, row: Row, count: int)
    requires !Throws(row) && Reconciled(s, count)
    ensures Reconciled(WithCharge(s, row), count + 1)
  {
    if row.status != Pending {
      if Chargeable(row) {
        GroupAdded(s.groups, KeyOf(row), TallyOf(row));
      } else {
        ReasonAdded(s.unpricedReasons, ReasonOf(row));
      }
    }
  }

  /** The groups add up to the total, the reasons to the unpriced, and everything to the rows. */
  lemma {:induction false} Reconciles(rows: seq<Row>)
    requires AllCount(rows)
    ensures Reconciled(Summarized(rows), |rows|)
  {
    if rows != [] {
      var less, row := rows[..|rows| - 1], rows[|rows| - 1];
      Reconciles(less);
      var s := WithTime(Summarized(less), row);
      assert Reconciled(s, |less|);
      ChargeReconciles(s, row, |less|);
    }
  }

  /** The charged rows of one group. */
  function OfGroup(rows: seq<Row>, key: GroupKey): seq<Row> {
    if rows == [] then []
    else
      var before, row := OfGroup(rows[..|rows| - 1], key), rows[|rows| - 1];
      if Chargeable(row) && KeyOf(row) == key then before + [row] else before
  }

  lemma {:induction false} OfGroupCounts(rows: seq<Row>, key: GroupKey)
    requires AllCount(rows)
    ensures AllCount(OfGroup(rows, key))
  {
    if rows != [] {
      OfGroupCounts(rows[..|rows| - 1], key);
    }
  }

  /** A group is the total of its own rows: no request is added to another group. */
  lemma {:induction false} GroupIsItsRows(rows: seq<Row>, key: GroupKey)
    requires AllCount(rows)
    ensures AllCount(OfGroup(rows, key)) && AtKey(Summarized(rows).groups, key) == Summarized(OfGroup(rows, key)).priced
  {
    OfGroupCounts(rows, key);
    if rows != [] {
      var less, row := rows[..|rows| - 1], rows[|rows| - 1];
      GroupIsItsRows(less, key);
      if Chargeable(row) && KeyOf(row) == key {
        var before := OfGroup(less, key);
        assert (before + [row])[..|before|] == before;
      }
    }
  }

  // ----- What the totals are, row by row

  function Charged(rows: seq<Row>): seq<Row> {
    if rows == [] then []
    else
      var before, row := Charged(rows[..|rows| - 1]), rows[|rows| - 1];
      var counts := row.status == Priced && row.cost.Some? && row.price.Some? && row.usage.Some?;
      if counts then before + [row] else before
  }

  function SumOf(rows: seq<Row>, value: Row -> int): int {
    if rows == [] then 0 else SumOf(rows[..|rows| - 1], value) + value(rows[|rows| - 1])
  }

  function Tokens(row: Row): Buckets {
    if row.usage.Some? then row.usage.value else NoBuckets
  }

  /** What one token count of a row costs at its own price. */
  function ChargeOf(row: Row, tokens: int, price: UnitPrice -> string): int {
    if row.price.Some? && Accepted(price(row.price.value), UNIT_PLACES) then Charge(tokens, price(row.price.value))
    else 0
  }

  /** The priced total is the charged rows, field by field: their number, their stored costs, their
      own tokens, and these at their own prices. */
  ghost predicate IsTotal(t: Tally, rows: seq<Row>) {
    && t.count == |rows|
    && t.cost == SumOf(rows, (row: Row) => if row.cost.Some? then row.cost.value else 0)
    && t.tokens.inputUncached == SumOf(rows, (row: Row) => Tokens(row).inputUncached)
    && t.tokens.output == SumOf(rows, (row: Row) => Tokens(row).output)
    && t.tokens.cacheRead == SumOf(rows, (row: Row) => Tokens(row).cacheRead)
    && t.tokens.cacheWrite == SumOf(rows, (row: Row) => Tokens(row).cacheWrite)
    && t.products.inputUncached ==
       SumOf(rows, (row: Row) => ChargeOf(row, Tokens(row).inputUncached, (p: UnitPrice) => p.input))
    && t.products.output == SumOf(rows, (row: Row) => ChargeOf(row, Tokens(row).output, (p: UnitPrice) => p.output))
    && t.products.cacheRead ==
       SumOf(rows, (row: Row) => ChargeOf(row, Tokens(row).cacheRead, (p: UnitPrice) => p.cacheRead))
    && t.products.cacheWrite ==
       SumOf(rows, (row: Row) => ChargeOf(row, Tokens(row).cacheWrite, (p: UnitPrice) => p.cacheWrite))
  }

  lemma TotalMore(t: Tally, rows: seq<Row>, row: Row)
    requires IsTotal(t, rows) && Chargeable(row) && !Throws(row)
    ensures IsTotal(t.Plus(TallyOf(row)), rows + [row])
  {
    CostItemized(row.usage.value, row.price.value);
    assert (rows + [row])[..|rows|] == rows;
  }

  lemma {:induction false} PricedIsRows(rows: seq<Row>)
    requires AllCount(rows)
    ensures IsTotal(Summarized(rows).priced, Charged(rows))
  {
    if rows != [] {
      var less, row := rows[..|rows| - 1], rows[|rows| - 1];
      PricedIsRows(less);
      assert row in rows;
      if Chargeable(row) {
        TotalMore(Summarized(less).priced, Charged(less), row);
      }
    }
  }

  function CountOf(rows: seq<Row>, test: Row -> bool): nat {
    if rows == [] then 0 else CountOf(rows[..|rows| - 1], test) + if test(rows[|rows| - 1]) then 1 else 0
  }

  /** The row is settled and cannot be charged, for this reason; one that says it is priced is invalid. */
  predicate UnpricedFor(row: Row, reason: string) {
    && row.status != Pending
    && !(row.status == Priced && row.cost.Some? && row.price.Some? && row.usage.Some?)
    && reason == (if row.status == Priced then "invalid_pricing_record"
                  else if row.reason.Some? then row.reason.value else "unknown")
  }

  /** Every reason counts its own rows, and the pending ones are counted apart. */
  lemma {:induction false} ReasonsAreRows(rows: seq<Row>, reason: string)
    requires AllCount(rows)
    ensures AtReason(Summarized(rows).unpricedReasons, reason) == CountOf(rows, (row: Row) => UnpricedFor(row, reason))
    ensures Summarized(rows).pendingCount == CountOf(rows, (row: Row) => row.status == Pending)
  {
    if rows != [] {
      ReasonsAreRows(rows[..|rows| - 1], reason);
    }
  }

  /** The finished rows with a start. */
  ghost predicate Ran(row: Row) {
    row.finished && row.startedMs.Some?
  }

  ghost predicate EarliestOf(first: Option<real>, rows: seq<Row>) {
    && (first.None? <==> forall row :: row in rows ==> !Ran(row))
    && (first.Some? ==> (exists row :: row in rows && Ran(row) && row.startedMs == first)
                        && forall row :: row in rows && Ran(row) ==> first.value <= row.startedMs.value)
  }

  ghost predicate LatestEndOf(last: Option<real>, rows: seq<Row>) {
    && (last.None? <==> forall row :: row in rows ==> !Ran(row))
    && (last.Some? ==> (exists row :: row in rows && Ran(row) && row.startedMs.value + row.durationMs == last.value)
                       && forall row :: row in rows && Ran(row) ==> row.startedMs.value + row.durationMs <= last.value)
  }

  function ActiveOf(rows: seq<Row>): real {
    if rows == [] then 0.0
    else ActiveOf(rows[..|rows| - 1]) + if rows[|rows| - 1].finished then rows[|rows| - 1].durationMs else 0.0
  }

  /** The times of a task: the durations of its finished rows, its first start and its last end. */
  lemma {:induction false} TimesAreRows(rows: seq<Row>)
    requires AllCount(rows)
    ensures var t := Summarized(rows).times;
            t.activeMs == ActiveOf(rows) && EarliestOf(t.firstStartMs, rows) && LatestEndOf(t.lastEndMs, rows)
  {
    if rows != [] {
      var less, row := rows[..|rows| - 1], rows[|rows| - 1];
      TimesAreRows(less);
      var before := Summarized(less).times;
      EarliestMore(before, less, row);
      LatestMore(before, less, row);
      assert rows == less + [row];
      assert Summarized(rows).times == Timed(before, row);
    }
  }

  lemma RanMore(less: seq<Row>, row: Row)
    ensures forall r :: r in less + [row] <==> r in less || r == row
    ensures (forall r :: r in less + [row] ==> !Ran(r)) <==> (forall r :: r in less ==> !Ran(r)) && !Ran(row)
  {
    assert row in less + [row];
    forall r | r in less ensures r in less + [row] {
    }
  }

  lemma EarliestMore(t: Times, less: seq<Row>, row: Row)
    requires EarliestOf(t.firstStartMs, less)
    ensures EarliestOf(Timed(t, row).firstStartMs, less + [row])
  {
    RanMore(less, row);
  }

  lemma LatestMore(t: Times, less: seq<Row>, row: Row)
    requires LatestEndOf(t.lastEndMs, less)
    ensures LatestEndOf(Timed(t, row).lastEndMs, less + [row])
  {
    RanMore(less, row);
  }

  // ----- The stored cost against the exact one

  /** The row's stored cost is the one its usage and price give, as a completed pricing has it. */
  predicate SelfConsistent(row: Row) {
    Chargeable(row) ==>
      CalculateCost(row.usage.value, row.price.value).Ok?
        && row.cost.value == CalculateCost(row.usage.value, row.price.value).value.nano
  }

  /** A stored pricing block as a row of its task. */
  function RowOf(p: Pricing, finished: bool, durationMs: real, startedMs: Option<real>): Row {
    Row(finished, durationMs, startedMs, p.status, p.reason, p.billingModel, p.cost,
        if p.snapshot.Some? then Some(p.snapshot.value.price) else None,
        if p.snapshot.Some? then Some(p.snapshot.value.algorithmVersion) else None,
        if p.usage.Some? then Some(p.usage.value.buckets) else None)
  }

  /** Rows written by the pricing of one frozen context each are self-consistent and add up. */
  lemma RunRowsCount(c: Context, steps: seq<RowStep>, finished: bool, durationMs: real, startedMs: Option<real>)
    requires RowRun(c, steps).Some?
    ensures var row := RowOf(RowRun(c, steps).value, finished, durationMs, startedMs);
            && SelfConsistent(row) && !Throws(row) && (row.status == Priced <==> Chargeable(row))
            && var p := RowRun(c, steps).value;
               && row.status == p.status && row.reason == p.reason && row.billingModel == p.billingModel
               && row.cost == p.cost && row.finished == finished && row.durationMs == durationMs
               && row.startedMs == startedMs
               && (p.snapshot.Some? ==>
                     && row.price == Some(p.snapshot.value.price)
                     && row.algorithmVersion == Some(p.snapshot.value.algorithmVersion))
               && (p.usage.Some? ==> row.usage == Some(p.usage.value.buckets))
  {
    RunConsistent(c, steps);
  }

  lemma RowRounded(row: Row)
    requires Chargeable(row) && SelfConsistent(row)
    ensures !Throws(row)
    ensures var t := TallyOf(row); -500_000_000 < t.cost * NANO_PER_UNIT - t.products.Total() <= 500_000_000
  {
    CostRounded(row.usage.value, row.price.value);
  }

  /** The stored cost is within half a nanoyuan per priced request of the exact products. */
  lemma {:induction false} CostWithinBound(rows: seq<Row>)
    requires forall row :: row in rows ==> SelfConsistent(row)
    ensures AllCount(rows)
    ensures var priced := Summarized(rows).priced;
            -500_000_000 * priced.count <= priced.cost * NANO_PER_UNIT - priced.products.Total()
              <= 500_000_000 * priced.count
  {
    if rows != [] {
      var less, row := rows[..|rows| - 1], rows[|rows| - 1];
      CostWithinBound(less);
      assert row in rows;
      if row.status != Pending && Chargeable(row) {
        RowRounded(row);
      }
    }
  }

  // ----- The loop

  /** A task's aggregate while rows are added to it. */
  class TaskAggregate {
    var summary: Summary
    ghost var rows: seq<Row>

    constructor ()
      ensures Valid() && rows == []
    {
      summary, rows := NoSummary, [];
    }

    ghost predicate Valid()
      reads this
    {
      AllCount(rows) && summary == Summarized(rows)
    }

    method AddPricingRow(row: Row) returns (ok: bool)
      requires Valid()
      modifies this
      ensures ok <==> !Throws(row)
      ensures ok ==> Valid() && rows == old(rows) + [row]
    {
      ghost var before := rows;
      rows := before + [row];
      assert rows[..|before|] == before;
      summary := WithTime(summary, row);
      if row.status == Pending {
        summary := summary.(pendingCount := summary.pendingCount + 1);
        return true;
      }
      if row.status != Priced || row.cost.None? || row.price.None? || row.usage.None? {
        var reason := ReasonOf(row);
        summary := summary.(unpricedCount := summary.unpricedCount + 1,
                            unpricedReasons :=
                              summary.unpricedReasons[reason := AtReason(summary.unpricedReasons, reason) + 1]);
        return true;
      }
      var calculated := CalculateCost(row.usage.value, row.price.value);
      if calculated.Err? {
        return false;
      }
      var tally := Tally(1, row.cost.value, row.usage.value, calculated.value.breakdown);
      var key := GroupKey(row.billingModel, row.algorithmVersion, row.price.value);
      summary := summary.(priced := summary.priced.Plus(tally),
                          groups := summary.groups[key := AtKey(summary.groups, key).Plus(tally)]);
      return true;
    }
  }

  datatype BucketText = BucketText(tokens: int, amount: string)

  /** The four buckets as they are printed. */
  datatype Breakdown = Breakdown(input: BucketText, output: BucketText, cacheRead: BucketText, cacheWrite: BucketText)

  datatype GroupReport = GroupReport(requestCount: int, cost: int, breakdown: Breakdown)

  datatype Report = Report(
    cost: Option<int>, totalMs: Option<real>, breakdown: Breakdown, groups: map<GroupKey, GroupReport>)

  const PRODUCT_PLACES: nat := 18

  function BucketOf(tokens: int, product: int): Result<BucketText> {
    var amount :- DecimalString(product, Pow10(PRODUCT_PLACES));
    Ok(BucketText(tokens, amount))
  }

  function BreakdownOf(t: Tally): Result<Breakdown> {
    var input :- BucketOf(t.tokens.inputUncached, t.products.inputUncached);
    var output :- BucketOf(t.tokens.output, t.products.output);
    var cacheRead :- BucketOf(t.tokens.cacheRead, t.products.cacheRead);
    var cacheWrite :- BucketOf(t.tokens.cacheWrite, t.products.cacheWrite);
    Ok(Breakdown(input, output, cacheRead, cacheWrite))
  }

  predicate GroupsPrint(groups: map<GroupKey, Tally>) {
    forall key :: key in groups ==> BreakdownOf(groups[key]).Ok?
  }

  function GroupReports(groups: map<GroupKey, Tally>): map<GroupKey, GroupReport>
    requires GroupsPrint(groups)
  {
    map key | key in groups :: GroupReport(groups[key].count, groups[key].cost, BreakdownOf(groups[key]).value)
  }

  /** The finished aggregate: amounts as exact decimal text, for the task and for every group. */
  function Finalized(s: Summary): Result<Report> {
    var breakdown :- BreakdownOf(s.priced);
    if !GroupsPrint(s.groups) then Err(BadScale)
    else
      var total := if s.times.firstStartMs.None? || s.times.lastEndMs.None? then None
                   else Some(if s.times.lastEndMs.value - s.times.firstStartMs.value < 0.0 then 0.0
                             else s.times.lastEndMs.value - s.times.firstStartMs.value);
      Ok(Report(if s.priced.count == 0 then None else Some(s.priced.cost), total, breakdown, GroupReports(s.groups)))
  }

  lemma TallyNonNegative(row: Row)
    requires Chargeable(row) && !Throws(row)
    ensures TallyOf(row).products.NonNegative() && TallyOf(row).tokens.NonNegative()
  {
    ProductsNonNegative(row.usage.value, row.price.value);
  }

  lemma SumNonNegative(a: Tally, b: Tally)
    requires a.products.NonNegative() && a.tokens.NonNegative() && b.products.NonNegative() && b.tokens.NonNegative()
    ensures a.Plus(b).products.NonNegative() && a.Plus(b).tokens.NonNegative()
  {
  }

  lemma {:induction false} ProductsAddUp(rows: seq<Row>)
    requires AllCount(rows)
    ensures Summarized(rows).priced.products.NonNegative() && Summarized(rows).priced.tokens.NonNegative()
  {
    if rows != [] {
      var less, row := rows[..|rows| - 1], rows[|rows| - 1];
      ProductsAddUp(less);
      assert row in rows;
      if row.status != Pending && Chargeable(row) {
        TallyNonNegative(row);
        SumNonNegative(Summarized(less).priced, TallyOf(row));
      }
    }
  }

  /** The printed amounts are the exact products, and the tokens are as counted. */
  ghost predicate PrintsExact(t: Tally, b: Breakdown) {
    && t.products.NonNegative()
    && b.input.tokens == t.tokens.inputUncached
    && ParseScaled(b.input.amount, PRODUCT_PLACES) == Ok(t.products.inputUncached)
    && b.output.tokens == t.tokens.output && ParseScaled(b.output.amount, PRODUCT_PLACES) == Ok(t.products.output)
    && b.cacheRead.tokens == t.tokens.cacheRead
    && ParseScaled(b.cacheRead.amount, PRODUCT_PLACES) == Ok(t.products.cacheRead)
    && b.cacheWrite.tokens == t.tokens.cacheWrite
    && ParseScaled(b.cacheWrite.amount, PRODUCT_PLACES) == Ok(t.products.cacheWrite)
  }

  lemma BucketReadsBack(tokens: int, product: nat)
    ensures BucketOf(tokens, product).Ok? && BucketOf(tokens, product).value.tokens == tokens
    ensures ParseScaled(BucketOf(tokens, product).value.amount, PRODUCT_PLACES) == Ok(product)
  {
    PrintThenRead(product, PRODUCT_PLACES);
  }

  lemma BreakdownReadsBack(t: Tally)
    requires t.products.NonNegative()
    ensures BreakdownOf(t).Ok? && PrintsExact(t, BreakdownOf(t).value)
  {
    BucketReadsBack(t.tokens.inputUncached, t.products.inputUncached);
    BucketReadsBack(t.tokens.output, t.products.output);
    BucketReadsBack(t.tokens.cacheRead, t.products.cacheRead);
    BucketReadsBack(t.tokens.cacheWrite, t.products.cacheWrite);
  }

  /** Finishing never fails; every amount it prints, of the task and of each group, reads back as the
      exact product, each group has its count and cost, and the task its cost, if any request was
      priced, and the time from its first start to its last end. */
  lemma ReportExact(rows: seq<Row>)
    requires AllCount(rows)
    ensures Finalized(Summarized(rows)).Ok?
    ensures var report, s := Finalized(Summarized(rows)).value, Summarized(rows);
            && PrintsExact(s.priced, report.breakdown)
            && report.cost == (if Charged(rows) == [] then None else Some(s.priced.cost))
            && (report.totalMs.Some? <==> s.times.firstStartMs.Some? && s.times.lastEndMs.Some?)
            && (report.totalMs.Some? ==>
                  && report.totalMs.value >= 0.0
                  && (s.times.firstStartMs.value <= s.times.lastEndMs.value ==>
                        s.times.firstStartMs.value + report.totalMs.value == s.times.lastEndMs.value)
                  && (s.times.firstStartMs.value > s.times.lastEndMs.value ==> report.totalMs.value == 0.0))
            && report.groups.Keys == s.groups.Keys
            && forall key :: key in s.groups ==>
                 && report.groups[key].requestCount == s.groups[key].count
                 && report.groups[key].cost == s.groups[key].cost
                 && PrintsExact(s.groups[key], report.groups[key].breakdown)
  {
    var s := Summarized(rows);
    ProductsAddUp(rows);
    PricedIsRows(rows);
    BreakdownReadsBack(s.priced);
    forall key | key in s.groups
      ensures BreakdownOf(s.groups[key]).Ok? && PrintsExact(s.groups[key], BreakdownOf(s.groups[key]).value)
    {
      GroupIsItsRows(rows, key);
      ProductsAddUp(OfGroup(rows, key));
      BreakdownReadsBack(s.groups[key]);
    }
  }
}
