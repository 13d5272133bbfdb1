/** The merge of the groups of several log roots, newest first, and when its pages are right. */
module MergedPaging {
  import opened Timestamps
  import opened RowSorting

  const FETCH_LIMIT: nat := 500

  // ----- All roots

  function Concat(lists: seq<seq<Row>>): seq<Row> {
    if lists == [] then [] else Concat(lists[..|lists| - 1]) + lists[|lists| - 1]
  }

  /** The first rows of every root. */
  function Heads(lists: seq<seq<Row>>, n: nat): seq<seq<Row>> {
    seq(|lists|, i requires 0 <= i < |lists| => Take(lists[i], n))
  }

  /** No two groups have the same id, in one root or in two. */
  ghost predicate DistinctIds(lists: seq<seq<Row>>) {
    forall r: nat, s: nat, x, y {:trigger x in lists[r], y in lists[s]} ::
      r < |lists| && s < |lists| && x in lists[r] && y in lists[s] && x.id == y.id ==> r == s && x == y
  }

  /** Ids are keys: no two groups share one, and no root lists a group twice. */
  ghost predicate UniqueIds(lists: seq<seq<Row>>) {
    DistinctIds(lists) && forall r {:trigger lists[r]} :: 0 <= r < |lists| ==> NoRepeats(lists[r])
  }

  /** The root lists its groups by the text of their time, the largest first. */
  ghost predicate ByText(rows: seq<Row>) {
    forall i, j :: 0 <= i < j < |rows| ==> !Before(rows[i].seen, rows[j].seen)
  }

  ghost predicate Listings(lists: seq<seq<Row>>) {
    forall r {:trigger lists[r]} :: 0 <= r < |lists| ==> ByText(lists[r])
  }

  /** Every root lists its groups as the merge orders them. */
  ghost predicate InMergeOrder(lists: seq<seq<Row>>) {
    forall r {:trigger lists[r]} :: 0 <= r < |lists| ==> Descending(lists[r])
  }

  lemma {:induction false} HeadsTake(lists: seq<seq<Row>>, n: nat)
    requires InMergeOrder(lists)
    ensures Take(StableSort(Concat(lists)), n) == Take(StableSort(Concat(Heads(lists, n))), n)
  {
    if lists != [] {
      var less, last := lists[..|lists| - 1], lists[|lists| - 1];
      HeadsTake(less, n);
      assert Heads(lists, n)[..|lists| - 1] == Heads(less, n);
      var all, some := Concat(less), Concat(Heads(less, n));
      StableSortIsStable(all);
      StableSortIsStable(some);
      ListTake(StableSort(all), StableSort(some), last, n);
      SortAppend(all, last);
      SortAppend(some, Take(last, n));
    }
  }

  /** How many rows one root gives when this many are asked for. */
  function Clamped(n: int): nat {
    if Min(n, FETCH_LIMIT) < 1 then 1 else Min(n, FETCH_LIMIT)
  }

  /** A fetch is for as many rows as were asked for, but for one at least and five hundred at most. */
  lemma ClampedIs(n: int)
    ensures (1 <= n <= 500 ==> Clamped(n) == n) && (n < 1 ==> Clamped(n) == 1) && (n > 500 ==> Clamped(n) == 500)
  {
  }

  /** The rows that are fetched for a page. */
  function Fetched(lists: seq<seq<Row>>, offset: nat, limit: nat): seq<Row> {
    Concat(Heads(lists, Clamped(offset + limit)))
  }

  /** The rows that the merge shows. */
  function MergedSlice(lists: seq<seq<Row>>, offset: nat, limit: nat): seq<Row> {
    Slice(StableSort(Fetched(lists, offset, limit)), offset, limit)
  }

  /** The rows that a page of all groups of all roots has. */
  function GlobalSlice(lists: seq<seq<Row>>, offset: nat, limit: nat): seq<Row> {
    Slice(StableSort(Concat(lists)), offset, limit)
  }

  /** Up to the fetch limit the merged page is the page of all groups, when the roots list them in
      the order of the merge. */
  lemma MergeIsSlice(lists: seq<seq<Row>>, offset: nat, limit: nat)
    requires InMergeOrder(lists) && 1 <= offset + limit <= FETCH_LIMIT
    ensures MergedSlice(lists, offset, limit) == GlobalSlice(lists, offset, limit)
  {
    var n: nat := offset + limit;
    assert Clamped(n) == n;
    HeadsTake(lists, n);
    SliceOfTake(StableSort(Concat(lists)), StableSort(Concat(Heads(lists, n))), offset, limit);
  }

  ghost predicate NoLonger(lists: seq<seq<Row>>, n: nat) {
    forall r {:trigger lists[r]} :: 0 <= r < |lists| ==> |lists[r]| <= n
  }

  /** No root has more rows than one fetch gives. */
  ghost predicate ShortRoots(lists: seq<seq<Row>>) {
    NoLonger(lists, FETCH_LIMIT)
  }

  lemma HeadsWhole(lists: seq<seq<Row>>, n: nat)
    requires NoLonger(lists, n)
    ensures Heads(lists, n) == lists
  {
    forall i | 0 <= i < |lists| ensures Heads(lists, n)[i] == lists[i] {
    }
  }

  /** In whatever order the roots list them, when everything is fetched the page is right. */
  lemma WholeRootsRight(lists: seq<seq<Row>>, offset: nat, limit: nat)
    requires NoLonger(lists, Clamped(offset + limit))
    ensures MergedSlice(lists, offset, limit) == GlobalSlice(lists, offset, limit)
  {
    HeadsWhole(lists, Clamped(offset + limit));
  }

  /** Roots in merge order without more rows than one fetch gives: the merge is right on every page. */
  lemma ShortRootsRight(lists: seq<seq<Row>>, offset: nat, limit: nat)
    requires InMergeOrder(lists) && ShortRoots(lists)
    ensures MergedSlice(lists, offset, limit) == GlobalSlice(lists, offset, limit)
  {
    if 1 <= offset + limit <= FETCH_LIMIT {
      MergeIsSlice(lists, offset, limit);
    } else if offset + limit > FETCH_LIMIT {
      WholeRootsRight(lists, offset, limit);
    }
  }

  // ----- When a page is right

  lemma {:induction false} ConcatFrom(lists: seq<seq<Row>>, row: Row)
    requires row in Concat(lists)
    ensures exists r: nat :: r < |lists| && row in lists[r]
  {
    if row in lists[|lists| - 1] {
      assert row in lists[|lists| - 1];
    } else {
      ConcatFrom(lists[..|lists| - 1], row);
      var r: nat :| r < |lists| - 1 && row in lists[..|lists| - 1][r];
      assert row in lists[r];
    }
  }

  lemma {:induction false} ConcatHas(lists: seq<seq<Row>>, r: nat, row: Row)
    requires r < |lists| && row in lists[r]
    ensures row in Concat(lists)
  {
    if r < |lists| - 1 {
      ConcatHas(lists[..|lists| - 1], r, row);
    }
  }

  lemma {:induction false} ConcatNoRepeats(lists: seq<seq<Row>>)
    requires UniqueIds(lists)
    ensures NoRepeats(Concat(lists))
  {
    if lists != [] {
      var less, last := lists[..|lists| - 1], lists[|lists| - 1];
      LessUnique(lists);
      ConcatNoRepeats(less);
      assert NoRepeats(last);
      forall row | row in Concat(less) ensures row !in last {
        ConcatFrom(less, row);
        var r: nat :| r < |less| && row in less[r];
        assert row in lists[r];
        assert lists[|lists| - 1] == last;
      }
      NoRepeatsApart(Concat(less), last);
    }
  }

  lemma NoRepeatsApart(a: seq<Row>, b: seq<Row>)
    requires NoRepeats(a) && NoRepeats(b) && forall row :: row in a ==> row !in b
    ensures NoRepeats(a + b)
  {
    forall i, j | 0 <= i < j < |a + b| ensures (a + b)[i] != (a + b)[j] {
      assert i < |a| ==> a[i] in a;
    }
  }

  lemma LessUnique(lists: seq<seq<Row>>)
    requires UniqueIds(lists) && lists != []
    ensures UniqueIds(lists[..|lists| - 1])
  {
    var less := lists[..|lists| - 1];
    forall r: nat, s: nat, x: Row, y: Row | r < |less| && s < |less| && x in less[r] && y in less[s] && x.id == y.id
      ensures r == s && x == y
    {
      assert x in lists[r] && y in lists[s];
    }
  }

  /** `chosen` holds the first `n` rows of each root, and no other. */
  ghost predicate HeadsAre(lists: seq<seq<Row>>, n: nat, chosen: set<Row>) {
    forall r, i {:trigger lists[r][i]} :: 0 <= r < |lists| && 0 <= i < |lists[r]| ==> (lists[r][i] in chosen <==> i < n)
  }

  lemma ListPick(list: seq<Row>, n: nat, chosen: set<Row>)
    requires forall i :: 0 <= i < |list| ==> (list[i] in chosen <==> i < n)
    ensures Take(list, n) == Pick(list, chosen)
  {
    var first, rest := Take(list, n), list[Min(n, |list|)..];
    assert list == first + rest;
    PickAll(first, chosen);
    PickNone(rest, chosen);
    PickAppend(first, rest, chosen);
  }

  lemma {:induction false} HeadsPick(lists: seq<seq<Row>>, n: nat, chosen: set<Row>)
    requires HeadsAre(lists, n, chosen)
    ensures Concat(Heads(lists, n)) == Pick(Concat(lists), chosen)
  {
    if lists != [] {
      var less, last := lists[..|lists| - 1], lists[|lists| - 1];
      assert forall r :: 0 <= r < |less| ==> less[r] == lists[r];
      HeadsPick(less, n, chosen);
      assert Heads(lists, n)[..|lists| - 1] == Heads(less, n);
      forall i | 0 <= i < |last| ensures last[i] in chosen <==> i < n {
        assert last[i] == lists[|lists| - 1][i];
      }
      ListPick(last, n, chosen);
      PickAppend(Concat(less), last, chosen);
    }
  }

  ghost function Rows(rows: seq<Row>): set<Row> {
    set row | row in rows
  }

  /** A row among the heads stands there in its own root. */
  lemma InHeads(lists: seq<seq<Row>>, n: nat, r: nat, i: nat)
    requires UniqueIds(lists) && r < |lists| && i < |lists[r]| && lists[r][i] in Concat(Heads(lists, n))
    ensures i < n
  {
    var heads, row := Heads(lists, n), lists[r][i];
    ConcatFrom(heads, row);
    var s: nat :| s < |heads| && row in heads[s];
    var j :| 0 <= j < |heads[s]| && heads[s][j] == row;
    assert lists[s][j] == row && row in lists[s] && row in lists[r];
    assert r == s && NoRepeats(lists[r]);
  }

  lemma FetchedAre(lists: seq<seq<Row>>, n: nat)
    requires UniqueIds(lists)
    ensures HeadsAre(lists, n, Rows(Concat(Heads(lists, n))))
  {
    var heads := Heads(lists, n);
    forall r, i | 0 <= r < |lists| && 0 <= i < |lists[r]| ensures lists[r][i] in Rows(Concat(heads)) <==> i < n {
      var row := lists[r][i];
      if i < n {
        assert heads[r][i] == row;
        ConcatHas(heads, r, row);
      }
      if row in Concat(heads) {
        InHeads(lists, n, r, i);
      }
    }
  }

  /** Every row that the page's end reaches is among the first rows of its own root. */
  ghost predicate FetchedInTime(lists: seq<seq<Row>>, offset: nat, limit: nat) {
    AllIn(Take(StableSort(Concat(lists)), offset + limit), Rows(Fetched(lists, offset, limit)))
  }

  /** For roots in any order: a merged page that is not beyond all groups is the page of all groups
      exactly when each group up to its end stands among the rows its root was asked for. */
  lemma MergeRightWhen(lists: seq<seq<Row>>, offset: nat, limit: nat)
    requires UniqueIds(lists) && 1 <= limit
    ensures MergedSlice(lists, offset, limit) == GlobalSlice(lists, offset, limit) <==>
            offset >= |Concat(lists)| || FetchedInTime(lists, offset, limit)
  {
    var all, n := Concat(lists), Clamped(offset + limit);
    var chosen := Rows(Concat(Heads(lists, n)));
    FetchedAre(lists, n);
    HeadsPick(lists, n, chosen);
    SortPick(all, chosen);
    ConcatNoRepeats(lists);
    SortNoRepeats(all);
    StableSortIsStable(all);
    SlicePick(StableSort(all), chosen, offset, limit);
  }

  // ----- Roots with given texts of times

  /** A text of a time, and the instant it names. */
  datatype Stamp = Stamp(seen: string, time: int)

  ghost predicate RowsStamped(rows: seq<Row>, stamps: iset<Stamp>) {
    forall j {:trigger rows[j]} :: 0 <= j < |rows| ==> Stamp(rows[j].seen, rows[j].time) in stamps
  }

  /** What that many roots can list when their times are some of these. */
  ghost predicate Admissible(lists: seq<seq<Row>>, roots: nat, stamps: iset<Stamp>) {
    && |lists| == roots && Listings(lists) && UniqueIds(lists)
    && forall r {:trigger lists[r]} :: 0 <= r < |lists| ==> RowsStamped(lists[r], stamps)
  }

  /** Of two times, the later instant has the later text. */
  ghost predicate Agree(stamps: iset<Stamp>) {
    forall a, b :: a in stamps && b in stamps && a.time < b.time ==> Before(a.seen, b.seen)
  }

  /** Where text and instant agree, every root lists its groups as the merge orders them. */
  lemma AgreeingOrder(lists: seq<seq<Row>>, roots: nat, stamps: iset<Stamp>)
    requires Admissible(lists, roots, stamps) && Agree(stamps)
    ensures InMergeOrder(lists)
  {
    forall r, i, j | 0 <= r < |lists| && 0 <= i < j < |lists[r]| ensures lists[r][i].time >= lists[r][j].time {
      var x, y := lists[r][i], lists[r][j];
      assert RowsStamped(lists[r], stamps) && ByText(lists[r]);
      assert Stamp(x.seen, x.time) in stamps && Stamp(y.seen, y.time) in stamps;
    }
  }

  /** A name for each number. */
  function Name(n: nat): string {
    seq(n, _ => 'x')
  }

  /** Rows of one time, each under its own id. */
  function LongRoot(n: nat, stamp: Stamp): (rows: seq<Row>)
    ensures |rows| == n && NamedByPlace(rows) && Alike(rows, stamp)
  {
    if n == 0 then [] else LongRoot(n - 1, stamp) + [Row(Name(n - 1), stamp.seen, stamp.time)]
  }

  function EmptyRoots(n: nat): seq<seq<Row>> {
    seq(n, _ => [])
  }

  /** One root with these rows, and nothing in the others. */
  function Alone(rows: seq<Row>, roots: nat): seq<seq<Row>>
    requires 1 <= roots
  {
    EmptyRoots(roots - 1) + [rows]
  }

  /** Each row has an id of its own, told by its length. */
  ghost predicate NamedByPlace(rows: seq<Row>) {
    forall j {:trigger rows[j]} :: 0 <= j < |rows| ==> |rows[j].id| == j
  }

  lemma AloneUnique(rows: seq<Row>, roots: nat)
    requires 1 <= roots && NamedByPlace(rows)
    ensures UniqueIds(Alone(rows, roots))
  {
    var lists := Alone(rows, roots);
    NamesApart(rows);
    forall r: nat, s: nat, x: Row, y: Row | r < |lists| && s < |lists| && x in lists[r] && y in lists[s] && x.id == y.id
      ensures r == s && x == y
    {
      assert lists[r] == rows && lists[s] == rows;
    }
    forall r | 0 <= r < |lists| ensures NoRepeats(lists[r]) {
      assert lists[r] == rows || lists[r] == [];
    }
  }

  lemma NamesApart(rows: seq<Row>)
    requires NamedByPlace(rows)
    ensures NoRepeats(rows) && forall x, y :: x in rows && y in rows && x.id == y.id ==> x == y
  {
    forall x, y | x in rows && y in rows && x.id == y.id ensures x == y {
      var i :| 0 <= i < |rows| && rows[i] == x;
      var j :| 0 <= j < |rows| && rows[j] == y;
    }
    forall i, j | 0 <= i < j < |rows| ensures rows[i] != rows[j] {
      assert |rows[i].id| == i && |rows[j].id| == j;
    }
  }

  lemma AloneAdmissible(rows: seq<Row>, roots: nat, stamps: iset<Stamp>)
    requires 1 <= roots && NamedByPlace(rows) && ByText(rows) && RowsStamped(rows, stamps)
    ensures Admissible(Alone(rows, roots), roots, stamps)
  {
    AloneUnique(rows, roots);
    var lists := Alone(rows, roots);
    forall r | 0 <= r < roots ensures ByText(lists[r]) && RowsStamped(lists[r], stamps) {
      assert lists[r] == rows || lists[r] == [];
    }
  }

  lemma {:induction false} EmptyConcat(lists: seq<seq<Row>>)
    requires forall i :: 0 <= i < |lists| ==> lists[i] == []
    ensures Concat(lists) == []
  {
    if lists != [] {
      EmptyConcat(lists[..|lists| - 1]);
    }
  }

  lemma AloneConcat(rows: seq<Row>, roots: nat)
    requires 1 <= roots
    ensures Concat(Alone(rows, roots)) == rows
  {
    var empty := EmptyRoots(roots - 1);
    EmptyConcat(empty);
    assert Alone(rows, roots)[..roots - 1] == empty;
    assert Concat(empty) + rows == rows;
  }

  lemma AloneFetched(rows: seq<Row>, roots: nat, k: nat)
    requires 1 <= roots
    ensures Concat(Heads(Alone(rows, roots), k)) == Take(rows, k)
  {
    forall i | 0 <= i < roots ensures Heads(Alone(rows, roots), k)[i] == Alone(Take(rows, k), roots)[i] {
    }
    assert Heads(Alone(rows, roots), k) == Alone(Take(rows, k), roots);
    AloneConcat(Take(rows, k), roots);
  }

  /** What is in order already stays as it is. */
  lemma {:induction false} SortedStays(rows: seq<Row>)
    requires Descending(rows)
    ensures StableSort(rows) == rows
  {
    if rows != [] {
      var less, last := rows[..|rows| - 1], rows[|rows| - 1];
      assert rows == less + [last];
      SortedStays(less);
      assert forall r :: r in less ==> r.time >= last.time;
      InsertEnd(less, last);
    }
  }

  /** A row newer than all others goes first. */
  lemma {:induction false} InsertFront(rows: seq<Row>, row: Row)
    requires forall r :: r in rows ==> r.time < row.time
    ensures Insert(rows, row) == [row] + rows
  {
    if rows != [] {
      var less, last := rows[..|rows| - 1], rows[|rows| - 1];
      assert rows == less + [last] && last in rows;
      InsertFront(less, row);
      assert [row] + less + [last] == [row] + rows;
    }
  }

  lemma LastNotFetched(rows: seq<Row>, k: nat)
    requires NamedByPlace(rows) && |rows| > k
    ensures rows[|rows| - 1] !in Take(rows, k)
  {
    assert |rows[|rows| - 1].id| == |rows| - 1;
    assert forall j :: 0 <= j < k ==> |rows[j].id| == j;
  }

  lemma AloneLeavesBehind(rows: seq<Row>, roots: nat, offset: nat, limit: nat, place: nat)
    requires 1 <= roots && NamedByPlace(rows) && |rows| > Clamped(offset + limit)
    requires place < offset + limit && place < |StableSort(rows)| && StableSort(rows)[place] == rows[|rows| - 1]
    ensures Concat(Alone(rows, roots)) == rows && !FetchedInTime(Alone(rows, roots), offset, limit)
  {
    AloneConcat(rows, roots);
    AloneFetched(rows, roots, Clamped(offset + limit));
    LastNotFetched(rows, Clamped(offset + limit));
    assert Take(StableSort(rows), offset + limit)[place] == rows[|rows| - 1];
  }

  /** The merge is right for all listings of that many roots whose times are some of these. */
  ghost predicate MergeAlwaysRight(roots: nat, offset: nat, limit: nat, stamps: iset<Stamp>) {
    forall lists {:trigger MergedSlice(lists, offset, limit)} :: Admissible(lists, roots, stamps) ==>
      MergedSlice(lists, offset, limit) == GlobalSlice(lists, offset, limit)
  }

  /** It is not when the last row of some root comes up to the page's end and is not fetched. */
  lemma LeftBehind(rows: seq<Row>, roots: nat, offset: nat, limit: nat, stamps: iset<Stamp>, place: nat)
    requires 1 <= roots && 1 <= limit && NamedByPlace(rows) && ByText(rows) && RowsStamped(rows, stamps)
    requires |rows| >= offset + limit && |rows| > Clamped(offset + limit)
    requires place < offset + limit && place < |StableSort(rows)| && StableSort(rows)[place] == rows[|rows| - 1]
    ensures !MergeAlwaysRight(roots, offset, limit, stamps)
  {
    AloneAdmissible(rows, roots, stamps);
    AloneLeavesBehind(rows, roots, offset, limit, place);
    MergeRightWhen(Alone(rows, roots), offset, limit);
  }

  /** Rows that differ only in their ids. */
  ghost predicate Alike(rows: seq<Row>, stamp: Stamp) {
    forall j {:trigger rows[j]} :: 0 <= j < |rows| ==> rows[j].seen == stamp.seen && rows[j].time == stamp.time
  }

  lemma AlikeSorted(rows: seq<Row>, stamp: Stamp)
    requires Alike(rows, stamp)
    ensures ByText(rows) && Descending(rows) && StableSort(rows) == rows
  {
    Irreflexive(stamp.seen);
    SortedStays(rows);
  }

  /** Beyond the fetch limit one root that is too long is enough. */
  lemma ClampLoses(roots: nat, offset: nat, limit: nat, stamps: iset<Stamp>, stamp: Stamp)
    requires 1 <= roots && 1 <= limit && offset + limit > FETCH_LIMIT && stamp in stamps
    ensures !MergeAlwaysRight(roots, offset, limit, stamps)
  {
    var rows := LongRoot(offset + limit, stamp);
    AlikeSorted(rows, stamp);
    LeftBehind(rows, roots, offset, limit, stamps, offset + limit - 1);
  }

  /** Where text and instant disagree one root is enough on any page: behind rows with a later text
      stands the row with the later instant. */
  lemma ClockLoses(roots: nat, offset: nat, limit: nat, stamps: iset<Stamp>, early: Stamp, late: Stamp)
    requires 1 <= roots && 1 <= limit && early in stamps && late in stamps
    requires early.time < late.time && !Before(early.seen, late.seen)
    ensures !MergeAlwaysRight(roots, offset, limit, stamps)
  {
    var rows, last := LongRoot(offset + limit, early), Row(Name(offset + limit), late.seen, late.time);
    NewestBehind(rows, last, early);
    assert NamedByPlace(rows + [last]) && RowsStamped(rows + [last], stamps);
    LeftBehind(rows + [last], roots, offset, limit, stamps, 0);
  }

  lemma NewestBehind(rows: seq<Row>, last: Row, early: Stamp)
    requires Alike(rows, early) && early.time < last.time && !Before(early.seen, last.seen)
    ensures ByText(rows + [last]) && StableSort(rows + [last]) == [last] + rows
  {
    AlikeSorted(rows, early);
    assert (rows + [last])[..|rows|] == rows;
    InsertFront(rows, last);
  }

  /** The merged page is the page of all groups, for all listings, exactly up to the fetch limit and
      when the text of times agrees with the instants. */
  lemma MergeRightExactly(roots: nat, offset: nat, limit: nat, stamps: iset<Stamp>)
    requires 1 <= roots && 1 <= limit && exists stamp :: stamp in stamps
    ensures MergeAlwaysRight(roots, offset, limit, stamps) <==> offset + limit <= FETCH_LIMIT && Agree(stamps)
  {
    if !Agree(stamps) {
      var a, b :| a in stamps && b in stamps && a.time < b.time && !Before(a.seen, b.seen);
      ClockLoses(roots, offset, limit, stamps, a, b);
    } else if offset + limit > FETCH_LIMIT {
      var stamp :| stamp in stamps;
      ClampLoses(roots, offset, limit, stamps, stamp);
    } else {
      forall lists | Admissible(lists, roots, stamps)
        ensures MergedSlice(lists, offset, limit) == GlobalSlice(lists, offset, limit)
      {
        AgreeingOrder(lists, roots, stamps);
        MergeIsSlice(lists, offset, limit);
      }
    }
  }

  // ----- The texts that a local clock writes

  /** All times written under these UTC offsets. */
  ghost function StampsUnder(offsets: set<int>): iset<Stamp> {
    iset t: LocalTime | IsTime(t) && t.offset in offsets :: Stamp(FormatLocalIso(t), Instant(t))
  }

  /** Local texts agree with their instants exactly under one UTC offset. */
  lemma AgreeExactly(offsets: set<int>)
    requires forall z :: z in offsets ==> ValidOffset(z)
    ensures Agree(StampsUnder(offsets)) <==> forall a, b :: a in offsets && b in offsets ==> a == b
  {
    if a, b :| a in offsets && b in offsets && a > b {
      var early, late := TwoOffsets(a, b);
      NotBoth(FormatLocalIso(late), FormatLocalIso(early));
      var x, y := Stamp(FormatLocalIso(early), Instant(early)), Stamp(FormatLocalIso(late), Instant(late));
      assert x in StampsUnder(offsets) && y in StampsUnder(offsets);
    } else {
      forall x, y | x in StampsUnder(offsets) && y in StampsUnder(offsets) && x.time < y.time
        ensures Before(x.seen, y.seen)
      {
        OneOffsetPair(offsets, x, y);
      }
    }
  }

  lemma OneOffsetPair(offsets: set<int>, x: Stamp, y: Stamp)
    requires forall a, b :: a in offsets && b in offsets ==> a == b
    requires x in StampsUnder(offsets) && y in StampsUnder(offsets)
    ensures Before(x.seen, y.seen) <==> x.time < y.time
  {
    var s :| IsTime(s) && s.offset in offsets && x == Stamp(FormatLocalIso(s), Instant(s));
    var t :| IsTime(t) && t.offset in offsets && y == Stamp(FormatLocalIso(t), Instant(t));
    TextIsInstant(s, t);
  }
}
