/** Rows of groups, newest first: the stable sort, its first rows, and the rows picked out of it. */
module RowSorting {

  /** A group of one root. The root orders it by the text of its last time, the merge by the instant
      that the text names. */
  datatype Row = Row(id: string, seen: string, time: int)

  function Min(a: int, b: int): int {
    if a <= b then a else b
  }

  // ----- The stable sort, newest first

  ghost predicate Descending(rows: seq<Row>) {
    forall i, j :: 0 <= i < j < |rows| ==> rows[i].time >= rows[j].time
  }

  /** A row goes behind all rows that are at least as new. */
  function Insert(rows: seq<Row>, row: Row): seq<Row> {
    if rows == [] || rows[|rows| - 1].time >= row.time then rows + [row]
    else Insert(rows[..|rows| - 1], row) + [rows[|rows| - 1]]
  }

  function StableSort(rows: seq<Row>): seq<Row> {
    if rows == [] then [] else Insert(StableSort(rows[..|rows| - 1]), rows[|rows| - 1])
  }

  /** The rows of one time, in their order. */
  function AtTime(rows: seq<Row>, time: int): seq<Row> {
    if rows == [] then []
    else
      var before, last := AtTime(rows[..|rows| - 1], time), rows[|rows| - 1];
      if last.time == time then before + [last] else before
  }

  lemma AtTimeSnoc(rows: seq<Row>, row: Row, time: int)
    ensures AtTime(rows + [row], time) == AtTime(rows, time) + if row.time == time then [row] else []
  {
    assert (rows + [row])[..|rows|] == rows;
  }

  ghost predicate HasTime(rows: seq<Row>, time: int) {
    exists row :: row in rows && row.time == time
  }

  lemma {:induction false} AtTimeExists(rows: seq<Row>, time: int)
    ensures AtTime(rows, time) != [] <==> HasTime(rows, time)
  {
    if rows != [] {
      var less, last := rows[..|rows| - 1], rows[|rows| - 1];
      assert forall row :: row in rows <==> row in less || row == last;
      AtTimeExists(less, time);
    }
  }

  lemma {:induction false} InsertKeeps(rows: seq<Row>, row: Row)
    requires Descending(rows)
    ensures |Insert(rows, row)| == |rows| + 1
    ensures Descending(Insert(rows, row))
    ensures forall r :: r in Insert(rows, row) <==> r in rows || r == row
    ensures forall time :: AtTime(Insert(rows, row), time) == AtTime(rows + [row], time)
  {
    if rows != [] && rows[|rows| - 1].time < row.time {
      var less, last := rows[..|rows| - 1], rows[|rows| - 1];
      assert rows == less + [last];
      InsertKeeps(less, row);
      var inserted := Insert(less, row);
      assert forall r :: r in inserted ==> r.time >= last.time;
      forall time ensures AtTime(inserted + [last], time) == AtTime(rows + [row], time) {
        LastSwapped(less, last, row, inserted, time);
      }
    }
  }

  /** Rows of different times may trade places. */
  lemma LastSwapped(less: seq<Row>, last: Row, row: Row, inserted: seq<Row>, time: int)
    requires last.time != row.time && AtTime(inserted, time) == AtTime(less + [row], time)
    ensures AtTime(inserted + [last], time) == AtTime(less + [last] + [row], time)
  {
    AtTimeSnoc(inserted, last, time);
    AtTimeSnoc(less, row, time);
    AtTimeSnoc(less, last, time);
    AtTimeSnoc(less + [last], row, time);
  }

  /** The sort orders by time, keeps every row, and keeps the order of rows of one time. */
  lemma {:induction false} StableSortIsStable(rows: seq<Row>)
    ensures |StableSort(rows)| == |rows| && Descending(StableSort(rows))
    ensures forall r :: r in StableSort(rows) <==> r in rows
    ensures forall time :: AtTime(StableSort(rows), time) == AtTime(rows, time)
  {
    if rows != [] {
      var less, last := rows[..|rows| - 1], rows[|rows| - 1];
      assert rows == less + [last];
      StableSortIsStable(less);
      InsertKeeps(StableSort(less), last);
      forall time ensures AtTime(StableSort(rows), time) == AtTime(rows, time) {
        AtTimeSnoc(StableSort(less), last, time);
        AtTimeSnoc(less, last, time);
      }
    }
  }

  /** Nothing else does: a descending order that keeps the rows of every time is the sort. */
  lemma {:induction false} StableSortUnique(a: seq<Row>, b: seq<Row>)
    requires Descending(a) && Descending(b)
    requires forall time :: AtTime(a, time) == AtTime(b, time)
    ensures a == b
    decreases |a|
  {
    SameEmpty(a, b);
    SameEmpty(b, a);
    if a != [] {
      LastRow(a, b);
      var x := a[|a| - 1];
      var lessA, lessB := a[..|a| - 1], b[..|b| - 1];
      assert a == lessA + [x] && b == lessB + [x];
      forall time ensures AtTime(lessA, time) == AtTime(lessB, time) {
        assert AtTime(a, time) == AtTime(b, time);
        AtTimeSnoc(lessA, x, time);
        AtTimeSnoc(lessB, x, time);
        var tail := if x.time == time then [x] else [];
        assert (AtTime(lessA, time) + tail)[..|AtTime(lessA, time)|] == AtTime(lessA, time);
        assert (AtTime(lessB, time) + tail)[..|AtTime(lessB, time)|] == AtTime(lessB, time);
      }
      StableSortUnique(lessA, lessB);
    }
  }

  lemma SameEmpty(a: seq<Row>, b: seq<Row>)
    requires forall time :: AtTime(a, time) == AtTime(b, time)
    ensures a != [] ==> b != []
  {
    if a != [] {
      var x := a[|a| - 1];
      assert AtTime(a, x.time) != [];
      assert AtTime(a, x.time) == AtTime(b, x.time);
      AtTimeExists(b, x.time);
    }
  }

  /** The last row is the last of the oldest time. */
  lemma LastRow(a: seq<Row>, b: seq<Row>)
    requires a != [] && b != [] && Descending(a) && Descending(b)
    requires forall time :: AtTime(a, time) == AtTime(b, time)
    ensures a[|a| - 1] == b[|b| - 1]
  {
    var x, y := a[|a| - 1], b[|b| - 1];
    assert AtTime(a, x.time) == AtTime(b, x.time) && AtTime(a, y.time) == AtTime(b, y.time);
    AtTimeExists(a, y.time);
    AtTimeExists(b, x.time);
    AtLeastLast(a, y.time);
    AtLeastLast(b, x.time);
    assert AtTime(a, x.time)[|AtTime(a, x.time)| - 1] == x;
    assert AtTime(b, y.time)[|AtTime(b, y.time)| - 1] == y;
  }

  lemma AtLeastLast(rows: seq<Row>, time: int)
    requires rows != [] && Descending(rows) && HasTime(rows, time)
    ensures time >= rows[|rows| - 1].time
  {
  }

  // ----- The first rows of a sort

  function Take(rows: seq<Row>, n: nat): seq<Row> {
    rows[..Min(n, |rows|)]
  }

  /** The first rows after an insertion only depend on the first rows before it. */
  lemma {:induction false} InsertTake(rows: seq<Row>, row: Row, n: nat)
    requires Descending(rows)
    ensures Take(Insert(rows, row), n) == Take(Insert(Take(rows, n), row), n)
  {
    InsertKeeps(rows, row);
    if n < |rows| {
      var less, last := rows[..|rows| - 1], rows[|rows| - 1];
      assert rows == less + [last];
      assert Take(less, n) == Take(rows, n);
      InsertTake(less, row, n);
      InsertKeeps(less, row);
      if last.time < row.time {
        assert Take(Insert(less, row) + [last], n) == Take(Insert(less, row), n);
      } else {
        InsertEnd(rows[..n], row);
        assert Take(Insert(rows, row), n) == rows[..n];
      }
    } else {
      assert Take(rows, n) == rows;
    }
  }

  /** A row no newer than all others goes last. */
  lemma InsertEnd(rows: seq<Row>, row: Row)
    requires forall r :: r in rows ==> r.time >= row.time
    ensures Insert(rows, row) == rows + [row]
  {
    if rows != [] {
      assert rows[|rows| - 1] in rows;
    }
  }

  /** At least `n` rows are at least as new as `time`. */
  ghost predicate Filled(rows: seq<Row>, n: nat, time: int) {
    n <= |rows| && forall i :: 0 <= i < n ==> rows[i].time >= time
  }

  /** Insertion never pushes newer rows down: the first places stay as new as they were, and a row
      that is new enough fills one place more. */
  lemma {:induction false} InsertFilled(rows: seq<Row>, row: Row, n: nat, time: int)
    requires Descending(rows) && Filled(rows, n, time)
    ensures Filled(Insert(rows, row), if row.time >= time then n + 1 else n, time)
  {
    InsertKeeps(rows, row);
    if rows != [] && rows[|rows| - 1].time < row.time {
      var less, last := rows[..|rows| - 1], rows[|rows| - 1];
      InsertKeeps(less, row);
      if n < |rows| {
        InsertFilled(less, row, n, time);
      } else {
        InsertFilled(less, row, n - 1, time);
      }
    }
  }

  /** A row that is older than the first `n` does not change them. */
  lemma {:induction false} InsertBehind(rows: seq<Row>, row: Row, n: nat)
    requires Descending(rows) && Filled(rows, n, row.time)
    ensures Take(Insert(rows, row), n) == Take(rows, n)
  {
    InsertKeeps(rows, row);
    if rows != [] && rows[|rows| - 1].time < row.time {
      var less, last := rows[..|rows| - 1], rows[|rows| - 1];
      assert n < |rows|;
      InsertBehind(less, row, n);
      InsertKeeps(less, row);
      assert Take(Insert(less, row) + [last], n) == Take(Insert(less, row), n);
    }
  }

  // ----- Sorting one list behind another

  /** The sort continued with one list more. */
  function SortedWith(sorted: seq<Row>, more: seq<Row>): seq<Row> {
    if more == [] then sorted else Insert(SortedWith(sorted, more[..|more| - 1]), more[|more| - 1])
  }

  lemma {:induction false} SortedWithKeeps(sorted: seq<Row>, more: seq<Row>)
    requires Descending(sorted)
    ensures Descending(SortedWith(sorted, more)) && |SortedWith(sorted, more)| == |sorted| + |more|
  {
    if more != [] {
      SortedWithKeeps(sorted, more[..|more| - 1]);
      InsertKeeps(SortedWith(sorted, more[..|more| - 1]), more[|more| - 1]);
    }
  }

  lemma {:induction false} SortAppend(rows: seq<Row>, more: seq<Row>)
    ensures StableSort(rows + more) == SortedWith(StableSort(rows), more)
  {
    if more == [] {
      assert rows + more == rows;
    } else {
      assert (rows + more)[..|rows + more| - 1] == rows + more[..|more| - 1];
      SortAppend(rows, more[..|more| - 1]);
    }
  }

  /** Rows of one descending list fill as many places as there are rows. */
  lemma {:induction false} ListFills(sorted: seq<Row>, more: seq<Row>, time: int)
    requires Descending(sorted) && forall r :: r in more ==> r.time >= time
    ensures Filled(SortedWith(sorted, more), |more|, time)
  {
    if more != [] {
      var less := more[..|more| - 1];
      assert more[|more| - 1] in more;
      assert forall r :: r in less ==> r in more;
      ListFills(sorted, less, time);
      SortedWithKeeps(sorted, less);
      InsertFilled(SortedWith(sorted, less), more[|more| - 1], |less|, time);
    }
  }

  /** The first `n` places after a descending list only need its first `n` rows, and the first `n`
      places before it. */
  lemma {:induction false} ListTake(all: seq<Row>, some: seq<Row>, list: seq<Row>, n: nat)
    requires Descending(all) && Descending(some) && Take(all, n) == Take(some, n) && Descending(list)
    ensures Take(SortedWith(all, list), n) == Take(SortedWith(some, Take(list, n)), n)
    decreases |list|
  {
    if list != [] {
      var less, last := list[..|list| - 1], list[|list| - 1];
      ListTake(all, some, less, n);
      SortedWithKeeps(all, less);
      var before := SortedWith(all, less);
      if |list| <= n {
        assert Take(list, n) == list && Take(less, n) == less;
        SortedWithKeeps(some, less);
        InsertTake(before, last, n);
        InsertTake(SortedWith(some, less), last, n);
      } else {
        assert Take(list, n) == Take(less, n);
        assert forall r :: r in less ==> r.time >= last.time;
        ListFills(all, less, last.time);
        InsertBehind(before, last, n);
      }
    }
  }

  // ----- Rows picked out of a sequence

  ghost predicate NoRepeats(rows: seq<Row>) {
    forall i, j :: 0 <= i < j < |rows| ==> rows[i] != rows[j]
  }

  /** The rows that are in `chosen`, in their order. */
  ghost function Pick(rows: seq<Row>, chosen: set<Row>): (r: seq<Row>)
    ensures |r| <= |rows| && forall row :: row in r ==> row in chosen && row in rows
  {
    if rows == [] then []
    else Pick(rows[..|rows| - 1], chosen) + if rows[|rows| - 1] in chosen then [rows[|rows| - 1]] else []
  }

  lemma PickSnoc(rows: seq<Row>, row: Row, chosen: set<Row>)
    ensures Pick(rows + [row], chosen) == Pick(rows, chosen) + if row in chosen then [row] else []
  {
    assert (rows + [row])[..|rows|] == rows;
  }

  lemma {:induction false} PickAppend(a: seq<Row>, b: seq<Row>, chosen: set<Row>)
    ensures Pick(a + b, chosen) == Pick(a, chosen) + Pick(b, chosen)
  {
    if b == [] {
      assert a + b == a;
    } else {
      var less, last := b[..|b| - 1], b[|b| - 1];
      assert a + b == (a + less) + [last];
      PickAppend(a, less, chosen);
      PickSnoc(a + less, last, chosen);
    }
  }

  ghost predicate AllIn(rows: seq<Row>, chosen: set<Row>) {
    forall i {:trigger rows[i]} :: 0 <= i < |rows| ==> rows[i] in chosen
  }

  lemma {:induction false} PickAll(rows: seq<Row>, chosen: set<Row>)
    requires AllIn(rows, chosen)
    ensures Pick(rows, chosen) == rows
  {
    if rows != [] {
      var less, last := rows[..|rows| - 1], rows[|rows| - 1];
      PickAll(less, chosen);
      assert rows == less + [last];
      PickSnoc(less, last, chosen);
    }
  }

  lemma {:induction false} PickNone(rows: seq<Row>, chosen: set<Row>)
    requires forall i :: 0 <= i < |rows| ==> rows[i] !in chosen
    ensures Pick(rows, chosen) == []
  {
    if rows != [] {
      PickNone(rows[..|rows| - 1], chosen);
    }
  }

  /** A row left out makes what is picked shorter. */
  lemma {:induction false} PickShorter(rows: seq<Row>, chosen: set<Row>, p: nat)
    requires p < |rows| && rows[p] !in chosen
    ensures |Pick(rows, chosen)| < |rows|
  {
    if p < |rows| - 1 {
      PickShorter(rows[..|rows| - 1], chosen, p);
    }
  }

  lemma {:induction false} AtTimePick(rows: seq<Row>, chosen: set<Row>, time: int)
    ensures AtTime(Pick(rows, chosen), time) == Pick(AtTime(rows, time), chosen)
  {
    if rows != [] {
      var less, last := rows[..|rows| - 1], rows[|rows| - 1];
      AtTimePick(less, chosen, time);
      AtTimeSnoc(Pick(less, chosen), last, time);
      assert Pick(less, chosen) + [] == Pick(less, chosen);
      assert AtTime(less, time) + [] == AtTime(less, time);
      PickSnoc(AtTime(less, time), last, chosen);
    }
  }

  lemma {:induction false} PickDescends(rows: seq<Row>, chosen: set<Row>)
    requires Descending(rows)
    ensures Descending(Pick(rows, chosen))
  {
    if rows != [] {
      var less, last := rows[..|rows| - 1], rows[|rows| - 1];
      PickDescends(less, chosen);
      assert forall row :: row in less ==> row.time >= last.time;
      assert forall i :: 0 <= i < |Pick(less, chosen)| ==> Pick(less, chosen)[i] in less;
    }
  }

  /** Picking and sorting may trade places. */
  lemma SortPick(rows: seq<Row>, chosen: set<Row>)
    ensures StableSort(Pick(rows, chosen)) == Pick(StableSort(rows), chosen)
  {
    StableSortIsStable(rows);
    StableSortIsStable(Pick(rows, chosen));
    PickDescends(StableSort(rows), chosen);
    forall time ensures AtTime(StableSort(Pick(rows, chosen)), time) == AtTime(Pick(StableSort(rows), chosen), time) {
      AtTimePick(rows, chosen, time);
      AtTimePick(StableSort(rows), chosen, time);
    }
    StableSortUnique(StableSort(Pick(rows, chosen)), Pick(StableSort(rows), chosen));
  }

  lemma {:induction false} InsertNoRepeats(rows: seq<Row>, row: Row)
    requires NoRepeats(rows) && row !in rows && Descending(rows)
    ensures NoRepeats(Insert(rows, row))
  {
    if rows != [] && rows[|rows| - 1].time < row.time {
      var less, last := rows[..|rows| - 1], rows[|rows| - 1];
      InsertNoRepeats(less, row);
      InsertKeeps(less, row);
      assert last !in less;
      assert last !in Insert(less, row);
    }
  }

  lemma {:induction false} SortNoRepeats(rows: seq<Row>)
    requires NoRepeats(rows)
    ensures NoRepeats(StableSort(rows))
  {
    if rows != [] {
      var less, last := rows[..|rows| - 1], rows[|rows| - 1];
      assert last !in less;
      StableSortIsStable(less);
      SortNoRepeats(less);
      InsertNoRepeats(StableSort(less), last);
    }
  }

  // ----- The slice of a pick

  /** The rows of one page. */
  function Slice(rows: seq<Row>, offset: nat, limit: nat): seq<Row> {
    Take(rows, offset + limit)[Min(offset, |rows|)..]
  }

  lemma TakePick(rows: seq<Row>, chosen: set<Row>, n: nat)
    requires AllIn(Take(rows, n), chosen)
    ensures Take(Pick(rows, chosen), n) == Take(rows, n)
  {
    var first, rest := Take(rows, n), rows[Min(n, |rows|)..];
    assert rows == first + rest;
    PickAppend(first, rest, chosen);
    PickAll(first, chosen);
  }

  lemma {:induction false} PickHead(rows: seq<Row>, chosen: set<Row>)
    requires rows != []
    ensures Pick(rows, chosen) == (if rows[0] in chosen then [rows[0]] else []) + Pick(rows[1..], chosen)
  {
    assert rows == [rows[0]] + rows[1..];
    PickAppend([rows[0]], rows[1..], chosen);
    PickSnoc([], rows[0], chosen);
    assert [] + [rows[0]] == [rows[0]];
    assert Pick([], chosen) == [];
  }

  /** What stands behind the first row of a pick is not the first row. */
  lemma PickBehind(rows: seq<Row>, chosen: set<Row>, i: nat)
    requires rows != [] && rows[0] !in rows[1..] && 1 <= i < |Pick(rows, chosen)|
    ensures Pick(rows, chosen)[i] != rows[0]
  {
    PickHead(rows, chosen);
    var rest := Pick(rows[1..], chosen);
    var row := if rows[0] in chosen then rest[i - 1] else rest[i];
    assert row == Pick(rows, chosen)[i] && row in rest;
  }

  lemma NoRepeatsFrom(rows: seq<Row>, place: nat)
    requires NoRepeats(rows) && place < |rows|
    ensures rows[place..][0] !in rows[place..][1..]
  {
    var behind := rows[place..][1..];
    forall k | 0 <= k < |behind| ensures behind[k] != rows[place] {
      assert behind[k] == rows[place + 1 + k];
    }
  }

  /** Behind a row left out, the pick has another row where all rows have this one. */
  lemma PickMoves(rows: seq<Row>, chosen: set<Row>, place: nat, p: nat)
    requires NoRepeats(rows) && p < place < |rows| && rows[p] !in chosen
    ensures place < |Pick(rows, chosen)| ==> Pick(rows, chosen)[place] != rows[place]
  {
    var before, rest := rows[..place], rows[place..];
    assert rows == before + rest;
    PickAppend(before, rest, chosen);
    assert |Pick(before, chosen)| < place by {
      PickShorter(before, chosen, p);
    }
    assert rest[0] !in rest[1..] by {
      NoRepeatsFrom(rows, place);
    }
    if place < |Pick(rows, chosen)| {
      var i := place - |Pick(before, chosen)|;
      assert Pick(rows, chosen)[place] == Pick(rest, chosen)[i];
      PickBehind(rest, chosen, i);
    }
  }

  /** A row left out in front of a page shows on it. */
  lemma SliceMoves(rows: seq<Row>, chosen: set<Row>, offset: nat, limit: nat, p: nat)
    requires NoRepeats(rows) && p < offset < |rows| && 1 <= limit && rows[p] !in chosen
    ensures Slice(Pick(rows, chosen), offset, limit) != Slice(rows, offset, limit)
  {
    PickMoves(rows, chosen, offset, p);
    SliceFirst(rows, offset, limit);
    SliceFirst(Pick(rows, chosen), offset, limit);
  }

  /** A row left out of a page is missing from it. */
  lemma SliceMisses(rows: seq<Row>, chosen: set<Row>, offset: nat, limit: nat, p: nat)
    requires offset <= p < offset + limit && p < |rows| && rows[p] !in chosen
    ensures Slice(Pick(rows, chosen), offset, limit) != Slice(rows, offset, limit)
  {
    var page, picked := Slice(rows, offset, limit), Slice(Pick(rows, chosen), offset, limit);
    assert page[p - offset] == rows[p];
    if p - offset < |picked| {
      assert picked[p - offset] == Pick(rows, chosen)[p];
      assert Pick(rows, chosen)[p] in Pick(rows, chosen);
    }
  }

  lemma SliceFirst(rows: seq<Row>, offset: nat, limit: nat)
    requires 1 <= limit
    ensures offset < |rows| ==> Slice(rows, offset, limit) != [] && Slice(rows, offset, limit)[0] == rows[offset]
    ensures offset >= |rows| ==> Slice(rows, offset, limit) == []
  {
  }

  /** A page of the rows picked is the page of all rows exactly when no row up to its end was left
      out, or there is no row that far. */
  lemma SlicePick(rows: seq<Row>, chosen: set<Row>, offset: nat, limit: nat)
    requires NoRepeats(rows) && 1 <= limit
    ensures Slice(Pick(rows, chosen), offset, limit) == Slice(rows, offset, limit) <==>
            offset >= |rows| || AllIn(Take(rows, offset + limit), chosen)
  {
    if AllIn(Take(rows, offset + limit), chosen) {
      TakePick(rows, chosen, offset + limit);
      SliceOfTake(rows, Pick(rows, chosen), offset, limit);
    } else if offset < |rows| {
      var p :| 0 <= p < |Take(rows, offset + limit)| && rows[p] !in chosen;
      if p < offset {
        SliceMoves(rows, chosen, offset, limit, p);
      } else {
        SliceMisses(rows, chosen, offset, limit, p);
      }
    }
  }

  lemma SliceOfTake(all: seq<Row>, some: seq<Row>, offset: nat, limit: nat)
    requires Take(all, offset + limit) == Take(some, offset + limit)
    ensures Slice(all, offset, limit) == Slice(some, offset, limit)
  {
    assert |Take(all, offset + limit)| == |Take(some, offset + limit)|;
  }
}
