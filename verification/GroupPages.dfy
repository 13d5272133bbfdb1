/** The pages of the group list, and what a client sees that follows them to the end. */
module GroupPages {
  import opened RowSorting
  import opened MergedPaging

  datatype Page<+G> = Page(groups: seq<G>, total: nat, limit: nat, offset: nat, nextOffset: nat, hasMore: bool)

  /** Every row fetched so far is known with a root that has its id. */
  ghost predicate Rooted(heads: seq<seq<Row>>, tasks: seq<Row>, taskRoots: map<string, nat>) {
    && (forall row :: row in tasks ==> row.id in taskRoots)
    && (forall id :: id in taskRoots ==> taskRoots[id] < |heads| && HasId(heads[taskRoots[id]], id))
  }

  ghost predicate HasId(rows: seq<Row>, id: string) {
    exists row :: row in rows && row.id == id
  }

  method FetchRoots(lists: seq<seq<Row>>, fetchLimit: nat)
    returns (tasks: seq<Row>, taskRoots: map<string, nat>, total: nat)
    ensures tasks == Concat(Heads(lists, Clamped(fetchLimit))) && total == |Concat(lists)|
    ensures Rooted(lists, tasks, taskRoots)
  {
    tasks, taskRoots, total := [], map[], 0;
    for r := 0 to |lists|
      invariant tasks == Concat(Heads(lists[..r], Clamped(fetchLimit))) && total == |Concat(lists[..r])|
      invariant Rooted(lists, tasks, taskRoots)
    {
      var items := Take(lists[r], Clamped(fetchLimit));
      assert lists[..r + 1][..r] == lists[..r];
      assert Heads(lists[..r + 1], Clamped(fetchLimit))[..r] == Heads(lists[..r], Clamped(fetchLimit));
      total := total + |lists[r]|;
      ghost var before := tasks;
      tasks := tasks + items;
      taskRoots := NoteRoot(lists, before, items, r, taskRoots);
    }
    assert lists[..|lists|] == lists;
  }

  method NoteRoot(ghost lists: seq<seq<Row>>, ghost before: seq<Row>, items: seq<Row>, r: nat, known: map<string, nat>)
    returns (taskRoots: map<string, nat>)
    requires r < |lists| && (forall row :: row in items ==> row in lists[r])
    requires Rooted(lists, before, known)
    ensures Rooted(lists, before + items, taskRoots)
  {
    taskRoots := known;
    for n := 0 to |items|
      invariant Rooted(lists, before + items[..n], taskRoots)
    {
      assert items[n] in lists[r] && HasId(lists[r], items[n].id);
      assert before + items[..n + 1] == before + items[..n] + [items[n]];
      taskRoots := taskRoots[items[n].id := r];
    }
    assert items[..|items|] == items;
  }

  /** A summary was made of a visible row with that id, for the root known for the id. */
  ghost predicate SummaryMade<G(!new)>(visible: seq<Row>, taskRoots: map<string, nat>, summarize: (nat, Row) -> G,
                                       id: string, group: G) {
    id in taskRoots && exists row :: row in visible && row.id == id && group == summarize(taskRoots[id], row)
  }

  method Summarize<G(!new)>(roots: nat, visible: seq<Row>, taskRoots: map<string, nat>, summarize: (nat, Row) -> G)
    returns (summaries: map<string, G>)
    requires forall row :: row in visible ==> row.id in taskRoots && taskRoots[row.id] < roots
    ensures forall row :: row in visible ==> row.id in summaries
    ensures forall id :: id in summaries ==> SummaryMade(visible, taskRoots, summarize, id, summaries[id])
  {
    summaries := map[];
    for r := 0 to roots
      invariant forall row :: row in visible && taskRoots[row.id] < r ==> row.id in summaries
      invariant forall id :: id in summaries ==> SummaryMade(visible, taskRoots, summarize, id, summaries[id])
    {
      for n := 0 to |visible|
        invariant forall row :: row in visible && taskRoots[row.id] < r ==> row.id in summaries
        invariant forall i :: 0 <= i < n && taskRoots[visible[i].id] == r ==> visible[i].id in summaries
        invariant forall id :: id in summaries ==> SummaryMade(visible, taskRoots, summarize, id, summaries[id])
      {
        var row := visible[n];
        if taskRoots[row.id] == r {
          assert SummaryMade(visible, taskRoots, summarize, row.id, summarize(r, row));
          summaries := summaries[row.id := summarize(r, row)];
        }
      }
    }
  }

  ghost predicate InSome(lists: seq<seq<Row>>, row: Row) {
    exists r: nat :: r < |lists| && row in lists[r]
  }

  /** Every shown row was fetched, from some root. */
  lemma ShownFrom(lists: seq<seq<Row>>, offset: nat, limit: nat)
    ensures forall row :: row in MergedSlice(lists, offset, limit) ==>
      row in Concat(Heads(lists, Clamped(offset + limit))) && InSome(lists, row)
  {
    var heads := Heads(lists, Clamped(offset + limit));
    StableSortIsStable(Concat(heads));
    forall row | row in MergedSlice(lists, offset, limit) ensures row in Concat(heads) && InSome(lists, row) {
      assert row in StableSort(Concat(heads));
      ConcatFrom(heads, row);
      var r: nat :| r < |heads| && row in heads[r];
      assert row in lists[r];
    }
  }

  /** Every group shown is the summary that its own root makes of its row. */
  ghost predicate OwnGroups<G(!new)>(lists: seq<seq<Row>>, rows: seq<Row>, groups: seq<G>, summarize: (nat, Row) -> G) {
    |groups| == |rows| && forall i, r: nat {:trigger rows[i] in lists[r]} ::
      0 <= i < |rows| && r < |lists| && rows[i] in lists[r] ==> groups[i] == summarize(r, rows[i])
  }

  /** The merge of several roots: fetch the first rows of each, sort, cut, and summarize every
      shown row with its own root. */
  method ListMergedGroups<G(!new)>(lists: seq<seq<Row>>, limit: nat, offset: nat, summarize: (nat, Row) -> G,
                                   plain: Row -> G)
    returns (page: Page<G>, rows: seq<Row>)
    ensures rows == MergedSlice(lists, offset, limit)
    ensures page == PageOf(page.groups, |Concat(lists)|, limit, offset) && |page.groups| == |rows|
    ensures DistinctIds(lists) ==> OwnGroups(lists, rows, page.groups, summarize)
  {
    var fetched, taskRoots, total := FetchRoots(lists, offset + limit);
    rows := Slice(StableSort(fetched), offset, limit);
    assert rows == MergedSlice(lists, offset, limit);
    ShownFrom(lists, offset, limit);
    forall row | row in rows ensures row.id in taskRoots && taskRoots[row.id] < |lists| {
      assert row in fetched;
    }
    var summaries := Summarize(|lists|, rows, taskRoots, summarize);
    var groups := seq(|rows|, i requires 0 <= i < |rows| =>
      if rows[i].id in summaries then summaries[rows[i].id] else plain(rows[i]));
    if DistinctIds(lists) {
      OwnRoots(lists, rows, fetched, taskRoots, summarize, summaries);
    }
    page := PageOf(groups, total, limit, offset);
  }

  lemma OwnRoot<G(!new)>(lists: seq<seq<Row>>, rows: seq<Row>, fetched: seq<Row>, taskRoots: map<string, nat>,
                         summarize: (nat, Row) -> G, summaries: map<string, G>, i: nat, r: nat)
    requires DistinctIds(lists) && Rooted(lists, fetched, taskRoots)
    requires forall row :: row in rows ==> row.id in summaries && InSome(lists, row)
    requires forall id :: id in summaries ==> SummaryMade(rows, taskRoots, summarize, id, summaries[id])
    requires i < |rows| && r < |lists| && rows[i] in lists[r]
    ensures summaries[rows[i].id] == summarize(r, rows[i])
  {
    var id := rows[i].id;
    assert rows[i] in rows && SummaryMade(rows, taskRoots, summarize, id, summaries[id]);
    var made :| made in rows && made.id == id && summaries[id] == summarize(taskRoots[id], made);
    var s: nat :| s < |lists| && made in lists[s];
    var other :| other in lists[taskRoots[id]] && other.id == id;
  }

  lemma OwnRoots<G(!new)>(lists: seq<seq<Row>>, rows: seq<Row>, fetched: seq<Row>, taskRoots: map<string, nat>,
                          summarize: (nat, Row) -> G, summaries: map<string, G>)
    requires DistinctIds(lists) && Rooted(lists, fetched, taskRoots)
    requires forall row :: row in rows ==> row.id in summaries && InSome(lists, row)
    requires forall id :: id in summaries ==> SummaryMade(rows, taskRoots, summarize, id, summaries[id])
    ensures forall i, r: nat :: 0 <= i < |rows| && r < |lists| && rows[i] in lists[r] ==>
      summaries[rows[i].id] == summarize(r, rows[i])
  {
    forall i, r: nat | 0 <= i < |rows| && r < |lists| && rows[i] in lists[r]
      ensures summaries[rows[i].id] == summarize(r, rows[i])
    {
      OwnRoot(lists, rows, fetched, taskRoots, summarize, summaries, i, r);
    }
  }

  function PageOf<G>(groups: seq<G>, total: nat, limit: nat, offset: nat): Page<G> {
    Page(groups, total, limit, offset, offset + |groups|, offset + |groups| < total)
  }

  function BoundedLimit(limit: int): nat {
    if Min(limit, 500) < 1 then 1 else Min(limit, 500)
  }

  function BoundedOffset(offset: int): nat {
    if offset < 0 then 0 else offset
  }

  /** The rows of a page: of the only root in its own order, or of the merge of several. */
  function PageRows(lists: seq<seq<Row>>, offset: nat, limit: nat): seq<Row> {
    if |lists| == 0 then []
    else if |lists| == 1 then Slice(lists[0], offset, limit)
    else MergedSlice(lists, offset, limit)
  }

  lemma OneRoot(lists: seq<seq<Row>>)
    requires |lists| == 1
    ensures Concat(lists) == lists[0]
  {
    assert lists[..0] == [];
  }

  /** With roots in merge order a page is the page of all groups for up to one root, up to the fetch
      limit, and when no root is longer than one fetch; then it says there is more exactly when
      there is. */
  lemma PageRight(lists: seq<seq<Row>>, offset: nat, limit: nat)
    requires InMergeOrder(lists) && 1 <= limit && (|lists| <= 1 || offset + limit <= FETCH_LIMIT || ShortRoots(lists))
    ensures PageRows(lists, offset, limit) == GlobalSlice(lists, offset, limit)
    ensures offset + |PageRows(lists, offset, limit)| < |Concat(lists)| <==> offset + limit < |Concat(lists)|
  {
    StableSortIsStable(Concat(lists));
    if |lists| == 1 {
      OneRoot(lists);
      SortedStays(lists[0]);
    } else if |lists| > 1 {
      if offset + limit <= FETCH_LIMIT {
        MergeIsSlice(lists, offset, limit);
      } else {
        ShortRootsRight(lists, offset, limit);
      }
    }
  }

  /** One root pages itself. */
  method ListSingleRoot<G(!new)>(list: seq<Row>, limit: nat, offset: nat, summarize: (nat, Row) -> G)
    returns (page: Page<G>, rows: seq<Row>)
    ensures rows == PageRows([list], offset, limit)
    ensures page == PageOf(page.groups, |list|, limit, offset) && OwnGroups([list], rows, page.groups, summarize)
  {
    rows := Slice(list, offset, limit);
    page := PageOf(seq(|rows|, i requires 0 <= i < |rows| => summarize(0, rows[i])), |list|, limit, offset);
  }

  /** The fields of a page: the limit asked for, between one and five hundred, the offset asked for, not
      below zero, and where the next page begins, if there is one. */
  ghost predicate Describes<G>(page: Page<G>, total: nat, limit: int, offset: int) {
    && 1 <= page.limit <= 500 && (1 <= limit <= 500 ==> page.limit == limit)
    && (limit > 500 ==> page.limit == 500) && (limit < 1 ==> page.limit == 1)
    && (offset >= 0 ==> page.offset == offset) && (offset < 0 ==> page.offset == 0)
    && page.total == total && page.nextOffset - page.offset == |page.groups|
    && (page.hasMore <==> page.nextOffset < page.total)
  }

  /** The page of the groups of all roots. */
  method ListGroups<G(!new)>(lists: seq<seq<Row>>, limit: int, offset: int, summarize: (nat, Row) -> G, plain: Row -> G)
    returns (page: Page<G>, rows: seq<Row>)
    ensures rows == PageRows(lists, page.offset, page.limit)
    ensures Describes(page, |Concat(lists)|, limit, offset)
    ensures DistinctIds(lists) ==> OwnGroups(lists, rows, page.groups, summarize)
    ensures |page.groups| == |rows|
  {
    var boundedLimit, boundedOffset := BoundedLimit(limit), BoundedOffset(offset);
    if |lists| == 0 {
      return Page([], 0, boundedLimit, boundedOffset, boundedOffset, false), [];
    }
    if |lists| == 1 {
      OneRoot(lists);
      page, rows := ListSingleRoot(lists[0], boundedLimit, boundedOffset, summarize);
      assert lists == [lists[0]];
      return;
    }
    page, rows := ListMergedGroups(lists, boundedLimit, boundedOffset, summarize, plain);
  }

  // ----- Following the pages

  /** The rows on the pages from this offset on: the client asks again while there is more and the
      next offset is a new one. */
  function Walk(pages: nat -> seq<Row>, total: nat, offset: nat): seq<Row>
    decreases total - offset
  {
    var rows := pages(offset);
    if rows == [] || offset + |rows| >= total then rows else rows + Walk(pages, total, offset + |rows|)
  }

  /** The pages come to one that says there is no more. */
  predicate Ends(pages: nat -> seq<Row>, total: nat, offset: nat)
    decreases total - offset
  {
    var rows := pages(offset);
    offset + |rows| >= total || (rows != [] && Ends(pages, total, offset + |rows|))
  }

  /** When every page before the end shows something, the pages end. */
  lemma {:induction false} WalkEnds(pages: nat -> seq<Row>, total: nat, offset: nat)
    requires forall o: nat :: o < total ==> pages(o) != []
    ensures Ends(pages, total, offset)
    decreases total - offset
  {
    if offset + |pages(offset)| < total {
      WalkEnds(pages, total, offset + |pages(offset)|);
    }
  }

  /** When no page reaches the last group, a page comes that is empty and says there is more. */
  lemma {:induction false} WalkStuck(pages: nat -> seq<Row>, total: nat, offset: nat)
    requires offset < total && forall o: nat :: o < total ==> o + |pages(o)| < total
    ensures !Ends(pages, total, offset) && offset + |Walk(pages, total, offset)| < total
    decreases total - offset
  {
    if pages(offset) != [] {
      WalkStuck(pages, total, offset + |pages(offset)|);
    }
  }

  /** When every page is the slice of these rows, the walk lists the rest of them. */
  lemma {:induction false} WalkRest(pages: nat -> seq<Row>, offset: nat, limit: nat, all: seq<Row>)
    requires 1 <= limit && offset <= |all| && forall o: nat :: pages(o) == Slice(all, o, limit)
    ensures Walk(pages, |all|, offset) == all[offset..] && Ends(pages, |all|, offset)
    decreases |all| - offset
  {
    var rows := pages(offset);
    assert rows == Slice(all, offset, limit) == all[offset..offset + |rows|];
    if offset + |rows| < |all| {
      WalkRest(pages, offset + |rows|, limit, all);
      assert all[offset..] == rows + all[offset + |rows|..];
    } else {
      assert all[offset..] == rows;
    }
  }

  /** What the client is served for each offset. */
  function PagesOf(lists: seq<seq<Row>>, limit: nat): nat -> seq<Row> {
    (offset: nat) => PageRows(lists, offset, limit)
  }

  lemma PageSize(lists: seq<seq<Row>>, offset: nat, limit: nat)
    requires |lists| > 1 && 1 <= limit
    ensures var n := |Fetched(lists, offset, limit)|;
            |PageRows(lists, offset, limit)| == Min(offset + limit, n) - Min(offset, n)
  {
    StableSortIsStable(Fetched(lists, offset, limit));
  }

  lemma {:induction false} HeadsSize(lists: seq<seq<Row>>, m: nat, n: nat)
    requires m <= n
    ensures |Concat(Heads(lists, m))| <= |Concat(Heads(lists, n))| <= |Concat(lists)|
  {
    if lists != [] {
      var less := lists[..|lists| - 1];
      HeadsSize(less, m, n);
      assert Heads(lists, m)[..|lists| - 1] == Heads(less, m) && Heads(lists, n)[..|lists| - 1] == Heads(less, n);
    }
  }

  lemma {:induction false} HeadsMiss(lists: seq<seq<Row>>, r: nat, n: nat)
    requires r < |lists| && |lists[r]| > n
    ensures n <= |Concat(Heads(lists, n))| < |Concat(lists)|
  {
    var less := lists[..|lists| - 1];
    HeadsSize(less, n, n);
    assert Heads(lists, n)[..|lists| - 1] == Heads(less, n);
    if r < |less| {
      HeadsMiss(less, r, n);
    }
  }

  /** When no root is longer than one fetch, every page before the end shows something. */
  lemma PageAdvances(lists: seq<seq<Row>>, offset: nat, limit: nat)
    requires |lists| > 1 && 1 <= limit && ShortRoots(lists) && offset < |Concat(lists)|
    ensures PageRows(lists, offset, limit) != []
  {
    var k := Clamped(offset + limit);
    PageSize(lists, offset, limit);
    if r: nat :| r < |lists| && |lists[r]| > k {
      HeadsMiss(lists, r, k);
    } else {
      HeadsWhole(lists, k);
    }
  }

  /** When some root is, no page reaches the last group. */
  lemma PageStops(lists: seq<seq<Row>>, offset: nat, limit: nat)
    requires |lists| > 1 && 1 <= limit && !ShortRoots(lists) && offset < |Concat(lists)|
    ensures offset + |PageRows(lists, offset, limit)| < |Concat(lists)|
  {
    var r: nat :| r < |lists| && |lists[r]| > FETCH_LIMIT;
    HeadsMiss(lists, r, FETCH_LIMIT);
    HeadsSize(lists, Clamped(offset + limit), FETCH_LIMIT);
    PageSize(lists, offset, limit);
  }

  /** Following the pages of several roots from the start comes to an end exactly when no root is
      longer than one fetch; otherwise a page comes that is empty and says there is more. */
  lemma EndsExactly(lists: seq<seq<Row>>, limit: nat)
    requires |lists| > 1 && 1 <= limit
    ensures Ends(PagesOf(lists, limit), |Concat(lists)|, 0) <==> ShortRoots(lists)
    ensures !ShortRoots(lists) ==> |Walk(PagesOf(lists, limit), |Concat(lists)|, 0)| < |Concat(lists)|
  {
    var pages, total := PagesOf(lists, limit), |Concat(lists)|;
    if ShortRoots(lists) {
      forall o: nat | o < total ensures pages(o) != [] {
        PageAdvances(lists, o, limit);
      }
      WalkEnds(pages, total, 0);
    } else {
      var r: nat :| r < |lists| && |lists[r]| > FETCH_LIMIT;
      HeadsMiss(lists, r, FETCH_LIMIT);
      forall o: nat | o < total ensures o + |pages(o)| < total {
        PageStops(lists, o, limit);
      }
      WalkStuck(pages, total, 0);
    }
  }

  /** One root's pages list all its groups, in its own order. */
  lemma WalkOneRoot(lists: seq<seq<Row>>, limit: nat)
    requires |lists| == 1 && 1 <= limit
    ensures Walk(PagesOf(lists, limit), |Concat(lists)|, 0) == lists[0]
    ensures Ends(PagesOf(lists, limit), |Concat(lists)|, 0)
  {
    OneRoot(lists);
    WalkRest(PagesOf(lists, limit), 0, limit, lists[0]);
  }

  /** Following the pages of several roots from the start lists every group, each once and in order,
      exactly when no root is longer than one fetch. */
  lemma WalkListsAll(lists: seq<seq<Row>>, limit: nat)
    requires |lists| > 1 && InMergeOrder(lists) && 1 <= limit
    ensures Walk(PagesOf(lists, limit), |Concat(lists)|, 0) == StableSort(Concat(lists)) <==> ShortRoots(lists)
  {
    var pages, all := PagesOf(lists, limit), StableSort(Concat(lists));
    StableSortIsStable(Concat(lists));
    EndsExactly(lists, limit);
    if ShortRoots(lists) {
      forall o: nat ensures pages(o) == Slice(all, o, limit) {
        PageRight(lists, o, limit);
      }
      WalkRest(pages, 0, limit, all);
    }
  }
}
