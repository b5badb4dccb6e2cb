/**
 Pages of the job history, newest first, and what a reader sees who follows the cursors.

 A cursor holds the last key shown and the first key of the first page. The second is a cutoff: it
 keeps out what was saved after the first page, from the pages and from the total.
 */
module JobHistory {
  import opened Common
  import opened Keyset

  datatype Job = Job(id: string, owner: string, created: int, status: string, auditType: string,
                     project: Option<string>, asset: Option<string>)

  datatype Filter = Filter(owner: string, status: Option<string>, auditType: Option<string>,
                           project: Option<string>, asset: Option<string>)

  datatype Cursor = Cursor(boundary: TimeKey, cutoff: TimeKey)

  datatype Page = Page(keys: seq<TimeKey>, total: nat, next: Option<Cursor>)

  const MAX_PAGE_SIZE := 100

  predicate Wants<T(==)>(wanted: Option<T>, value: T) {
    wanted.None? || wanted.value == value
  }

  predicate Selects(filter: Filter, job: Job) {
    && job.owner == filter.owner && Wants(filter.status, job.status) && Wants(filter.auditType, job.auditType)
    && (filter.project.None? || job.project == filter.project) && (filter.asset.None? || job.asset == filter.asset)
  }

  function KeyOf(job: Job): TimeKey {
    TimeKey(job.created, job.id)
  }

  function Matching(jobs: map<string, Job>, filter: Filter): set<TimeKey> {
    set id | id in jobs && Selects(filter, jobs[id]) :: KeyOf(jobs[id])
  }

  /** What is not newer than the cutoff. */
  function UpTo(keys: set<TimeKey>, cutoff: Option<TimeKey>): set<TimeKey> {
    set k | k in keys && (cutoff.None? || k == cutoff.value || Earlier(k, cutoff.value))
  }

  function BoundaryOf(cursor: Option<Cursor>): Option<TimeKey> {
    if cursor.None? then None else Some(cursor.value.boundary)
  }

  function CutoffOf(cursor: Option<Cursor>): Option<TimeKey> {
    if cursor.None? then None else Some(cursor.value.cutoff)
  }

  /** The page behind `cursor` of a table with the given matching keys. */
  function PageBehind(keys: set<TimeKey>, size: nat, cursor: Option<Cursor>): Page
    requires size > 0
  {
    var visible := UpTo(keys, CutoffOf(cursor));
    var rest := Newest(Behind(visible, BoundaryOf(cursor)));
    var shown := Take(size, rest);
    Page(shown, |visible|,
         if |rest| <= size then None
         else Some(Cursor(shown[size - 1], if cursor.None? then shown[0] else cursor.value.cutoff)))
  }

  /******* What a caller gets *******/

  predicate IsWanted(filter: Filter, job: Job) {
    && job.owner == filter.owner
    && (filter.status.Some? ==> job.status == filter.status.value)
    && (filter.auditType.Some? ==> job.auditType == filter.auditType.value)
    && (filter.project.Some? ==> job.project == filter.project)
    && (filter.asset.Some? ==> job.asset == filter.asset)
  }

  /** The wanted jobs that are not newer than the cutoff. */
  function VisibleJobs(jobs: map<string, Job>, filter: Filter, cursor: Option<Cursor>): set<TimeKey> {
    set id | id in jobs && IsWanted(filter, jobs[id])
      && (cursor.Some? ==> !Earlier(cursor.value.cutoff, TimeKey(jobs[id].created, jobs[id].id))) ::
      TimeKey(jobs[id].created, jobs[id].id)
  }

  /** The newest `size` of the keys behind the boundary, newest first, or all of them. */
  ghost predicate ListsNewest(keys: seq<TimeKey>, visible: set<TimeKey>, cursor: Option<Cursor>, size: nat) {
    && |keys| <= size && Ascending(keys, Later)
    && (forall key | key in keys :: key in visible && (cursor.Some? ==> Earlier(key, cursor.value.boundary)))
    && (forall key | key in visible && (cursor.Some? ==> Earlier(key, cursor.value.boundary)) && key !in keys ::
          |keys| == size && forall shown | shown in keys :: Earlier(key, shown))
  }

  /** There is a next page exactly if something is left; its cursor keeps the first key shown as the cutoff. */
  ghost predicate LeadsOn(keys: seq<TimeKey>, visible: set<TimeKey>, cursor: Option<Cursor>, next: Option<Cursor>) {
    && (next.Some? <==>
          exists key :: key in visible && (cursor.Some? ==> Earlier(key, cursor.value.boundary)) && key !in keys)
    && (next.Some? ==>
          && keys != [] && next.value.boundary == keys[|keys| - 1]
          && next.value.cutoff == if cursor.Some? then cursor.value.cutoff else keys[0])
  }

  lemma VisibleExactly(jobs: map<string, Job>, filter: Filter, cursor: Option<Cursor>)
    ensures UpTo(Matching(jobs, filter), CutoffOf(cursor)) == VisibleJobs(jobs, filter, cursor)
  {
    TimeKeysAreOrdered();
    assert forall id | id in jobs :: Selects(filter, jobs[id]) <==> IsWanted(filter, jobs[id]);
  }

  lemma PageListsNewest(keys: set<TimeKey>, size: nat, cursor: Option<Cursor>)
    requires size > 0
    ensures
      var page, visible := PageBehind(keys, size, cursor), UpTo(keys, CutoffOf(cursor));
      ListsNewest(page.keys, visible, cursor, size) && LeadsOn(page.keys, visible, cursor, page.next)
  {
    var visible := UpTo(keys, CutoffOf(cursor));
    var rest := Newest(Behind(visible, BoundaryOf(cursor)));
    TimeKeysAreOrdered();
    TakenFirst(rest, size, Later);
    forall key
      ensures key in rest <==> key in visible && (cursor.Some? ==> Earlier(key, cursor.value.boundary))
    {
      ElementsOfNewest(Behind(visible, BoundaryOf(cursor)), key);
    }
  }

  lemma PageOfJobs(jobs: map<string, Job>, filter: Filter, size: nat, cursor: Option<Cursor>)
    requires size > 0
    ensures
      var page, visible := PageBehind(Matching(jobs, filter), size, cursor), VisibleJobs(jobs, filter, cursor);
      ListsNewest(page.keys, visible, cursor, size) && LeadsOn(page.keys, visible, cursor, page.next) && page.total == |visible|
  {
    PageListsNewest(Matching(jobs, filter), size, cursor);
    VisibleExactly(jobs, filter, cursor);
  }

  class ActiveJobIndex {
    /** The table, which agrees with the job files, and the files. */
    var rows: map<string, Job>
    var files: map<string, Job>

    constructor (found: map<string, Job>)
      ensures files == found && rows == found
    {
      rows, files := found, found;
    }

    /** The records of the selected rows, each compared with its row; of a table that agrees with the files none is refused. */
    method LoadSelected(filter: Filter, selected: seq<TimeKey>) returns (loaded: Option<seq<Job>>)
      requires rows == files && forall id | id in files :: files[id].id == id
      requires forall i | 0 <= i < |selected| :: selected[i] in Matching(files, filter)
      ensures loaded.Some? && |loaded.value| == |selected|
      ensures forall i | 0 <= i < |selected| ::
        selected[i].id in files && loaded.value[i] == files[selected[i].id] && KeyOf(loaded.value[i]) == selected[i]
    {
      var read := [];
      for i := 0 to |selected|
        invariant |read| == i
        invariant forall j | 0 <= j < i ::
          selected[j].id in files && read[j] == files[selected[j].id] && KeyOf(read[j]) == selected[j]
      {
        var record := files[selected[i].id];
        if !Selects(filter, record) || record != rows[selected[i].id] { return None; }
        read := read + [record];
      }
      return Some(read);
    }

    /** One page: the rows are counted, one row more than the page is read, and each record is loaded and compared. */
    method ReadPage(filter: Filter, size: int, cursor: Option<Cursor>)
      returns (records: Option<seq<Job>>, total: nat, next: Option<Cursor>)
      requires rows == files && forall id | id in files :: files[id].id == id
      ensures records.Some? <==> 1 <= size <= 100
      ensures records.Some? ==>
        var page := PageBehind(Matching(files, filter), size, cursor);
        && total == page.total && next == page.next && |records.value| == |page.keys|
        && forall i | 0 <= i < |page.keys| ::
             page.keys[i].id in files && records.value[i] == files[page.keys[i].id] && KeyOf(records.value[i]) == page.keys[i]
      ensures records.Some? ==>
        var keys, visible := PageBehind(Matching(files, filter), size, cursor).keys, VisibleJobs(files, filter, cursor);
        ListsNewest(keys, visible, cursor, size) && LeadsOn(keys, visible, cursor, next) && total == |visible|
    {
      if !(1 <= size <= MAX_PAGE_SIZE) { return None, 0, None; }
      PageOfJobs(files, filter, size, cursor);
      var visible := UpTo(Matching(rows, filter), CutoffOf(cursor));
      total := |visible|;
      var sorted := Newest(Behind(visible, BoundaryOf(cursor)));
      var read := Take(size + 1, sorted);
      var selected := Take(size, read);
      assert selected == Take(size, sorted);
      assert forall i | 0 <= i < |selected| :: selected[i] in Elements(sorted);
      var found := LoadSelected(filter, selected);
      if found.None? { return None, total, None; }
      var loaded := found.value;
      next := None;
      if |read| > size {
        var last := loaded[|loaded| - 1];
        next := Some(Cursor(KeyOf(last), if cursor.Some? then cursor.value.cutoff else selected[0]));
      }
      return Some(loaded), total, next;
    }
  }

  /******* Following the cursors *******/

  /** Each page after the first is read with the cursor of the one before, from the table of its moment. */
  predicate FollowsOn(table: set<TimeKey>, previous: Page, page: Page, size: nat)
    requires size > 0
  {
    previous.next.Some? && page == PageBehind(table, size, previous.next)
  }

  predicate Followed(tables: seq<set<TimeKey>>, pages: seq<Page>, size: nat)
    requires size > 0
  {
    && |tables| == |pages| && pages != []
    && pages[0] == PageBehind(tables[0], size, None)
    && forall i | 0 < i < |pages| :: FollowsOn(tables[i], pages[i - 1], pages[i], size)
  }

  /** Between the pages only jobs newer than the first one shown are saved. */
  predicate OnlyNewerSaved(tables: seq<set<TimeKey>>) {
    && tables != []
    && (tables[0] != {} ==> forall i | 0 <= i < |tables| :: UpTo(tables[i], Some(First(tables[0]))) == tables[0])
  }

  function First(keys: set<TimeKey>): TimeKey
    requires keys != {}
  {
    var sorted := Newest(keys);
    assert sorted != [] by { assert Elements(sorted) == keys; }
    sorted[0]
  }

  function Joined(pages: seq<Page>): seq<TimeKey> {
    if pages == [] then [] else Joined(pages[..|pages| - 1]) + pages[|pages| - 1].keys
  }

  /** The keys strictly older than the n-th are the tail of the order. */
  lemma NewestBehind(keys: set<TimeKey>, all: seq<TimeKey>, n: nat)
    requires all == Newest(keys) && 0 < n <= |all|
    ensures Newest(Behind(keys, Some(all[n - 1]))) == all[n..]
  {
    TimeKeysAreOrdered();
    SortedPast(keys, Later, n - 1, Behind(keys, Some(all[n - 1])));
  }

  lemma PageFromStart(keys: set<TimeKey>, all: seq<TimeKey>, size: nat)
    requires size > 0 && all == Newest(keys)
    ensures
      var page := PageBehind(keys, size, None);
      && page.keys == Take(size, all) && page.total == |keys|
      && (page.next.Some? <==> |page.keys| < |all|)
      && (page.next.Some? ==> page.keys != [] && page.next.value == Cursor(all[|page.keys| - 1], all[0]))
  {
    assert UpTo(keys, None) == keys && Behind(keys, None) == keys;
  }

  /** The page is the stretch of the order from `n` on, and its cursor points at the end of the stretch. */
  predicate Continues(all: seq<TimeKey>, n: nat, page: Page) {
    && n + |page.keys| <= |all| && page.keys == all[n..n + |page.keys|] && page.total == |all|
    && (page.next.Some? <==> n + |page.keys| < |all|)
    && (page.next.Some? ==> |page.keys| > 0 && page.next.value == Cursor(all[n + |page.keys| - 1], all[0]))
  }

  lemma PageFromCursor(keys: set<TimeKey>, table: set<TimeKey>, all: seq<TimeKey>, size: nat, n: nat)
    requires size > 0 && all == Newest(keys) && 0 < n < |all| && UpTo(table, Some(all[0])) == keys
    ensures Continues(all, n, PageBehind(table, size, Some(Cursor(all[n - 1], all[0]))))
  {
    var rest := Newest(Behind(keys, Some(all[n - 1])));
    assert rest == all[n..] by { NewestBehind(keys, all, n); }
    assert |keys| == |all| by { SortedHasEach(all); }
    StretchContinues(all, n, size, all[0]);
  }

  lemma StretchContinues(all: seq<TimeKey>, n: nat, size: nat, cutoff: TimeKey)
    requires size > 0 && n <= |all| && all != [] && cutoff == all[0]
    ensures
      var shown := Take(size, all[n..]);
      Continues(all, n, Page(shown, |all|, if |all[n..]| <= size then None else Some(Cursor(shown[size - 1], cutoff))))
  {
  }

  /** What was shown so far is a front part of the order, and the page's cursor points at its end. */
  predicate ShowsFront(all: seq<TimeKey>, shown: seq<TimeKey>, page: Page) {
    && |shown| <= |all| && shown == all[..|shown|] && page.total == |all|
    && (page.next.Some? <==> |shown| < |all|)
    && (page.next.Some? ==> |shown| > 0 && page.next.value == Cursor(all[|shown| - 1], all[0]))
  }

  lemma {:induction false} SortedHasEach(s: seq<TimeKey>)
    requires Ascending(s, Later)
    ensures |Elements(s)| == |s|
    decreases |s|
  {
    if s != [] {
      var rest := s[..|s| - 1];
      SortedHasEach(rest);
      assert s == rest + [s[|s| - 1]];
      TimeKeysAreOrdered();
      assert s[|s| - 1] !in rest;
      assert Elements(s) == Elements(rest) + {s[|s| - 1]};
    }
  }

  lemma FrontStarts(keys: set<TimeKey>, all: seq<TimeKey>, size: nat)
    requires size > 0 && all == Newest(keys)
    ensures ShowsFront(all, PageBehind(keys, size, None).keys, PageBehind(keys, size, None))
  {
    PageFromStart(keys, all, size);
    SortedHasEach(all);
  }

  lemma FrontGrows(all: seq<TimeKey>, shown: seq<TimeKey>, previous: Page, page: Page)
    requires ShowsFront(all, shown, previous) && Continues(all, |shown|, page)
    ensures ShowsFront(all, shown + page.keys, page)
  {
    assert shown + page.keys == all[..|shown| + |page.keys|];
  }

  lemma FrontStep(
    keys: set<TimeKey>, table: set<TimeKey>, all: seq<TimeKey>, size: nat, shown: seq<TimeKey>, previous: Page, page: Page)
    requires size > 0 && all == Newest(keys) && ShowsFront(all, shown, previous) && FollowsOn(table, previous, page, size)
    requires UpTo(table, Some(all[0])) == keys
    ensures ShowsFront(all, shown + page.keys, page)
  {
    PageFromCursor(keys, table, all, size, |shown|);
    FrontGrows(all, shown, previous, page);
  }

  lemma JoinedNext(pages: seq<Page>, n: nat)
    requires n < |pages|
    ensures Joined(pages[..n + 1]) == Joined(pages[..n]) + pages[n].keys
  {
    assert pages[..n + 1][..n] == pages[..n];
  }

  /** After any number of pages exactly a front part of the first snapshot was shown, in its order. */
  lemma {:induction false} PagesShowAFront(tables: seq<set<TimeKey>>, pages: seq<Page>, size: nat, n: nat)
    requires size > 0 && Followed(tables, pages, size) && OnlyNewerSaved(tables) && n < |pages|
    ensures ShowsFront(Newest(tables[0]), Joined(pages[..n + 1]), pages[n])
    decreases n
  {
    var all := Newest(tables[0]);
    JoinedNext(pages, n);
    if n == 0 {
      FrontStarts(tables[0], all, size);
    } else {
      PagesShowAFront(tables, pages, size, n - 1);
      SnapshotStays(tables, n);
      FrontStep(tables[0], tables[n], all, size, Joined(pages[..n]), pages[n - 1], pages[n]);
    }
  }

  lemma SnapshotStays(tables: seq<set<TimeKey>>, n: nat)
    requires OnlyNewerSaved(tables) && n < |tables| && Newest(tables[0]) != []
    ensures UpTo(tables[n], Some(Newest(tables[0])[0])) == tables[0]
  {
    assert Newest(tables[0])[0] in Elements(Newest(tables[0]));
  }

  /**
   Following the cursors to the end shows every job of the first snapshot exactly once, newest
   first, with the same total on every page, whatever newer jobs are saved meanwhile.
   */
  lemma FollowedToTheEnd(tables: seq<set<TimeKey>>, pages: seq<Page>, size: nat)
    requires size > 0 && Followed(tables, pages, size) && OnlyNewerSaved(tables)
    ensures pages[|pages| - 1].next.None? <==> Joined(pages) == Newest(tables[0])
    ensures Elements(Newest(tables[0])) == tables[0] && Ascending(Newest(tables[0]), Later)
    ensures forall i | 0 <= i < |pages| :: pages[i].total == |tables[0]|
  {
    PagesShowAFront(tables, pages, size, |pages| - 1);
    assert pages[..|pages|] == pages;
    SortedHasEach(Newest(tables[0]));
    forall i | 0 <= i < |pages|
      ensures pages[i].total == |tables[0]|
    {
      PagesShowAFront(tables, pages, size, i);
    }
  }

  /******* Jobs that are changed or deleted meanwhile *******/

  /** The job matches in each of the first `n` tables; its time of creation never changes. */
  predicate StaysIn(tables: seq<set<TimeKey>>, n: nat, key: TimeKey)
    requires n <= |tables|
  {
    forall i | 0 <= i < n :: key in tables[i]
  }

  lemma ElementsOfNewest(keys: set<TimeKey>, key: TimeKey)
    ensures key in Newest(keys) <==> key in keys
  {
    assert key in Newest(keys) <==> key in Elements(Newest(keys));
  }

  /** A page shows what lies behind its boundary, newest first, or leaves it behind the next one. */
  lemma PageShows(table: set<TimeKey>, size: nat, cursor: Option<Cursor>, key: TimeKey)
    requires size > 0 && key in UpTo(table, CutoffOf(cursor)) && IsBehind(key, BoundaryOf(cursor))
    ensures
      var page := PageBehind(table, size, cursor);
      key in page.keys || (page.next.Some? && Earlier(key, page.next.value.boundary))
  {
    var rest := Newest(Behind(UpTo(table, CutoffOf(cursor)), BoundaryOf(cursor)));
    ElementsOfNewest(Behind(UpTo(table, CutoffOf(cursor)), BoundaryOf(cursor)), key);
    var i :| 0 <= i < |rest| && rest[i] == key;
    if i < size {
      assert Take(size, rest)[i] == key;
    } else {
      assert Later(rest[size - 1], rest[i]);
    }
  }

  lemma PageIsOrdered(table: set<TimeKey>, size: nat, cursor: Option<Cursor>)
    requires size > 0
    ensures
      var page := PageBehind(table, size, cursor);
      && Ascending(page.keys, Later)
      && (forall k | k in page.keys :: k in table && IsBehind(k, BoundaryOf(cursor)))
      && (page.next.Some? ==>
            && page.keys != [] && page.next.value.boundary == page.keys[|page.keys| - 1]
            && page.next.value.cutoff == if cursor.None? then page.keys[0] else cursor.value.cutoff)
  {
    var behind := Behind(UpTo(table, CutoffOf(cursor)), BoundaryOf(cursor));
    forall k | k in PageBehind(table, size, cursor).keys
      ensures k in table && IsBehind(k, BoundaryOf(cursor))
    {
      assert k in Newest(behind);
      ElementsOfNewest(behind, k);
    }
  }

  /** What was shown so far, its order, and what is still to come of what stays. */
  ghost predicate ShownSoFar(tables: seq<set<TimeKey>>, n: nat, shown: seq<TimeKey>, page: Page, key: TimeKey)
    requires 0 < n <= |tables|
  {
    && Ascending(shown, Later)
    && (page.next.Some? ==>
          && shown != [] && page.next.value.boundary == shown[|shown| - 1] && page.next.value.cutoff == shown[0])
    && (StaysIn(tables, n, key) ==>
          key in shown || (page.next.Some? && Earlier(key, page.next.value.boundary)))
  }

  lemma FirstPageShown(tables: seq<set<TimeKey>>, page: Page, size: nat, key: TimeKey)
    requires size > 0 && tables != [] && page == PageBehind(tables[0], size, None)
    ensures ShownSoFar(tables, 1, page.keys, page, key)
  {
    PageIsOrdered(tables[0], size, None);
    if key in tables[0] { PageShows(tables[0], size, None, key); }
  }

  lemma BehindIsUpTo(shown: seq<TimeKey>, key: TimeKey)
    requires shown != [] && Ascending(shown, Later) && Earlier(key, shown[|shown| - 1])
    ensures Earlier(key, shown[0])
  {
    TimeKeysAreOrdered();
    assert |shown| == 1 || Later(shown[0], shown[|shown| - 1]);
  }

  lemma NextPageShown(
    tables: seq<set<TimeKey>>, n: nat, shown: seq<TimeKey>, previous: Page, page: Page, size: nat, key: TimeKey)
    requires size > 0 && 0 < n < |tables| && ShownSoFar(tables, n, shown, previous, key)
    requires FollowsOn(tables[n], previous, page, size)
    ensures ShownSoFar(tables, n + 1, shown + page.keys, page, key)
  {
    PageIsOrdered(tables[n], size, previous.next);
    JoinDescending(shown, page.keys);
    if StaysIn(tables, n + 1, key) {
      assert StaysIn(tables, n, key) && key in tables[n];
      if key !in shown {
        BehindIsUpTo(shown, key);
        PageShows(tables[n], size, previous.next, key);
      }
    }
  }

  lemma {:induction false} PagesShown(
    tables: seq<set<TimeKey>>, pages: seq<Page>, size: nat, n: nat, key: TimeKey)
    requires size > 0 && Followed(tables, pages, size) && n < |pages|
    ensures ShownSoFar(tables, n + 1, Joined(pages[..n + 1]), pages[n], key)
    decreases n
  {
    JoinedNext(pages, n);
    if n == 0 {
      assert Joined(pages[..0]) == [] && [] + pages[0].keys == pages[0].keys;
      FirstPageShown(tables, pages[0], size, key);
    } else {
      PagesShown(tables, pages, size, n - 1, key);
      assert FollowsOn(tables[n], pages[n - 1], pages[n], size);
      NextPageShown(tables, n, Joined(pages[..n]), pages[n - 1], pages[n], size, key);
    }
  }

  /**
   Whatever is saved, changed or deleted between the pages: no job is shown twice, jobs come newest
   first, and a job that matches throughout is shown by the time the cursors end.
   */
  lemma WhatStaysIsShownOnce(tables: seq<set<TimeKey>>, pages: seq<Page>, size: nat, key: TimeKey)
    requires size > 0 && Followed(tables, pages, size)
    ensures Ascending(Joined(pages), Later)
    ensures pages[|pages| - 1].next.None? && StaysIn(tables, |tables|, key) ==> key in Joined(pages)
  {
    PagesShown(tables, pages, size, |pages| - 1, key);
    assert pages[..|pages|] == pages;
  }

  /** Every page with a successor is full, so the cursors do come to an end. */
  lemma PagesMakeProgress(keys: set<TimeKey>, size: nat, cursor: Option<Cursor>)
    requires size > 0
    ensures PageBehind(keys, size, cursor).next.Some? ==> |PageBehind(keys, size, cursor).keys| == size
  {
  }

  /** An issued cursor's boundary is not newer than its cutoff, which is what the decoder insists on. */
  lemma IssuedCursorIsOrdered(keys: set<TimeKey>, size: nat, cursor: Option<Cursor>)
    requires size > 0
    ensures
      var next := PageBehind(keys, size, cursor).next;
      next.Some? ==> next.value.boundary == next.value.cutoff || Earlier(next.value.boundary, next.value.cutoff)
  {
    var rest := Newest(Behind(UpTo(keys, CutoffOf(cursor)), BoundaryOf(cursor)));
    if |rest| > size {
      assert rest[size - 1] in Elements(rest);
      if size > 1 { assert Later(rest[0], rest[size - 1]); }
    }
  }
}
