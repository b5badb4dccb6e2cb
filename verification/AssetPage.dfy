/**
 Pages of assets, most recently updated first: rows are read in batches behind a moving boundary,
 and assets whose deletion is pending are passed over without shortening the page.
 */
module AssetPage {
  import opened Common
  import opened Keyset

  datatype Status = Active | Expired | Revoked

  datatype Asset = Asset(
    id: string, updated: int, value: string, capabilities: set<string>, expires: int, revokedAt: Option<int>)

  datatype Query = Query(
    status: Option<Status>, text: string, exact: bool, capability: Option<string>, updatedFrom: Option<int>)

  /******* What a row must satisfy *******/

  /** The status that a record shows, as it is computed when the record is read. */
  function Materialized(asset: Asset, now: int): Status {
    if asset.revokedAt.Some? then Revoked else if asset.expires <= now then Expired else Active
  }

  /** The query's own condition on the stored columns. */
  predicate StatusClause(status: Option<Status>, asset: Asset, now: int) {
    match status
    case None => true
    case Some(Active) => asset.revokedAt.None? && asset.expires > now
    case Some(Expired) => asset.revokedAt.None? && asset.expires <= now
    case Some(Revoked) => asset.revokedAt.Some?
  }

  lemma StatusClauseIsMaterialized(status: Status, asset: Asset, now: int)
    ensures StatusClause(Some(status), asset, now) <==> Materialized(asset, now) == status
  {
  }

  const LAST_CHAR := '\U{10FFFF}'

  /** `value >= prefix AND value < prefix || U+10FFFF`. */
  predicate InPrefixRange(prefix: string, value: string) {
    !TextLess(value, prefix) && TextLess(value, prefix + [LAST_CHAR])
  }

  /**
   The range holds exactly the values that start with the prefix, except those that go on with the
   last code point itself.
   */
  lemma {:induction false} PrefixRangeIsPrefix(prefix: string, value: string)
    ensures InPrefixRange(prefix, value) <==>
      prefix <= value && !(|value| > |prefix| && value[|prefix|] == LAST_CHAR)
    decreases |prefix|
  {
    if prefix == [] {
      assert prefix + [LAST_CHAR] == [LAST_CHAR];
      if value != [] {
        assert value[0] as int <= LAST_CHAR as int;
        assert TextLess(value, [LAST_CHAR]) <==> value[0] < LAST_CHAR;
      }
    } else if value != [] {
      assert (prefix + [LAST_CHAR])[1..] == prefix[1..] + [LAST_CHAR];
      if prefix[0] == value[0] {
        PrefixRangeIsPrefix(prefix[1..], value[1..]);
        assert prefix <= value <==> prefix[1..] <= value[1..] by {
          assert prefix == [prefix[0]] + prefix[1..] && value == [value[0]] + value[1..];
        }
      }
    }
  }

  predicate Selects(query: Query, asset: Asset, now: int) {
    && StatusClause(query.status, asset, now)
    && (query.text != "" ==> if query.exact then asset.value == query.text else InPrefixRange(query.text, asset.value))
    && (query.capability.Some? ==> query.capability.value in asset.capabilities)
    && (query.updatedFrom.Some? ==> query.updatedFrom.value <= asset.updated)
  }

  /** What a query asks for, without its clauses: a status as shown, a value or the beginning of one, a capability, an age. */
  predicate IsWanted(query: Query, asset: Asset, now: int) {
    && (query.status.Some? ==> Materialized(asset, now) == query.status.value)
    && (query.text != "" && query.exact ==> asset.value == query.text)
    && (query.text != "" && !query.exact ==> query.text <= asset.value && !GoesOnWithLast(query.text, asset.value))
    && (query.capability.Some? ==> query.capability.value in asset.capabilities)
    && (query.updatedFrom.Some? ==> asset.updated >= query.updatedFrom.value)
  }

  predicate GoesOnWithLast(prefix: string, value: string) {
    |prefix| < |value| && value[|prefix|] == LAST_CHAR
  }

  lemma SelectsExactly(query: Query, asset: Asset, now: int)
    ensures Selects(query, asset, now) <==> IsWanted(query, asset, now)
  {
    if query.status.Some? { StatusClauseIsMaterialized(query.status.value, asset, now); }
    PrefixRangeIsPrefix(query.text, asset.value);
  }

  function KeyOf(asset: Asset): TimeKey {
    TimeKey(asset.updated, asset.id)
  }

  function Matching(assets: map<string, Asset>, query: Query, now: int): set<TimeKey> {
    set id | id in assets && Selects(query, assets[id], now) :: KeyOf(assets[id])
  }

  /******* Order and boundary *******/

  function Kept(keys: seq<TimeKey>, deleting: set<string>): (kept: seq<TimeKey>)
    ensures |kept| <= |keys|
    ensures forall k | k in kept :: k in keys && k.id !in deleting
  {
    Filter(keys, (key: TimeKey) => key.id !in deleting)
  }

  lemma KeptJoin(a: seq<TimeKey>, b: seq<TimeKey>, deleting: set<string>)
    ensures Kept(a + b, deleting) == Kept(a, deleting) + Kept(b, deleting)
  {
    FilterJoin(a, b, (key: TimeKey) => key.id !in deleting);
  }

  lemma KeptNext(all: seq<TimeKey>, n: nat, deleting: set<string>)
    requires n < |all|
    ensures Kept(all[..n + 1], deleting) ==
      Kept(all[..n], deleting) + (if all[n].id in deleting then [] else [all[n]])
  {
    assert all[..n + 1] == all[..n] + [all[n]];
    KeptJoin(all[..n], [all[n]], deleting);
    assert Kept([all[n]], deleting) == if all[n].id in deleting then [] else [all[n]];
  }

  /** The rows behind the n-th of an order that itself lies behind a boundary are its tail. */
  lemma BehindIsTail(keys: set<TimeKey>, start: Option<TimeKey>, all: seq<TimeKey>, n: nat, boundary: Option<TimeKey>)
    requires all == Newest(Behind(keys, start)) && n <= |all|
    requires boundary == if n == 0 then start else Some(all[n - 1])
    ensures Newest(Behind(keys, boundary)) == all[n..]
  {
    if n > 0 {
      TimeKeysAreOrdered();
      assert all[n - 1] in Elements(all);
      assert Behind(keys, boundary) == Behind(Behind(keys, start), boundary);
      SortedPast(Behind(keys, start), Later, n - 1, Behind(keys, boundary));
    }
  }

  /** Once enough is kept, or nothing is left, what was kept is the front of all that is kept. */
  lemma KeptIsFront(all: seq<TimeKey>, n: nat, deleting: set<string>, limit: nat)
    requires n <= |all|
    requires |Kept(all[..n], deleting)| == limit || (n == |all| && |Kept(all[..n], deleting)| <= limit)
    ensures Kept(all[..n], deleting) == Take(limit, Kept(all, deleting))
  {
    assert all == all[..n] + all[n..];
    KeptJoin(all[..n], all[n..], deleting);
  }

  /******* What a caller gets *******/

  predicate IsShown(asset: Asset, query: Query, now: int, deleting: set<string>, start: Option<TimeKey>) {
    IsWanted(query, asset, now) && asset.id !in deleting && IsBehind(TimeKey(asset.updated, asset.id), start)
  }

  /** The newest `limit` wanted assets behind the boundary, newest first, or all of them. */
  ghost predicate ListsNewest(
    keys: seq<TimeKey>, assets: map<string, Asset>, query: Query, now: int, deleting: set<string>, start: Option<TimeKey>, limit: nat)
  {
    && |keys| <= limit && Ascending(keys, Later)
    && (forall key | key in keys :: exists id ::
          id in assets && key == TimeKey(assets[id].updated, assets[id].id) && IsShown(assets[id], query, now, deleting, start))
    && (forall id | id in assets && IsShown(assets[id], query, now, deleting, start) ::
          || TimeKey(assets[id].updated, assets[id].id) in keys
          || (|keys| == limit && forall key | key in keys :: Earlier(TimeKey(assets[id].updated, assets[id].id), key)))
  }

  lemma MatchingExactly(assets: map<string, Asset>, query: Query, now: int)
    ensures forall id | id in assets && IsWanted(query, assets[id], now) :: KeyOf(assets[id]) in Matching(assets, query, now)
    ensures forall key | key in Matching(assets, query, now) :: exists id ::
      id in assets && key == KeyOf(assets[id]) && IsWanted(query, assets[id], now)
  {
    forall id | id in assets
      ensures Selects(query, assets[id], now) <==> IsWanted(query, assets[id], now)
    {
      SelectsExactly(query, assets[id], now);
    }
  }

  lemma PageListsNewest(
    assets: map<string, Asset>, query: Query, now: int, deleting: set<string>, start: Option<TimeKey>, limit: nat)
    ensures ListsNewest(Take(limit, Rest(View(Matching(assets, query, now), deleting), start)), assets, query, now, deleting, start, limit)
  {
    var rest := Rest(View(Matching(assets, query, now), deleting), start);
    MatchingExactly(assets, query, now);
    RestIsBehind(View(Matching(assets, query, now), deleting), start);
    TimeKeysAreOrdered();
    TakenFirst(rest, limit, Later);
    forall id | id in assets && IsShown(assets[id], query, now, deleting, start)
      ensures TimeKey(assets[id].updated, assets[id].id) in rest
    {
      assert KeyOf(assets[id]) in Matching(assets, query, now);
    }
    forall key | key in rest
      ensures exists id ::
        id in assets && key == TimeKey(assets[id].updated, assets[id].id) && IsShown(assets[id], query, now, deleting, start)
    {
      var id :| id in assets && key == KeyOf(assets[id]) && IsWanted(query, assets[id], now);
    }
  }

  /******* The loop *******/

  class ActiveAssetStore {
    var assets: map<string, Asset>
    var deleting: set<string>

    constructor (assets: map<string, Asset>, deleting: set<string>)
      ensures this.assets == assets && this.deleting == deleting
    {
      this.assets, this.deleting := assets, deleting;
    }

    /** Reads one batch of rows; `shown` grows to one more than a page at most. */
    method ScanRows(rows: seq<TimeKey>, shown: seq<TimeKey>, pageSize: nat, ghost all: seq<TimeKey>, ghost n: nat)
      returns (selected: seq<TimeKey>, boundary: TimeKey, ghost seen: nat)
      requires rows != [] && n + |rows| <= |all| && rows == all[n..n + |rows|]
      requires shown == Kept(all[..n], deleting) && |shown| <= pageSize
      ensures n < seen <= n + |rows| && boundary == all[seen - 1]
      ensures selected == Kept(all[..seen], deleting) && |selected| <= pageSize + 1
      ensures |selected| <= pageSize ==> seen == n + |rows|
    {
      selected, seen, boundary := shown, n, rows[0];
      var i := 0;
      while i < |rows| && |selected| <= pageSize
        invariant 0 <= i <= |rows| && seen == n + i
        invariant i > 0 ==> boundary == all[seen - 1]
        invariant selected == Kept(all[..seen], deleting) && |selected| <= pageSize + 1
        invariant i == 0 ==> |selected| <= pageSize
      {
        assert rows[i] == all[seen];
        KeptNext(all, seen, deleting);
        boundary := rows[i];
        if rows[i].id !in deleting { selected := selected + [rows[i]]; }
        i := i + 1;
        seen := seen + 1;
      }
    }

    /** The batch behind the boundary: rows that continue the order, and whether they are its last. */
    method ReadBatch(keys: set<TimeKey>, boundary: Option<TimeKey>, pageSize: nat,
                     ghost start: Option<TimeKey>, ghost all: seq<TimeKey>, ghost n: nat)
      returns (rows: seq<TimeKey>)
      requires all == Newest(Behind(keys, start)) && n <= |all|
      requires boundary == if n == 0 then start else Some(all[n - 1])
      ensures n + |rows| <= |all| && rows == all[n..n + |rows|]
      ensures |rows| < pageSize + 1 ==> n + |rows| == |all|
    {
      var sorted := Newest(Behind(keys, boundary));
      BehindIsTail(keys, start, all, n, boundary);
      rows := Take(pageSize + 1, sorted);
      TakeOfTail(all, n, rows, pageSize + 1);
    }

    /** One turn of the loop: a batch is read and scanned. */
    method NextBatch(keys: set<TimeKey>, boundary: Option<TimeKey>, shown: seq<TimeKey>, pageSize: nat,
                     ghost start: Option<TimeKey>, ghost all: seq<TimeKey>, ghost n: nat)
      returns (selected: seq<TimeKey>, next: Option<TimeKey>, last: bool, ghost seen: nat)
      requires all == Newest(Behind(keys, start)) && n <= |all|
      requires boundary == if n == 0 then start else Some(all[n - 1])
      requires shown == Kept(all[..n], deleting) && |shown| <= pageSize
      ensures n <= seen <= |all| && selected == Kept(all[..seen], deleting) && |selected| <= pageSize + 1
      ensures next == if seen == 0 then start else Some(all[seen - 1])
      ensures |selected| <= pageSize ==> if last then seen == |all| else seen > n
    {
      var rows := ReadBatch(keys, boundary, pageSize, start, all, n);
      if rows == [] { return shown, boundary, true, n; }
      var reached;
      selected, reached, seen := ScanRows(rows, shown, pageSize, all, n);
      next := Some(reached);
      last := |rows| < pageSize + 1;
    }

    /** Exactly the first `pageSize + 1` matching assets behind the boundary whose deletion is not pending. */
    method QueryPage(query: Query, pageSize: nat, start: Option<TimeKey>, now: int) returns (selected: seq<TimeKey>)
      ensures selected == Take(pageSize + 1, Kept(Newest(Behind(Matching(assets, query, now), start)), deleting))
      ensures ListsNewest(selected, assets, query, now, deleting, start, pageSize + 1)
    {
      PageListsNewest(assets, query, now, deleting, start, pageSize + 1);
      var keys := Matching(assets, query, now);
      selected := ReadKeys(keys, pageSize, start);
    }

    method ReadKeys(keys: set<TimeKey>, pageSize: nat, start: Option<TimeKey>) returns (selected: seq<TimeKey>)
      ensures selected == Take(pageSize + 1, Kept(Newest(Behind(keys, start)), deleting))
    {
      ghost var all := Newest(Behind(keys, start));
      ghost var n := 0;
      selected := [];
      var boundary := start;
      var last := false;
      while |selected| <= pageSize && !last
        invariant n <= |all| && |selected| <= pageSize + 1
        invariant boundary == if n == 0 then start else Some(all[n - 1])
        invariant selected == Kept(all[..n], deleting)
        invariant |selected| <= pageSize && last ==> n == |all|
        decreases |all| - n, |selected| <= pageSize && !last
      {
        selected, boundary, last, n := NextBatch(keys, boundary, selected, pageSize, start, all, n);
      }
      KeptIsFront(all, n, deleting, pageSize + 1);
    }
  }

  /******* Pages put together *******/

  /** All pages of a query, one after the other, each behind the last asset of the page before. */
  function AllPages(keys: set<TimeKey>, deleting: set<string>, size: nat, start: Option<TimeKey>): seq<TimeKey>
    requires size > 0
    decreases |Behind(keys, start)|
  {
    var found := Take(size + 1, Kept(Newest(Behind(keys, start)), deleting));
    if |found| <= size then found
    else
      LaterPagesAreSmaller(keys, deleting, size, start);
      found[..size] + AllPages(keys, deleting, size, Some(found[size - 1]))
  }

  lemma LaterPagesAreSmaller(keys: set<TimeKey>, deleting: set<string>, size: nat, start: Option<TimeKey>)
    requires 0 < size < |Kept(Newest(Behind(keys, start)), deleting)|
    ensures |Behind(keys, Some(Kept(Newest(Behind(keys, start)), deleting)[size - 1]))| < |Behind(keys, start)|
  {
    var last := Kept(Newest(Behind(keys, start)), deleting)[size - 1];
    assert last in Newest(Behind(keys, start)) && last in Elements(Newest(Behind(keys, start)));
    TimeKeysAreOrdered();
    var fewer := Behind(keys, Some(last));
    assert fewer <= Behind(keys, start) - {last};
    SubsetIsSmaller(fewer, Behind(keys, start) - {last});
  }

  lemma TakeFront(kept: seq<TimeKey>, size: nat)
    requires 0 < size < |kept|
    ensures
      var found := Take(size + 1, kept);
      found[..size] == kept[..size] && found[size - 1] == kept[size - 1] && |found| > size
    ensures kept == kept[..size] + kept[size..]
  {
  }

  lemma AllPagesStep(keys: set<TimeKey>, deleting: set<string>, size: nat, start: Option<TimeKey>)
    requires 0 < size < |Kept(Newest(Behind(keys, start)), deleting)|
    ensures
      var kept := Kept(Newest(Behind(keys, start)), deleting);
      AllPages(keys, deleting, size, start) == kept[..size] + AllPages(keys, deleting, size, Some(kept[size - 1]))
  {
    TakeFront(Kept(Newest(Behind(keys, start)), deleting), size);
  }

  /** The pages together are every matching asset that is not being deleted, once and in order. */
  lemma {:induction false} PagesAreTheWholeList(keys: set<TimeKey>, deleting: set<string>, size: nat, start: Option<TimeKey>)
    requires size > 0
    ensures AllPages(keys, deleting, size, start) == Kept(Newest(Behind(keys, start)), deleting)
    decreases |Behind(keys, start)|
  {
    var kept := Kept(Newest(Behind(keys, start)), deleting);
    if |kept| > size {
      LaterPagesAreSmaller(keys, deleting, size, start);
      PagesAreTheWholeList(keys, deleting, size, Some(kept[size - 1]));
      KeptBehind(keys, deleting, size, start);
      AllPagesStep(keys, deleting, size, start);
      TakeFront(kept, size);
    }
  }

  /** What is kept behind the last asset of a page is the rest of what is kept. */
  lemma KeptBehind(keys: set<TimeKey>, deleting: set<string>, size: nat, start: Option<TimeKey>)
    requires 0 < size < |Kept(Newest(Behind(keys, start)), deleting)|
    ensures
      var kept := Kept(Newest(Behind(keys, start)), deleting);
      Kept(Newest(Behind(keys, Some(kept[size - 1]))), deleting) == kept[size..]
  {
    var kept := Kept(Newest(Behind(keys, start)), deleting);
    var boundary := Some(kept[size - 1]);
    RestIsBehind(View(keys, deleting), start);
    RestIsBehind(View(keys, deleting), boundary);
    TailIsBehind(kept, size);
    TimeKeysAreOrdered();
    assert kept[size - 1] in kept;
    AscendingIsUnique(Kept(Newest(Behind(keys, boundary)), deleting), kept[size..], Later);
  }

  lemma TailIsBehind(rows: seq<TimeKey>, size: nat)
    requires 0 < size < |rows| && Ascending(rows, Later)
    ensures Ascending(rows[size..], Later)
    ensures forall k :: k in rows[size..] <==> k in rows && Earlier(k, rows[size - 1])
  {
    TimeKeysAreOrdered();
    forall k | k in rows && Earlier(k, rows[size - 1])
      ensures k in rows[size..]
    {
      var i :| 0 <= i < |rows| && rows[i] == k;
      assert i < size ==> i == size - 1 || Later(rows[i], rows[size - 1]);
      assert rows[size..][i - size] == k;
    }
  }

  /******* Pages of a list that changes between them *******/

  /** What one page finds: the keys that match, and the assets whose deletion is pending. */
  datatype View = View(keys: set<TimeKey>, deleting: set<string>)

  function Rest(view: View, start: Option<TimeKey>): seq<TimeKey> {
    Kept(Newest(Behind(view.keys, start)), view.deleting)
  }

  /** The pages put together, each read from its own view behind the last asset of the page before. */
  function PagesOver(views: seq<View>, size: nat, start: Option<TimeKey>): seq<TimeKey>
    requires size > 0
  {
    if views == [] then []
    else
      var rest := Rest(views[0], start);
      if |rest| <= size then rest else rest[..size] + PagesOver(views[1..], size, Some(rest[size - 1]))
  }

  /** The last of these pages has no successor. */
  predicate ReachesEnd(views: seq<View>, size: nat, start: Option<TimeKey>)
    requires size > 0
  {
    views != [] &&
    var rest := Rest(views[0], start);
    |rest| <= size || ReachesEnd(views[1..], size, Some(rest[size - 1]))
  }

  /** The asset matches all the time, is not changed and not being deleted. */
  predicate Stays(views: seq<View>, key: TimeKey) {
    forall i | 0 <= i < |views| :: key in views[i].keys && key.id !in views[i].deleting
  }

  lemma RestIsBehind(view: View, start: Option<TimeKey>)
    ensures Ascending(Rest(view, start), Later)
    ensures forall k :: k in Rest(view, start) <==> k in view.keys && k.id !in view.deleting && IsBehind(k, start)
  {
    var all := Newest(Behind(view.keys, start));
    FilterKeepsOrder(all, (key: TimeKey) => key.id !in view.deleting, Later);
    forall k
      ensures k in all <==> k in view.keys && IsBehind(k, start)
    {
      assert k in all <==> k in Elements(all);
    }
  }

  lemma FrontAndRest(rest: seq<TimeKey>, size: nat, later: seq<TimeKey>)
    requires 0 < size < |rest| && Ascending(rest, Later) && Ascending(later, Later)
    requires forall k | k in later :: Earlier(k, rest[size - 1])
    ensures Ascending(rest[..size] + later, Later)
    ensures forall k | k in rest :: k in rest[..size] || Earlier(k, rest[size - 1])
  {
    JoinDescending(rest[..size], later);
    forall k | k in rest
      ensures k in rest[..size] || Earlier(k, rest[size - 1])
    {
      var i :| 0 <= i < |rest| && rest[i] == k;
      assert i < size ==> rest[..size][i] == k;
    }
  }

  /**
   Whatever is stored, updated or deleted between the pages: no row is shown twice, the rows come
   newest first, and an asset that stays as it is throughout is shown by the time the pages end.
   */
  lemma {:induction false} WhatStaysIsShownOnce(views: seq<View>, size: nat, start: Option<TimeKey>, key: TimeKey)
    requires size > 0
    ensures Ascending(PagesOver(views, size, start), Later)
    ensures forall k | k in PagesOver(views, size, start) :: IsBehind(k, start)
    ensures ReachesEnd(views, size, start) && Stays(views, key) && IsBehind(key, start) ==>
      key in PagesOver(views, size, start)
    decreases |views|
  {
    if views != [] {
      var rest := Rest(views[0], start);
      RestIsBehind(views[0], start);
      if |rest| > size {
        var boundary := rest[size - 1];
        WhatStaysIsShownOnce(views[1..], size, Some(boundary), key);
        FrontAndRest(rest, size, PagesOver(views[1..], size, Some(boundary)));
        StaysInTheRest(views, key);
        BehindABoundary(rest, size, start, PagesOver(views[1..], size, Some(boundary)));
      }
    }
  }

  lemma OnePageMore(pages: nat, size: nat)
    ensures 0 <= pages * size && (pages + 1) * size == size + pages * size
  {
  }

  /** No page shows more than its size. */
  lemma {:induction false} PagesAreShort(views: seq<View>, size: nat, start: Option<TimeKey>)
    requires size > 0
    ensures |PagesOver(views, size, start)| <= |views| * size
    decreases |views|
  {
    if views != [] {
      var rest := Rest(views[0], start);
      OnePageMore(|views[1..]|, size);
      if |rest| > size { PagesAreShort(views[1..], size, Some(rest[size - 1])); }
    }
  }

  lemma StaysInTheRest(views: seq<View>, key: TimeKey)
    requires views != []
    ensures Stays(views, key) ==> Stays(views[1..], key) && key in views[0].keys && key.id !in views[0].deleting
  {
  }

  lemma BehindABoundary(rest: seq<TimeKey>, size: nat, start: Option<TimeKey>, later: seq<TimeKey>)
    requires 0 < size < |rest| && forall k | k in rest :: IsBehind(k, start)
    requires forall k | k in later :: Earlier(k, rest[size - 1])
    ensures forall k | k in rest[..size] + later :: IsBehind(k, start)
  {
    TimeKeysAreOrdered();
    assert rest[size - 1] in rest;
    forall k | k in later
      ensures IsBehind(k, start)
    {
      assert Earlier(k, rest[size - 1]);
    }
  }
}
