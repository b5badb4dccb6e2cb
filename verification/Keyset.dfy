/**
 Keyset paging over a table: `ORDER BY` a key that is unique per row, `WHERE key > boundary`,
 `LIMIT n`. A table is the finite set of its keys, and the order is any strict total order.
 */
module Keyset {
  import opened Common

  /** `less` is a strict total order. */
  ghost predicate StrictOrder<K(!new)>(less: (K, K) -> bool) {
    && (forall a, b :: !(less(a, b) && less(b, a)))
    && (forall a, b, c :: less(a, b) && less(b, c) ==> less(a, c))
    && (forall a, b :: a == b || less(a, b) || less(b, a))
  }

  ghost predicate Ascending<K(!new)>(keys: seq<K>, less: (K, K) -> bool) {
    forall i, j | 0 <= i < j < |keys| :: less(keys[i], keys[j])
  }

  function Elements<K(!new, ==)>(keys: seq<K>): (s: set<K>) {
    set k | k in keys
  }

  predicate IsLeast<K(!new, ==)>(m: K, keys: set<K>, less: (K, K) -> bool) {
    m in keys && forall k | k in keys :: k == m || less(m, k)
  }

  lemma {:induction false} LeastExists<K(!new)>(keys: set<K>, less: (K, K) -> bool)
    requires StrictOrder(less) && keys != {}
    ensures exists m :: IsLeast(m, keys, less)
    decreases |keys|
  {
    var k :| k in keys;
    var rest := keys - {k};
    if rest == {} {
      assert keys == {k};
      assert IsLeast(k, keys, less);
    } else {
      LeastExists(rest, less);
      var m :| IsLeast(m, rest, less);
      if less(k, m) {
        assert IsLeast(k, keys, less);
      } else {
        assert IsLeast(m, keys, less);
      }
    }
  }

  lemma LeastFirst<K(!new)>(m: K, rest: seq<K>, keys: set<K>, less: (K, K) -> bool)
    requires IsLeast(m, keys, less) && Ascending(rest, less) && Elements(rest) == keys - {m}
    ensures Ascending([m] + rest, less) && Elements([m] + rest) == keys
  {
    assert forall i | 0 <= i < |rest| :: rest[i] in Elements(rest);
    assert Elements([m] + rest) == {m} + Elements(rest);
  }

  /** `SELECT key ... ORDER BY key`: the keys of the set in ascending order. */
  function Sorted<K(!new, ==)>(keys: set<K>, less: (K, K) -> bool): (sorted: seq<K>)
    requires StrictOrder(less)
    ensures Ascending(sorted, less) && Elements(sorted) == keys
    decreases |keys|
  {
    if keys == {} then []
    else
      LeastExists(keys, less);
      var m :| m in keys && IsLeast(m, keys, less);
      var rest := Sorted(keys - {m}, less);
      LeastFirst(m, rest, keys, less);
      [m] + rest
  }

  /** Only one ascending sequence has given elements. */
  lemma {:induction false} AscendingIsUnique<K(!new)>(s: seq<K>, t: seq<K>, less: (K, K) -> bool)
    requires StrictOrder(less) && Ascending(s, less) && Ascending(t, less)
    requires forall k :: k in s <==> k in t
    ensures s == t
    decreases |s|
  {
    if s == [] {
      assert forall i | 0 <= i < |t| :: t[i] in s;
    } else {
      assert s[0] in t && t[0] in s;
      assert s[0] == t[0];
      forall k
        ensures k in s[1..] <==> k in t[1..]
      {
        if k in s[1..] { assert k in t && k != t[0]; }
        if k in t[1..] { assert k in s && k != s[0]; }
      }
      AscendingIsUnique(s[1..], t[1..], less);
    }
  }

  /** The keys of an ascending sequence past a boundary that is one of them are its tail. */
  lemma SortedPast<K(!new)>(keys: set<K>, less: (K, K) -> bool, n: nat, past: set<K>)
    requires StrictOrder(less) && n < |Sorted(keys, less)|
    requires past == set k | k in keys && less(Sorted(keys, less)[n], k)
    ensures Sorted(past, less) == Sorted(keys, less)[n + 1..]
  {
    var sorted := Sorted(keys, less);
    var tail := sorted[n + 1..];
    forall k
      ensures k in tail <==> k in past
    {
      if k in past {
        assert k in Elements(sorted);
        var i :| 0 <= i < |sorted| && sorted[i] == k;
        assert i > n;
        assert tail[i - n - 1] == k;
      }
      if k in tail {
        var i :| 0 <= i < |tail| && tail[i] == k;
        assert sorted[n + 1 + i] == k && k in Elements(sorted);
      }
    }
    assert forall k :: k in Sorted(past, less) <==> k in Elements(Sorted(past, less));
    AscendingIsUnique(Sorted(past, less), tail, less);
  }

  function Take<K>(n: nat, keys: seq<K>): (taken: seq<K>)
    ensures taken == if |keys| <= n then keys else keys[..n]
  {
    if |keys| <= n then keys else keys[..n]
  }

  /** What a limit cuts off comes after everything that it leaves, and it cuts off nothing before it is reached. */
  lemma TakenFirst<K(!new)>(all: seq<K>, limit: nat, less: (K, K) -> bool)
    requires StrictOrder(less) && Ascending(all, less)
    ensures Ascending(Take(limit, all), less)
    ensures forall key | key in all && key !in Take(limit, all) ::
      |Take(limit, all)| == limit && forall taken | taken in Take(limit, all) :: less(taken, key)
    ensures limit < |all| ==> exists key :: key in all && key !in Take(limit, all)
  {
    var taken := Take(limit, all);
    forall key | key in all && key !in taken
      ensures |taken| == limit && forall k | k in taken :: less(k, key)
    {
      var i :| 0 <= i < |all| && all[i] == key;
      assert taken == all[..|taken|];
    }
    if limit < |all| { assert all[limit] !in taken; }
  }

  function Filter<K>(keys: seq<K>, keep: K -> bool): (kept: seq<K>)
    ensures |kept| <= |keys|
    ensures forall k | k in kept :: k in keys && keep(k)
  {
    if keys == [] then []
    else if keep(keys[0]) then [keys[0]] + Filter(keys[1..], keep)
    else Filter(keys[1..], keep)
  }

  /** What passes is kept, in its order. */
  lemma {:induction false} FilterKeepsOrder<K(!new)>(keys: seq<K>, keep: K -> bool, less: (K, K) -> bool)
    requires Ascending(keys, less)
    ensures Ascending(Filter(keys, keep), less)
    ensures forall k | k in keys && keep(k) :: k in Filter(keys, keep)
    decreases |keys|
  {
    if keys != [] {
      var rest := keys[1..];
      FilterKeepsOrder(rest, keep, less);
      forall k | k in Filter(rest, keep)
        ensures less(keys[0], k)
      {
        var i :| 0 <= i < |rest| && rest[i] == k;
        assert keys[i + 1] == k;
      }
      assert keys == [keys[0]] + rest;
    }
  }

  lemma {:induction false} FilterJoin<K>(a: seq<K>, b: seq<K>, keep: K -> bool)
    ensures Filter(a + b, keep) == Filter(a, keep) + Filter(b, keep)
    decreases |a|
  {
    if a == [] {
      assert a + b == b;
    } else {
      assert (a + b)[1..] == a[1..] + b;
      FilterJoin(a[1..], b, keep);
    }
  }

  /******* Text in code point order *******/

  predicate TextLess(a: string, b: string) {
    if b == [] then false
    else if a == [] then true
    else a[0] < b[0] || (a[0] == b[0] && TextLess(a[1..], b[1..]))
  }

  lemma {:induction false} TextLessIsAsymmetric(a: string, b: string)
    ensures !(TextLess(a, b) && TextLess(b, a))
    decreases |a|
  {
    if a != [] && b != [] { TextLessIsAsymmetric(a[1..], b[1..]); }
  }

  lemma {:induction false} TextLessIsTransitive(a: string, b: string, c: string)
    requires TextLess(a, b) && TextLess(b, c)
    ensures TextLess(a, c)
    decreases |a|
  {
    if a != [] && a[0] == b[0] && b[0] == c[0] { TextLessIsTransitive(a[1..], b[1..], c[1..]); }
  }

  lemma {:induction false} TextLessIsTotal(a: string, b: string)
    ensures a == b || TextLess(a, b) || TextLess(b, a)
    decreases |a|
  {
    if a != [] && b != [] && a[0] == b[0] {
      TextLessIsTotal(a[1..], b[1..]);
      assert a[1..] == b[1..] ==> [a[0]] + a[1..] == [b[0]] + b[1..];
    }
  }

  /** A row's time in microseconds, then its identifier. */
  datatype TimeKey = TimeKey(time: int, id: string)

  predicate Earlier(a: TimeKey, b: TimeKey) {
    a.time < b.time || (a.time == b.time && TextLess(a.id, b.id))
  }

  predicate Later(a: TimeKey, b: TimeKey) {
    Earlier(b, a)
  }

  /** What is strictly older than the boundary. */
  function Behind(keys: set<TimeKey>, boundary: Option<TimeKey>): set<TimeKey> {
    set k | k in keys && (boundary.None? || Earlier(k, boundary.value))
  }

  /** Time and identifier order the rows of a table completely, upwards and downwards. */
  lemma TimeKeysAreOrdered()
    ensures StrictOrder(Earlier) && StrictOrder(Later)
  {
    forall a, b: TimeKey
      ensures !(Earlier(a, b) && Earlier(b, a))
      ensures a == b || Earlier(a, b) || Earlier(b, a)
    {
      TextLessIsAsymmetric(a.id, b.id);
      TextLessIsTotal(a.id, b.id);
    }
    forall a, b, c: TimeKey | Earlier(a, b) && Earlier(b, c)
      ensures Earlier(a, c)
    {
      if a.time == b.time == c.time { TextLessIsTransitive(a.id, b.id, c.id); }
    }
  }

  /** The rows of a table, `ORDER BY time, id`. */
  function InOrder(keys: set<TimeKey>): (sorted: seq<TimeKey>)
    ensures Elements(sorted) == keys
    ensures Ascending(sorted, Earlier)
  {
    TimeKeysAreOrdered();
    Sorted(keys, Earlier)
  }

  /** The rows strictly behind the n-th are the order's tail. */
  lemma InOrderPast(keys: set<TimeKey>, n: nat, past: set<TimeKey>)
    requires n < |InOrder(keys)|
    requires past == set k | k in keys && Earlier(InOrder(keys)[n], k)
    ensures InOrder(past) == InOrder(keys)[n + 1..]
  {
    TimeKeysAreOrdered();
    SortedPast(keys, Earlier, n, past);
  }

  /** `ORDER BY time DESC, id DESC`. */
  function Newest(keys: set<TimeKey>): (sorted: seq<TimeKey>)
    ensures Elements(sorted) == keys && Ascending(sorted, Later)
  {
    TimeKeysAreOrdered();
    Sorted(keys, Later)
  }

  predicate IsBehind(key: TimeKey, boundary: Option<TimeKey>) {
    boundary.None? || Earlier(key, boundary.value)
  }

  /** Rows behind the last one continue an order. */
  lemma JoinDescending(front: seq<TimeKey>, rest: seq<TimeKey>)
    requires front != [] && Ascending(front, Later) && Ascending(rest, Later)
    requires forall k | k in rest :: Earlier(k, front[|front| - 1])
    ensures Ascending(front + rest, Later)
  {
    TimeKeysAreOrdered();
    var joined, last := front + rest, |front| - 1;
    forall i, j | 0 <= i < j < |joined|
      ensures Later(joined[i], joined[j])
    {
      if i <= last < j {
        assert joined[j] in rest;
        assert i == last || Later(front[i], front[last]);
      }
    }
  }

  /** A limited read of a tail is the next stretch of the whole, and a short one is the last. */
  lemma TakeOfTail<K>(all: seq<K>, n: nat, read: seq<K>, limit: nat)
    requires n <= |all| && read == Take(limit, all[n..])
    ensures n + |read| <= |all| && read == all[n..n + |read|]
    ensures |read| < limit ==> n + |read| == |all|
  {
  }
}
