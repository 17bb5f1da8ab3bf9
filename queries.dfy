/** The query primitives the tracker's pages are built from, over a table held
    as a sequence of rows in insertion order: SQL's WHERE, SUM, ORDER BY ... DESC
    and LIMIT, SQLite's assignment of a fresh primary key, and pandas'
    group-by-and-sum. Columns are passed as selector functions. */
module Queries {
  import opened Models

  // ---------------------------------------------------------------------------
  // Filtering

  /** The rows of `s` that satisfy `p`, in their original order. */
  function Where<T>(s: seq<T>, p: T -> bool): (r: seq<T>)
    ensures |r| <= |s|
    ensures forall x :: x in r ==> x in s && p(x)
    ensures forall x :: x in s && p(x) ==> x in r
    ensures multiset(r) <= multiset(s)
  {
    if s == [] then []
    else
      assert s == [s[0]] + s[1..];
      if p(s[0]) then [s[0]] + Where(s[1..], p) else Where(s[1..], p)
  }

  /** `filter(date >= d)` */
  function Since<T>(s: seq<T>, date: T -> Date, d: Date): (r: seq<T>)
    ensures forall x :: x in r ==> x in s && date(x) >= d
    ensures forall x :: x in s && date(x) >= d ==> x in r
    ensures multiset(r) <= multiset(s)
  {
    Where(s, x => date(x) >= d)
  }

  /** `filter(date >= lo, date <= hi)`: an inclusive range of days. */
  function Between<T>(s: seq<T>, date: T -> Date, lo: Date, hi: Date): (r: seq<T>)
    ensures forall x :: x in r ==> x in s && lo <= date(x) <= hi
    ensures forall x :: x in s && lo <= date(x) <= hi ==> x in r
    ensures multiset(r) <= multiset(s)
  {
    Where(s, x => lo <= date(x) <= hi)
  }

  /** The rows whose column `key` equals `k`. */
  function Matching<T, K(==)>(s: seq<T>, key: T -> K, k: K): (r: seq<T>)
    ensures forall x :: x in r ==> x in s && key(x) == k
    ensures forall x :: x in s && key(x) == k ==> x in r
    ensures multiset(r) <= multiset(s)
  {
    Where(s, x => key(x) == k)
  }

  /** The rows whose column `key` differs from `k`. */
  function Without<T, K(==)>(s: seq<T>, key: T -> K, k: K): (r: seq<T>)
    ensures forall x :: x in r ==> x in s && key(x) != k
    ensures forall x :: x in s && key(x) != k ==> x in r
    ensures multiset(r) <= multiset(s)
  {
    Where(s, x => key(x) != k)
  }

  /** The position of the first row whose column `key` equals `k`, if any
      (`filter(key == k).first()`). */
  function FirstIndex<T, K(==)>(s: seq<T>, key: T -> K, k: K): (r: Option<nat>)
    ensures r.Some? ==> r.value < |s| && key(s[r.value]) == k
    ensures r.Some? ==> forall j :: 0 <= j < r.value ==> key(s[j]) != k
    ensures r.None? <==> forall x :: x in s ==> key(x) != k
  {
    if s == [] then None
    else if key(s[0]) == k then Some(0)
    else
      assert s == [s[0]] + s[1..];
      match FirstIndex(s[1..], key, k)
      case Some(i) => Some(i + 1)
      case None => None
  }

  // ---------------------------------------------------------------------------
  // Sums (SQL SUM; an empty sum is 0, as `scalar() or 0` and Python's `sum` give)

  function Sum<T>(s: seq<T>, f: T -> int): (r: int)
    ensures s == [] ==> r == 0
    ensures (forall x :: x in s ==> f(x) >= 0) ==> r >= 0
  {
    if s == [] then 0
    else
      assert forall x :: x in s[1..] ==> x in s;
      f(s[0]) + Sum(s[1..], f)
  }

  function SumReal<T>(s: seq<T>, f: T -> real): (r: real)
    ensures s == [] ==> r == 0.0
    ensures (forall x :: x in s ==> f(x) >= 0.0) ==> r >= 0.0
  {
    if s == [] then 0.0
    else
      assert forall x :: x in s[1..] ==> x in s;
      f(s[0]) + SumReal(s[1..], f)
  }

  // ---------------------------------------------------------------------------
  // Primary keys

  /** The key SQLite gives a new row of an `INTEGER PRIMARY KEY` table: one more
      than the largest key in the table, or 1 for an empty table. */
  function NewId<T>(s: seq<T>, id: T -> int): (r: int)
    ensures s == [] ==> r == 1
    ensures forall x :: x in s ==> id(x) < r
    ensures s != [] ==> exists x :: x in s && id(x) == r - 1
  {
    if s == [] then 1
    else if |s| == 1 then id(s[0]) + 1
    else
      assert s == [s[0]] + s[1..];
      var rest := NewId(s[1..], id);
      if id(s[0]) >= rest then id(s[0]) + 1 else rest
  }

  // ---------------------------------------------------------------------------
  // Ordering: ORDER BY date DESC, and LIMIT n

  predicate NewestFirstOrder<T>(s: seq<T>, date: T -> Date) {
    forall i, j :: 0 <= i < j < |s| ==> date(s[i]) >= date(s[j])
  }

  /** Inserts `x` into a newest-first sequence, before the rows of its own day. */
  function InsertByDate<T>(x: T, s: seq<T>, date: T -> Date): seq<T> {
    if s == [] || date(x) >= date(s[0]) then [x] + s
    else [s[0]] + InsertByDate(x, s[1..], date)
  }

  lemma {:induction false} InsertByDateKeeps<T>(x: T, s: seq<T>, date: T -> Date)
    ensures multiset(InsertByDate(x, s, date)) == multiset(s) + multiset{x}
  {
    if s != [] && date(x) < date(s[0]) {
      assert s == [s[0]] + s[1..];
      InsertByDateKeeps(x, s[1..], date);
    }
  }

  lemma NewestFirstCons<T>(a: T, t: seq<T>, date: T -> Date)
    requires NewestFirstOrder(t, date)
    requires forall y :: y in t ==> date(y) <= date(a)
    ensures NewestFirstOrder([a] + t, date)
  {
    forall i, j | 0 <= i < j < |[a] + t| ensures date(([a] + t)[i]) >= date(([a] + t)[j]) {
      assert ([a] + t)[j] == t[j - 1] && t[j - 1] in t;
      if i > 0 {
        assert ([a] + t)[i] == t[i - 1];
      }
    }
  }

  lemma {:induction false} InsertByDateSorts<T>(x: T, s: seq<T>, date: T -> Date)
    requires NewestFirstOrder(s, date)
    ensures NewestFirstOrder(InsertByDate(x, s, date), date)
  {
    if s == [] || date(x) >= date(s[0]) {
      assert forall y :: y in s ==> date(y) <= date(x) by {
        forall y | y in s ensures date(y) <= date(x) {
          var m :| 0 <= m < |s| && s[m] == y;
        }
      }
      NewestFirstCons(x, s, date);
    } else {
      assert s == [s[0]] + s[1..];
      InsertByDateSorts(x, s[1..], date);
      InsertByDateKeeps(x, s[1..], date);
      var tail := InsertByDate(x, s[1..], date);
      forall y | y in tail ensures date(y) <= date(s[0]) {
        assert y in multiset(tail);
        if y != x {
          assert y in multiset(s[1..]);
          var m :| 0 <= m < |s[1..]| && s[1..][m] == y;
          assert s[m + 1] == y;
        }
      }
      NewestFirstCons(s[0], tail, date);
    }
  }

  /** The rows of `s` ordered by date, newest first. */
  function NewestFirst<T>(s: seq<T>, date: T -> Date): (r: seq<T>)
    ensures NewestFirstOrder(r, date)
    ensures multiset(r) == multiset(s)
    ensures |r| == |s|
  {
    if s == [] then []
    else
      assert s == [s[0]] + s[1..];
      var rest := NewestFirst(s[1..], date);
      InsertByDateSorts(s[0], rest, date);
      InsertByDateKeeps(s[0], rest, date);
      var r := InsertByDate(s[0], rest, date);
      assert |r| == |multiset(r)|;
      r
  }

  /** The rows dated within `lo..hi` (both inclusive), newest first. */
  function RangeNewestFirst<T>(s: seq<T>, date: T -> Date, lo: Date, hi: Date): (r: seq<T>)
    ensures multiset(r) == multiset(Between(s, date, lo, hi))
    ensures forall x :: x in r ==> x in s && lo <= date(x) <= hi
    ensures forall x :: x in s && lo <= date(x) <= hi ==> x in r
    ensures NewestFirstOrder(r, date)
  {
    var picked := Between(s, date, lo, hi);
    var r := NewestFirst(picked, date);
    assert forall x :: x in r ==> x in multiset(r);
    assert forall x :: x in picked ==> x in multiset(picked);
    assert forall x :: x in multiset(r) ==> x in r;
    r
  }

  /** `order_by(date.desc()).limit(n)`: at most `n` rows, newest first, and no
      row left out is newer than a row returned. */
  function TopN<T>(s: seq<T>, date: T -> Date, n: nat): (r: seq<T>)
    ensures |r| == if n < |s| then n else |s|
    ensures NewestFirstOrder(r, date)
    ensures multiset(r) <= multiset(s)
    ensures forall x, y :: x in r && y in multiset(s) - multiset(r) ==> date(y) <= date(x)
  {
    var sorted := NewestFirst(s, date);
    var k := if n < |s| then n else |s|;
    PrefixIsNewest(sorted, k, date);
    sorted[..k]
  }

  lemma PrefixIsNewest<T>(t: seq<T>, k: nat, date: T -> Date)
    requires NewestFirstOrder(t, date) && k <= |t|
    ensures multiset(t[..k]) <= multiset(t)
    ensures forall x, y :: x in t[..k] && y in multiset(t) - multiset(t[..k]) ==> date(y) <= date(x)
  {
    assert t == t[..k] + t[k..];
    assert multiset(t) - multiset(t[..k]) == multiset(t[k..]);
    forall x, y | x in t[..k] && y in multiset(t) - multiset(t[..k])
      ensures date(y) <= date(x)
    {
      assert y in t[k..];
      var i :| 0 <= i < k && t[i] == x;
      var j :| k <= j < |t| && t[j] == y;
    }
  }

  // ---------------------------------------------------------------------------
  // Group keys

  /** No key occurs twice: the keys themselves are a unique column. */
  predicate NoDuplicates<K(==)>(keys: seq<K>) {
    Distinct(keys, k => k)
  }

  predicate Ascending(keys: seq<Date>) {
    forall i, j :: 0 <= i < j < |keys| ==> keys[i] < keys[j]
  }

  function InsertDate(d: Date, keys: seq<Date>): seq<Date> {
    if keys == [] || d < keys[0] then [d] + keys
    else if d == keys[0] then keys
    else [keys[0]] + InsertDate(d, keys[1..])
  }

  lemma {:induction false} InsertDateSorts(d: Date, keys: seq<Date>)
    requires Ascending(keys)
    ensures Ascending(InsertDate(d, keys))
    ensures forall k :: k in InsertDate(d, keys) <==> k == d || k in keys
  {
    if keys != [] && d > keys[0] {
      assert keys == [keys[0]] + keys[1..];
      InsertDateSorts(d, keys[1..]);
      var r := InsertDate(d, keys);
      forall i, j | 0 <= i < j < |r| ensures r[i] < r[j] {
        if i == 0 {
          assert r[j] in keys[1..] || r[j] == d;
          if r[j] != d {
            var m :| 0 <= m < |keys[1..]| && keys[1..][m] == r[j];
            assert keys[m + 1] == r[j];
          }
        }
      }
    }
  }

  /** The distinct days of `s`, ascending: the group keys of a pandas
      `groupby('Date')`, which sorts them. */
  function SortedDates<T>(s: seq<T>, date: T -> Date): (keys: seq<Date>)
    ensures Ascending(keys)
    ensures forall x :: x in s ==> date(x) in keys
    ensures forall k :: k in keys ==> exists x :: x in s && date(x) == k
  {
    if s == [] then []
    else
      assert s == [s[0]] + s[1..];
      var rest := SortedDates(s[1..], date);
      InsertDateSorts(date(s[0]), rest);
      InsertDate(date(s[0]), rest)
  }

  /** The distinct values of column `key` in `s`, in order of first appearance. */
  function DistinctKeys<T, K(==)>(s: seq<T>, key: T -> K): (keys: seq<K>)
    ensures NoDuplicates(keys)
    ensures forall x :: x in s ==> key(x) in keys
    ensures forall k :: k in keys ==> exists x :: x in s && key(x) == k
  {
    if s == [] then []
    else
      assert s == s[..|s| - 1] + [s[|s| - 1]];
      var init := DistinctKeys(s[..|s| - 1], key);
      var last := key(s[|s| - 1]);
      if last in init then init else init + [last]
  }

  // ---------------------------------------------------------------------------
  // Group-by-and-sum

  datatype Group<K> = Group(key: K, total: int)

  /** One group per key, in the order of `keys`, holding the sum of `f` over the
      rows whose column `key` is that key. */
  function GroupSum<T, K(==)>(keys: seq<K>, s: seq<T>, key: T -> K, f: T -> int): (groups: seq<Group<K>>)
    ensures Keys(groups) == keys
    ensures |groups| == |keys|
    ensures forall i :: 0 <= i < |keys| ==> groups[i] == Group(keys[i], Sum(Matching(s, key, keys[i]), f))
  {
    if keys == [] then []
    else [Group(keys[0], Sum(Matching(s, key, keys[0]), f))] + GroupSum(keys[1..], s, key, f)
  }

  function Keys<K>(groups: seq<Group<K>>): seq<K> {
    if groups == [] then [] else [groups[0].key] + Keys(groups[1..])
  }

  /** The sum of the group totals. */
  function Column<K>(groups: seq<Group<K>>): int {
    if groups == [] then 0 else groups[0].total + Column(groups[1..])
  }

  // ---------------------------------------------------------------------------
  // Lemmas

  lemma {:induction false} WhereAppend<T>(s: seq<T>, x: T, p: T -> bool)
    ensures Where(s + [x], p) == Where(s, p) + (if p(x) then [x] else [])
  {
    if s != [] {
      var head, rest := s[0], s[1..];
      Split(s, x);
      WhereCons(head, rest, p);
      WhereCons(head, rest + [x], p);
      WhereAppend(rest, x, p);
      Associative(if p(head) then [head] else [], Where(rest, p), if p(x) then [x] else []);
    }
  }

  /** One step of the filter: the first row, if it passes, then the rest. */
  lemma WhereCons<T>(x: T, s: seq<T>, p: T -> bool)
    ensures Where([x] + s, p) == (if p(x) then [x] else []) + Where(s, p)
  {
    assert ([x] + s)[1..] == s;
  }

  /** A non-empty sequence, with `x` appended or not, is its first element
      followed by the rest. */
  lemma Split<T>(s: seq<T>, x: T)
    requires s != []
    ensures s == [s[0]] + s[1..] && s + [x] == [s[0]] + (s[1..] + [x])
  {
  }

  /** Concatenation is associative. */
  lemma Associative<T>(a: seq<T>, b: seq<T>, c: seq<T>)
    ensures a + (b + c) == (a + b) + c
  {
  }

  lemma SinceAppend<T>(s: seq<T>, x: T, date: T -> Date, d: Date)
    ensures Since(s + [x], date, d) == Since(s, date, d) + (if date(x) >= d then [x] else [])
  {
    WhereAppend(s, x, x => date(x) >= d);
  }

  /** The rows since `d` are all the rows exactly when no row is older; summing a
      non-negative column over them gives no more than over all rows. */
  lemma SinceBounds<T>(s: seq<T>, date: T -> Date, d: Date, f: T -> int)
    ensures |Since(s, date, d)| == |s| <==> forall x :: x in s ==> date(x) >= d
    ensures (forall x :: x in s ==> f(x) >= 0) ==> Sum(Since(s, date, d), f) <= Sum(s, f)
  {
    WhereKeepsAll(s, x => date(x) >= d);
    WhereSumAtMost(s, x => date(x) >= d, f);
  }

  lemma MatchingAppend<T, K>(s: seq<T>, x: T, key: T -> K, k: K)
    ensures Matching(s + [x], key, k) == Matching(s, key, k) + (if key(x) == k then [x] else [])
  {
    WhereAppend(s, x, x => key(x) == k);
  }

  lemma WithoutAppend<T, K>(s: seq<T>, x: T, key: T -> K, k: K)
    ensures Without(s + [x], key, k) == Without(s, key, k) + (if key(x) != k then [x] else [])
  {
    WhereAppend(s, x, x => key(x) != k);
  }

  lemma {:induction false} SumAppend<T>(s: seq<T>, x: T, f: T -> int)
    ensures Sum(s + [x], f) == Sum(s, f) + f(x)
  {
    if s == [] {
      assert Sum([x], f) == f(x) + Sum([], f);
    } else {
      assert (s + [x])[0] == s[0];
      assert (s + [x])[1..] == s[1..] + [x];
      SumAppend(s[1..], x, f);
    }
  }

  /** A filter keeps every row exactly when every row passes it. */
  lemma {:induction false} WhereKeepsAll<T>(s: seq<T>, p: T -> bool)
    ensures |Where(s, p)| == |s| <==> forall x :: x in s ==> p(x)
  {
    if s != [] {
      assert s == [s[0]] + s[1..];
      WhereKeepsAll(s[1..], p);
    }
  }

  /** Summing a non-negative column over a subset of the rows gives no more than
      summing it over all of them. */
  lemma {:induction false} WhereSumAtMost<T>(s: seq<T>, p: T -> bool, f: T -> int)
    ensures (forall x :: x in s ==> f(x) >= 0) ==> Sum(Where(s, p), f) <= Sum(s, f)
  {
    if s != [] {
      assert s == [s[0]] + s[1..];
      WhereSumAtMost(s[1..], p, f);
    }
  }

  /** Every row lands on exactly one side of a split on a key. */
  lemma {:induction false} SumSplit<T, K>(s: seq<T>, f: T -> int, key: T -> K, k: K)
    ensures Sum(s, f) == Sum(Matching(s, key, k), f) + Sum(Without(s, key, k), f)
    ensures |Matching(s, key, k)| + |Without(s, key, k)| == |s|
  {
    if s != [] {
      SumSplit(s[1..], f, key, k);
    }
  }

  lemma {:induction false} SumRealAppend<T>(s: seq<T>, x: T, f: T -> real)
    ensures SumReal(s + [x], f) == SumReal(s, f) + f(x)
  {
    if s == [] {
      assert SumReal([x], f) == f(x) + SumReal([], f);
    } else {
      assert (s + [x])[0] == s[0];
      assert (s + [x])[1..] == s[1..] + [x];
      SumRealAppend(s[1..], x, f);
    }
  }

  /** The head of the newest-first order is a row of `s` no older than any other. */
  lemma NewestFirstHead<T>(s: seq<T>, date: T -> Date)
    requires s != []
    ensures NewestFirst(s, date)[0] in s
    ensures forall x :: x in s ==> date(x) <= date(NewestFirst(s, date)[0])
  {
    var t := NewestFirst(s, date);
    assert t[0] in multiset(t);
    forall x | x in s ensures date(x) <= date(t[0]) {
      assert x in multiset(t);
      var j :| 0 <= j < |t| && t[j] == x;
    }
  }

  lemma {:induction false} MatchingWithout<T, K>(s: seq<T>, key: T -> K, k0: K, k: K)
    requires k != k0
    ensures Matching(Without(s, key, k0), key, k) == Matching(s, key, k)
  {
    if s != [] {
      MatchingWithout(s[1..], key, k0, k);
    }
  }

  /** Removing the rows with a key a second time removes nothing more. */
  lemma {:induction false} WithoutIdempotent<T, K>(s: seq<T>, key: T -> K, k: K)
    ensures Without(Without(s, key, k), key, k) == Without(s, key, k)
  {
    if s != [] {
      WithoutIdempotent(s[1..], key, k);
    }
  }

  /** Replacing a row by one with the same key leaves the other rows as they were. */
  lemma {:induction false} WithoutUpdate<T, K>(s: seq<T>, i: nat, y: T, key: T -> K)
    requires i < |s| && key(y) == key(s[i])
    ensures Without(s[i := y], key, key(y)) == Without(s, key, key(y))
  {
    if i > 0 {
      assert s[i := y][1..] == s[1..][i - 1 := y];
      WithoutUpdate(s[1..], i - 1, y, key);
    } else {
      assert s[i := y][1..] == s[1..];
    }
  }

  lemma DistinctCons<T, K>(x: T, s: seq<T>, key: T -> K)
    requires Distinct(s, key)
    requires forall y :: y in s ==> key(y) != key(x)
    ensures Distinct([x] + s, key)
  {
    forall i, j | 0 <= i < j < |[x] + s| ensures key(([x] + s)[i]) != key(([x] + s)[j]) {
      if i == 0 {
        assert ([x] + s)[j] == s[j - 1];
        assert s[j - 1] in s;
      }
    }
  }

  lemma DistinctTail<T, K>(s: seq<T>, key: T -> K)
    requires Distinct(s, key) && s != []
    ensures Distinct(s[1..], key)
    ensures forall y :: y in s[1..] ==> key(y) != key(s[0])
  {
    forall y | y in s[1..] ensures key(y) != key(s[0]) {
      var j :| 0 <= j < |s[1..]| && s[1..][j] == y;
      assert s[j + 1] == y;
    }
  }

  /** Filtering keeps a column unique. */
  lemma {:induction false} WhereKeepsDistinct<T, K>(s: seq<T>, p: T -> bool, key: T -> K)
    requires Distinct(s, key)
    ensures Distinct(Where(s, p), key)
  {
    if s != [] {
      DistinctTail(s, key);
      WhereKeepsDistinct(s[1..], p, key);
      if p(s[0]) {
        DistinctCons(s[0], Where(s[1..], p), key);
      }
    }
  }

  /** In a table whose column `key` is unique, the rows with the key of row `i`
      are that row alone. */
  lemma {:induction false} MatchingUnique<T, K>(s: seq<T>, key: T -> K, i: nat)
    requires Distinct(s, key) && i < |s|
    ensures Matching(s, key, key(s[i])) == [s[i]]
  {
    DistinctTail(s, key);
    if i == 0 {
      MatchingNone(s[1..], key, key(s[0]));
    } else {
      assert s[i] == s[1..][i - 1];
      MatchingUnique(s[1..], key, i - 1);
      assert key(s[0]) != key(s[i]) by {
        assert s[i] in s[1..];
      }
    }
  }

  /** No row has the key: nothing matches. */
  lemma {:induction false} MatchingNone<T, K>(s: seq<T>, key: T -> K, k: K)
    ensures (forall x :: x in s ==> key(x) != k) ==> Matching(s, key, k) == []
  {
    if s != [] && forall x :: x in s ==> key(x) != k {
      assert s[0] in s;
      MatchingNone(s[1..], key, k);
    }
  }

  /** Removing a key no row has changes nothing. */
  lemma {:induction false} WithoutNone<T, K>(s: seq<T>, key: T -> K, k: K)
    requires forall x :: x in s ==> key(x) != k
    ensures Without(s, key, k) == s
  {
    if s != [] {
      assert s[0] in s;
      assert s == [s[0]] + s[1..];
      WithoutNone(s[1..], key, k);
    }
  }

  /** Deleting by a unique key: the table loses exactly one row when the key is
      present, and is unchanged when it is not. */
  lemma WithoutUniqueKey<T, K>(s: seq<T>, key: T -> K, k: K)
    requires Distinct(s, key)
    ensures (exists x :: x in s && key(x) == k) ==> |Without(s, key, k)| == |s| - 1
    ensures (forall x :: x in s ==> key(x) != k) ==> Without(s, key, k) == s
  {
    if x :| x in s && key(x) == k {
      var i :| 0 <= i < |s| && s[i] == x;
      MatchingUnique(s, key, i);
      SumSplit(s, x => 0, key, k);
    } else {
      WithoutNone(s, key, k);
    }
  }

  /** Replacing a row by one with the same key keeps the column unique. */
  lemma DistinctUpdate<T, K>(s: seq<T>, i: nat, y: T, key: T -> K)
    requires Distinct(s, key) && i < |s| && key(y) == key(s[i])
    ensures Distinct(s[i := y], key)
  {
  }

  /** A table with a unique column holds each row at most once. */
  lemma {:induction false} DistinctCount<T, K>(s: seq<T>, key: T -> K, x: T)
    requires Distinct(s, key)
    ensures multiset(s)[x] <= 1
  {
    if s != [] {
      assert s == [s[0]] + s[1..];
      DistinctTail(s, key);
      DistinctCount(s[1..], key, x);
      if s[0] == x {
        assert x !in s[1..] by {
          forall j | 0 <= j < |s[1..]| ensures s[1..][j] != x {
            assert key(s[0]) != key(s[j + 1]);
          }
        }
      }
    }
  }

  /** A selection of the rows of a table (as a multiset) keeps a unique column unique. */
  lemma DistinctOfSubMultiset<T, K>(r: seq<T>, s: seq<T>, key: T -> K)
    requires Distinct(s, key) && multiset(r) <= multiset(s)
    ensures Distinct(r, key)
  {
    forall i, j | 0 <= i < j < |r| ensures key(r[i]) != key(r[j]) {
      assert r[i] in multiset(s) && r[j] in multiset(s);
      var a :| 0 <= a < |s| && s[a] == r[i];
      var b :| 0 <= b < |s| && s[b] == r[j];
      DistinctCount(s, key, r[i]);
      OnceAtOnePosition(r, i, j);
      if a < b {
        assert key(s[a]) != key(s[b]);
      } else {
        assert key(s[b]) != key(s[a]);
      }
    }
  }

  /** A value held once by a sequence sits at one position only. */
  lemma OnceAtOnePosition<T>(r: seq<T>, i: nat, j: nat)
    requires i < j < |r| && multiset(r)[r[i]] <= 1
    ensures r[i] != r[j]
  {
    assert r == r[..j] + r[j..];
    assert r[i] == r[..j][i];
    assert r[j] == r[j..][0];
  }

  /** In a unique column, at most one row has any given key. */
  lemma AtMostOneRowPerKey<T, K>(s: seq<T>, key: T -> K, k: K)
    requires Distinct(s, key)
    ensures |Matching(s, key, k)| <= 1
  {
    if x :| x in s && key(x) == k {
      var i :| 0 <= i < |s| && s[i] == x;
      MatchingUnique(s, key, i);
    } else {
      MatchingNone(s, key, k);
    }
  }

  /** Removing rows keeps any column unique. */
  lemma WithoutKeepsDistinct<T, K, J>(s: seq<T>, key: T -> K, k: K, other: T -> J)
    requires Distinct(s, other)
    ensures Distinct(Without(s, key, k), other)
  {
    WhereKeepsDistinct(s, x => key(x) != k, other);
  }

  /** The first row with key `k` is at `i` when row `i` has it and no earlier row does. */
  lemma FirstIndexAt<T, K>(s: seq<T>, key: T -> K, k: K, i: nat)
    requires i < |s| && key(s[i]) == k
    requires forall j :: 0 <= j < i ==> key(s[j]) != k
    ensures FirstIndex(s, key, k) == Some(i)
  {
    assert s[i] in s;
  }

  /** Appending a row whose column `key` is fresh keeps the column unique. */
  lemma DistinctAppend<T, K>(s: seq<T>, x: T, key: T -> K)
    requires Distinct(s, key)
    requires forall y :: y in s ==> key(y) != key(x)
    ensures Distinct(s + [x], key)
  {
    forall i, j | 0 <= i < j < |s + [x]| ensures key((s + [x])[i]) != key((s + [x])[j]) {
      if j == |s| {
        assert (s + [x])[i] == s[i] && s[i] in s;
      }
    }
  }

  lemma {:induction false} GroupSumWithout<T, K>(keys: seq<K>, s: seq<T>, key: T -> K, f: T -> int, k0: K)
    requires k0 !in keys
    ensures GroupSum(keys, Without(s, key, k0), key, f) == GroupSum(keys, s, key, f)
  {
    if keys != [] {
      assert keys[0] in keys;
      MatchingWithout(s, key, k0, keys[0]);
      assert forall k :: k in keys[1..] ==> k in keys;
      GroupSumWithout(keys[1..], s, key, f, k0);
    }
  }

  /** The groups partition the rows: with distinct keys that cover every row,
      the group totals add up to the total over all rows. */
  lemma {:induction false} GroupSumTotal<T, K>(keys: seq<K>, s: seq<T>, key: T -> K, f: T -> int)
    requires NoDuplicates(keys)
    requires forall x :: x in s ==> key(x) in keys
    ensures Column(GroupSum(keys, s, key, f)) == Sum(s, f)
  {
    if keys == [] {
      assert forall i :: 0 <= i < |s| ==> s[i] in s;
    } else {
      var k0, rest := keys[0], keys[1..];
      assert keys == [k0] + rest;
      assert k0 !in rest;
      var others := Without(s, key, k0);
      assert NoDuplicates(rest) by {
        forall i, j | 0 <= i < j < |rest| ensures rest[i] != rest[j] {
          assert rest[i] == keys[i + 1] && rest[j] == keys[j + 1];
        }
      }
      GroupSumTotal(rest, others, key, f);
      GroupSumWithout(rest, s, key, f, k0);
      SumSplit(s, f, key, k0);
    }
  }
}
