/**
 * What the handlers obtain from SQL, stated over an in-memory table (a
 * sequence of rows): `WHERE` (Select), `UPDATE ... WHERE` (UpdateWhere),
 * `DELETE ... WHERE` (DeleteWhere), `ORDER BY` and `LIMIT`.
 *
 * `ORDER BY` leaves the order of rows with equal keys unspecified, so the
 * contracts below only promise a sorted permutation of the selected rows,
 * never a particular order among ties.
 */
module Rows {

  /** An ORDER BY value: a number (day numbers, timestamps, ranks) or a text (titles, categories). */
  datatype Key = Num(n: int) | Text(s: string)

  datatype Direction = Asc | Desc

  function Min(a: int, b: int): int
  {
    if a <= b then a else b
  }

  lemma SplitLast<T>(s: seq<T>)
    requires s != []
    ensures s == s[..|s| - 1] + [s[|s| - 1]]
  {
  }

  // ---------------------------------------------------------------------------
  // WHERE, UPDATE ... WHERE, DELETE ... WHERE

  /** `SELECT * ... WHERE keep`: the rows satisfying keep, in table order. */
  function Select<T(!new)>(rows: seq<T>, keep: T -> bool): (r: seq<T>)
    ensures |r| <= |rows|
    ensures forall x :: x in r <==> x in rows && keep(x)
  {
    if rows == [] then []
    else
      var init, last := rows[..|rows| - 1], rows[|rows| - 1];
      assert rows == init + [last];
      Select(init, keep) + (if keep(last) then [last] else [])
  }

  lemma SelectAppend<T(!new)>(rows: seq<T>, x: T, keep: T -> bool)
    ensures Select(rows + [x], keep) == Select(rows, keep) + (if keep(x) then [x] else [])
  {
    assert (rows + [x])[..|rows|] == rows;
  }

  /** `COUNT(*)` is zero exactly when no row qualifies. */
  lemma SelectEmpty<T(!new)>(rows: seq<T>, keep: T -> bool)
    ensures |Select(rows, keep)| == 0 <==> forall x :: x in rows ==> !keep(x)
  {
    var r := Select(rows, keep);
    if |r| > 0 {
      assert r[0] in r;
    }
  }

  /** A stricter WHERE clause counts no more rows. */
  lemma {:induction false} SelectMonotone<T(!new)>(rows: seq<T>, strict: T -> bool, loose: T -> bool)
    requires forall x :: strict(x) ==> loose(x)
    ensures |Select(rows, strict)| <= |Select(rows, loose)|
  {
    if rows != [] {
      var init, last := rows[..|rows| - 1], rows[|rows| - 1];
      SelectMonotone(init, strict, loose);
      SplitLast(rows);
      SelectAppend(init, last, strict);
      SelectAppend(init, last, loose);
    }
  }

  /** `UPDATE ... SET f WHERE matches`: every matching row is rewritten by f, every other row is kept, in place. */
  function UpdateWhere<T(!new)>(rows: seq<T>, matches: T -> bool, f: T -> T): (r: seq<T>)
    ensures |r| == |rows|
    ensures forall i :: 0 <= i < |rows| ==> r[i] == if matches(rows[i]) then f(rows[i]) else rows[i]
  {
    if rows == [] then []
    else
      var last := rows[|rows| - 1];
      UpdateWhere(rows[..|rows| - 1], matches, f) + [if matches(last) then f(last) else last]
  }

  /** The negation of a WHERE clause. */
  function Not<T>(p: T -> bool): T -> bool
  {
    (x: T) => !p(x)
  }

  /** `DELETE ... WHERE matches`: the rows that do not match, in table order. */
  function DeleteWhere<T(!new)>(rows: seq<T>, matches: T -> bool): (r: seq<T>)
    ensures r == Select(rows, Not(matches))
    ensures |r| <= |rows|
    ensures forall x :: x in r <==> x in rows && !matches(x)
    ensures multiset(r) <= multiset(rows)
  {
    if rows == [] then []
    else
      var init, last := rows[..|rows| - 1], rows[|rows| - 1];
      assert rows == init + [last];
      DeleteWhere(init, matches) + (if matches(last) then [] else [last])
  }

  /** A row that matches nothing is left alone by UPDATE ... WHERE. */
  lemma {:induction false} UpdateWhereNoMatch<T(!new)>(rows: seq<T>, matches: T -> bool, f: T -> T)
    requires forall x :: x in rows ==> !matches(x)
    ensures UpdateWhere(rows, matches, f) == rows
  {
    if rows != [] {
      UpdateWhereNoMatch(rows[..|rows| - 1], matches, f);
    }
  }

  /**
   * An update confined to rows outside a view leaves the view as it was: if
   * no matching row belongs to the view, before or after being rewritten,
   * the rows of the view are the same, in the same order.
   */
  lemma {:induction false} UpdateWhereOutsideView<T(!new)>(rows: seq<T>, matches: T -> bool, f: T -> T, view: T -> bool)
    requires forall x :: matches(x) ==> !view(x) && !view(f(x))
    ensures Select(UpdateWhere(rows, matches, f), view) == Select(rows, view)
  {
    if rows != [] {
      var init, last := rows[..|rows| - 1], rows[|rows| - 1];
      var v := if matches(last) then f(last) else last;
      UpdateWhereOutsideView(init, matches, f, view);
      assert UpdateWhere(rows, matches, f) == UpdateWhere(init, matches, f) + [v];
      SelectAppend(UpdateWhere(init, matches, f), v, view);
      SplitLast(rows);
      SelectAppend(init, last, view);
      assert view(v) == view(last) && (view(v) ==> v == last);
    }
  }

  /** A deletion confined to rows outside a view leaves the view as it was. */
  lemma {:induction false} DeleteWhereOutsideView<T(!new)>(rows: seq<T>, matches: T -> bool, view: T -> bool)
    requires forall x :: matches(x) ==> !view(x)
    ensures Select(DeleteWhere(rows, matches), view) == Select(rows, view)
  {
    if rows != [] {
      var init, last := rows[..|rows| - 1], rows[|rows| - 1];
      var d := DeleteWhere(init, matches);
      DeleteWhereOutsideView(init, matches, view);
      SplitLast(rows);
      SelectAppend(init, last, view);
      if matches(last) {
        assert DeleteWhere(rows, matches) == d + [];
        assert d + [] == d;
      } else {
        assert DeleteWhere(rows, matches) == d + [last];
        SelectAppend(d, last, view);
      }
    }
  }

  /** Deleting what matches nothing removes nothing. */
  lemma {:induction false} DeleteWhereNoMatch<T(!new)>(rows: seq<T>, matches: T -> bool)
    requires forall x :: x in rows ==> !matches(x)
    ensures DeleteWhere(rows, matches) == rows
  {
    if rows != [] {
      DeleteWhereNoMatch(rows[..|rows| - 1], matches);
      SplitLast(rows);
    }
  }

  // ---------------------------------------------------------------------------
  // Keys

  /** No two positions of the table carry the same key: what a PRIMARY KEY or UNIQUE column guarantees. */
  ghost predicate DistinctBy<T, K>(rows: seq<T>, key: T -> K)
  {
    forall i, j :: 0 <= i < j < |rows| ==> key(rows[i]) != key(rows[j])
  }

  /** Under a unique key, two rows of the table with the same key are the same row. */
  lemma DistinctMembers<T, K>(rows: seq<T>, key: T -> K, x: T, y: T)
    requires DistinctBy(rows, key) && x in rows && y in rows && key(x) == key(y)
    ensures x == y
  {
    var i :| 0 <= i < |rows| && rows[i] == x;
    var j :| 0 <= j < |rows| && rows[j] == y;
    assert key(rows[i]) == key(rows[j]);
    assert i == j;
  }

  /** A SELECT of a table with a unique key never returns that key twice. */
  lemma {:induction false} SelectKeepsDistinct<T(!new), K>(rows: seq<T>, keep: T -> bool, key: T -> K)
    requires DistinctBy(rows, key)
    ensures DistinctBy(Select(rows, keep), key)
  {
    if rows != [] {
      var init, last := rows[..|rows| - 1], rows[|rows| - 1];
      SelectKeepsDistinct(init, keep, key);
      SplitLast(rows);
      SelectAppend(init, last, keep);
      var s := Select(init, keep);
      forall i | 0 <= i < |s|
        ensures key(s[i]) != key(last)
      {
        assert s[i] in s;
        var k :| 0 <= k < |init| && init[k] == s[i];
        assert rows[k] == s[i];
      }
    }
  }

  /** DELETE keeps a unique key unique. */
  lemma DeleteWhereKeepsDistinct<T(!new), K>(rows: seq<T>, matches: T -> bool, key: T -> K)
    requires DistinctBy(rows, key)
    ensures DistinctBy(DeleteWhere(rows, matches), key)
  {
    SelectKeepsDistinct(rows, Not(matches), key);
  }

  /** An UPDATE that never rewrites the key keeps it unique. */
  lemma UpdateWhereKeepsDistinct<T(!new), K>(rows: seq<T>, matches: T -> bool, f: T -> T, key: T -> K)
    requires DistinctBy(rows, key)
    requires forall x :: key(f(x)) == key(x)
    ensures DistinctBy(UpdateWhere(rows, matches, f), key)
  {
    var r := UpdateWhere(rows, matches, f);
    forall i, j | 0 <= i < j < |r|
      ensures key(r[i]) != key(r[j])
    {
      assert key(r[i]) == key(rows[i]) && key(r[j]) == key(rows[j]);
    }
  }

  /** An INSERT of a row whose key no row has keeps the key unique. */
  lemma AppendKeepsDistinct<T, K>(rows: seq<T>, x: T, key: T -> K)
    requires DistinctBy(rows, key)
    requires forall y :: y in rows ==> key(y) != key(x)
    ensures DistinctBy(rows + [x], key)
  {
    var r := rows + [x];
    forall i, j | 0 <= i < j < |r|
      ensures key(r[i]) != key(r[j])
    {
      if j == |rows| {
        assert r[i] in rows;
      } else {
        assert r[i] == rows[i] && r[j] == rows[j];
      }
    }
  }

  // ---------------------------------------------------------------------------
  // ORDER BY

  /** Code-point lexicographic order on text; the empty text comes first. */
  predicate LexLeq(a: string, b: string)
  {
    a == [] || (b != [] && (a[0] < b[0] || (a[0] == b[0] && LexLeq(a[1..], b[1..]))))
  }

  lemma {:induction false} LexLeqTotal(a: string, b: string)
    ensures LexLeq(a, b) || LexLeq(b, a)
  {
    if a != [] && b != [] && a[0] == b[0] {
      LexLeqTotal(a[1..], b[1..]);
    }
  }

  lemma {:induction false} LexLeqTransitive(a: string, b: string, c: string)
    requires LexLeq(a, b) && LexLeq(b, c)
    ensures LexLeq(a, c)
  {
    if a != [] && b != [] && c != [] && a[0] == b[0] == c[0] {
      LexLeqTransitive(a[1..], b[1..], c[1..]);
    }
  }

  lemma {:induction false} LexLeqAntisymmetric(a: string, b: string)
    requires LexLeq(a, b) && LexLeq(b, a)
    ensures a == b
  {
    if a != [] && b != [] {
      LexLeqAntisymmetric(a[1..], b[1..]);
      assert a == [a[0]] + a[1..] && b == [b[0]] + b[1..];
    }
  }

  /** Ascending order on keys: numbers by value, texts lexicographically, numbers before texts. */
  predicate KeyLeq(a: Key, b: Key)
  {
    match (a, b)
    case (Num(x), Num(y)) => x <= y
    case (Text(x), Text(y)) => LexLeq(x, y)
    case (Num(_), Text(_)) => true
    case (Text(_), Num(_)) => false
  }

  /** a may come before b in a listing `ORDER BY ... dir`. */
  predicate InOrder(dir: Direction, a: Key, b: Key)
  {
    if dir == Asc then KeyLeq(a, b) else KeyLeq(b, a)
  }

  lemma InOrderTotal(dir: Direction, a: Key, b: Key)
    ensures InOrder(dir, a, b) || InOrder(dir, b, a)
  {
    if a.Text? && b.Text? {
      LexLeqTotal(a.s, b.s);
    }
  }

  lemma InOrderTransitive(dir: Direction, a: Key, b: Key, c: Key)
    requires InOrder(dir, a, b) && InOrder(dir, b, c)
    ensures InOrder(dir, a, c)
  {
    if a.Text? && b.Text? && c.Text? {
      if dir == Asc {
        LexLeqTransitive(a.s, b.s, c.s);
      } else {
        LexLeqTransitive(c.s, b.s, a.s);
      }
    }
  }

  /** The rows are listed in `ORDER BY key dir` order. */
  ghost predicate Sorted<T(!new)>(s: seq<T>, key: T -> Key, dir: Direction)
  {
    forall i, j :: 0 <= i < j < |s| ==> InOrder(dir, key(s[i]), key(s[j]))
  }

  /** Places x into a sorted listing, after every row that may precede it. */
  function Insert<T(!new)>(s: seq<T>, x: T, key: T -> Key, dir: Direction): (r: seq<T>)
    ensures multiset(r) == multiset(s) + multiset{x}
    ensures Sorted(s, key, dir) ==> Sorted(r, key, dir)
  {
    if s == [] then [x]
    else if InOrder(dir, key(s[0]), key(x)) then
      var rest := Insert(s[1..], x, key, dir);
      assert s == [s[0]] + s[1..];
      InsertHeadSorted(s, x, key, dir, rest);
      [s[0]] + rest
    else
      InOrderTotal(dir, key(s[0]), key(x));
      assert s == [s[0]] + s[1..];
      PrependSorted(x, s, key, dir);
      [x] + s
  }

  lemma PrependSorted<T(!new)>(x: T, s: seq<T>, key: T -> Key, dir: Direction)
    requires s != [] && InOrder(dir, key(x), key(s[0]))
    ensures Sorted(s, key, dir) ==> Sorted([x] + s, key, dir)
  {
    if Sorted(s, key, dir) {
      forall j | 0 < j < |s| {
        InOrderTransitive(dir, key(x), key(s[0]), key(s[j]));
      }
    }
  }

  lemma InsertHeadSorted<T(!new)>(s: seq<T>, x: T, key: T -> Key, dir: Direction, rest: seq<T>)
    requires s != [] && InOrder(dir, key(s[0]), key(x))
    requires multiset(rest) == multiset(s[1..]) + multiset{x}
    requires Sorted(s, key, dir) ==> Sorted(rest, key, dir)
    ensures Sorted(s, key, dir) ==> Sorted([s[0]] + rest, key, dir)
  {
    if Sorted(s, key, dir) {
      forall j | 0 <= j < |rest|
        ensures InOrder(dir, key(s[0]), key(rest[j]))
      {
        assert rest[j] in multiset(rest);
        if rest[j] != x {
          assert rest[j] in multiset(s[1..]);
          var k :| 0 <= k < |s[1..]| && s[1..][k] == rest[j];
          assert s[k + 1] == rest[j];
        }
      }
    }
  }

  /**
   * The query `SELECT * ... WHERE keep ORDER BY key dir` together with the
   * loop that fetches its rows one by one: every selected row, in sorted
   * order.
   */
  method SelectOrdered<T(!new)>(rows: seq<T>, keep: T -> bool, key: T -> Key, dir: Direction) returns (out: seq<T>)
    ensures multiset(out) == multiset(Select(rows, keep))
    ensures forall x :: x in out <==> x in rows && keep(x)
    ensures Sorted(out, key, dir)
  {
    out := [];
    for i := 0 to |rows|
      invariant multiset(out) == multiset(Select(rows[..i], keep))
      invariant Sorted(out, key, dir)
    {
      assert rows[..i + 1] == rows[..i] + [rows[i]];
      SelectAppend(rows[..i], rows[i], keep);
      if keep(rows[i]) {
        out := Insert(out, rows[i], key, dir);
      }
    }
    assert rows[..|rows|] == rows;
    forall x ensures x in out <==> x in rows && keep(x) {
      assert x in out <==> x in multiset(out);
      assert x in Select(rows, keep) <==> x in multiset(Select(rows, keep));
    }
  }

  /**
   * The same query with `LIMIT limit`: the first rows of the sorted listing.
   * Whatever the limit cut off may not come before anything that was kept,
   * and when no more than limit rows qualify, all of them are listed.
   */
  method SelectOrderedLimit<T(!new)>(rows: seq<T>, keep: T -> bool, key: T -> Key, dir: Direction, limit: nat)
    returns (out: seq<T>)
    ensures |out| == Min(limit, |Select(rows, keep)|)
    ensures multiset(out) <= multiset(Select(rows, keep))
    ensures forall x :: x in out ==> x in rows && keep(x)
    ensures Sorted(out, key, dir)
    ensures forall x, y :: x in rows && keep(x) && x !in out && y in out ==> InOrder(dir, key(y), key(x))
    ensures |Select(rows, keep)| <= limit ==> multiset(out) == multiset(Select(rows, keep))
    ensures |Select(rows, keep)| <= limit ==> forall x :: x in rows && keep(x) ==> x in out
  {
    var all := SelectOrdered(rows, keep, key, dir);
    var k := Min(limit, |all|);
    out := all[..k];
    PrefixOfSorted(all, k, key, dir);
    assert |multiset(all)| == |all|;
    forall x | x in out
      ensures x in rows && keep(x)
    {
      assert x in all;
    }
    forall x, y | x in rows && keep(x) && x !in out && y in out
      ensures InOrder(dir, key(y), key(x))
    {
      assert x in multiset(all) && x !in multiset(out);
    }
    if |Select(rows, keep)| <= limit {
      assert out == all;
    }
  }

  /** A prefix of a sorted listing holds some of its rows, and none of the rest may come before any of them. */
  lemma PrefixOfSorted<T(!new)>(all: seq<T>, k: nat, key: T -> Key, dir: Direction)
    requires Sorted(all, key, dir) && k <= |all|
    ensures multiset(all) == multiset(all[..k]) + multiset(all[k..])
    ensures forall x, y :: x in multiset(all) && x !in multiset(all[..k]) && y in all[..k] ==> InOrder(dir, key(y), key(x))
  {
    assert all == all[..k] + all[k..];
    forall x, y | x in multiset(all) && x !in multiset(all[..k]) && y in all[..k]
      ensures InOrder(dir, key(y), key(x))
    {
      assert x in multiset(all[k..]);
      var j :| 0 <= j < |all[k..]| && all[k..][j] == x;
      var i :| 0 <= i < k && all[..k][i] == y;
      assert all[i] == y && all[k + j] == x;
    }
  }
}
