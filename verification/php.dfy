/**
 * The few PHP built-ins whose exact behaviour the request handlers depend on:
 * `empty()` on a string, `trim()`, `strlen`/`substr` truncation and the
 * substring test that a `LIKE '%q%'` pattern performs.
 */
module Php {

  datatype Option<+T> = None | Some(value: T)

  /** The outcome of a validation chain: either every check passed, or the first one that failed. */
  datatype Outcome<+E> = Pass | Fail(error: E)

  /**
   * PHP `empty()` on a string: true for "" and also for "0". No string of
   * two or more characters is empty, not even "00" or " ".
   */
  predicate IsEmpty(s: string)
    ensures IsEmpty(s) ==> |s| <= 1
    ensures |s| == 1 ==> (IsEmpty(s) <==> s[0] == '0')
  {
    s == "" || s == "0"
  }

  /** One key/value pair of an ordered PHP array. */
  datatype Entry<K, V> = Entry(key: K, value: V)

  /** `$a[$k]`: the value stored under k, if any. */
  function Get<K(==), V>(a: seq<Entry<K, V>>, k: K): (r: Option<V>)
    ensures r.None? <==> forall i :: 0 <= i < |a| ==> a[i].key != k
    ensures r.Some? ==> exists i :: 0 <= i < |a| && a[i] == Entry(k, r.value)
  {
    if a == [] then None
    else if a[0].key == k then
      assert a[0] == Entry(k, a[0].value);
      Some(a[0].value)
    else
      var r := Get(a[1..], k);
      assert r.Some? ==> exists i :: 0 <= i < |a[1..]| && a[1..][i] == Entry(k, r.value);
      assert r.Some? ==> exists i :: 0 <= i < |a| && a[i] == Entry(k, r.value);
      r
  }

  ghost predicate DistinctKeys<K, V>(a: seq<Entry<K, V>>)
  {
    forall i, j :: 0 <= i < j < |a| ==> a[i].key != a[j].key
  }

  /**
   * `$a[$k] = $v`: a key already present keeps its position and takes the
   * new value; a new key is appended at the end.
   */
  function Put<K(==, !new), V>(a: seq<Entry<K, V>>, k: K, v: V): (r: seq<Entry<K, V>>)
    ensures Get(r, k) == Some(v)
    ensures forall o :: o != k ==> Get(r, o) == Get(a, o)
    ensures Get(a, k).None? ==> r == a + [Entry(k, v)]
  {
    if a == [] then [Entry(k, v)]
    else if a[0].key == k then [Entry(k, v)] + a[1..]
    else [a[0]] + Put(a[1..], k, v)
  }

  /** Overwriting a key already present keeps the array's keys, in their order. */
  lemma {:induction false} PutKeepsKeys<K(!new), V>(a: seq<Entry<K, V>>, k: K, v: V)
    requires Get(a, k).Some?
    ensures |Put(a, k, v)| == |a| && forall i :: 0 <= i < |a| ==> Put(a, k, v)[i].key == a[i].key
  {
    if a[0].key != k {
      PutKeepsKeys(a[1..], k, v);
    }
  }

  /** Storing under a key never makes two entries share a key. */
  lemma PutKeepsDistinct<K(!new), V>(a: seq<Entry<K, V>>, k: K, v: V)
    requires DistinctKeys(a)
    ensures DistinctKeys(Put(a, k, v))
  {
    var r := Put(a, k, v);
    if Get(a, k).Some? {
      PutKeepsKeys(a, k, v);
      forall i, j | 0 <= i < j < |r|
        ensures r[i].key != r[j].key
      {
        assert r[i].key == a[i].key && r[j].key == a[j].key;
      }
    } else {
      forall i, j | 0 <= i < j < |r|
        ensures r[i].key != r[j].key
      {
        assert r[i] == a[i];
        if j < |a| {
          assert r[j] == a[j];
        }
      }
    }
  }

  /** The characters PHP `trim()` removes by default: space, tab, newline, carriage return, NUL, vertical tab. */
  predicate IsTrimmed(c: char)
  {
    c == ' ' || c == '\t' || c == '\n' || c == '\r' || c == '\0' || c == '\U{B}'
  }

  function TrimLeft(s: string): (r: string)
    ensures |r| <= |s| && r == s[|s| - |r|..]
    ensures forall i :: 0 <= i < |s| - |r| ==> IsTrimmed(s[i])
    ensures r == [] || !IsTrimmed(r[0])
  {
    if s != [] && IsTrimmed(s[0]) then TrimLeft(s[1..]) else s
  }

  function TrimRight(s: string): (r: string)
    ensures |r| <= |s| && r == s[..|r|]
    ensures forall i :: |r| <= i < |s| ==> IsTrimmed(s[i])
    ensures r == [] || !IsTrimmed(r[|r| - 1])
  {
    if s != [] && IsTrimmed(s[|s| - 1]) then TrimRight(s[..|s| - 1]) else s
  }

  /** s[lo..hi] is what remains of s once only trimmed characters are cut from both ends. */
  ghost predicate TrimBounds(s: string, lo: int, hi: int)
  {
    && 0 <= lo <= hi <= |s|
    && (forall i :: 0 <= i < lo ==> IsTrimmed(s[i]))
    && (forall i :: hi <= i < |s| ==> IsTrimmed(s[i]))
  }

  /** PHP `trim($s)`: the longest infix of s that neither starts nor ends with a trimmed character. */
  function Trim(s: string): (r: string)
    ensures exists lo, hi :: TrimBounds(s, lo, hi) && r == s[lo..hi]
    ensures r == [] || (!IsTrimmed(r[0]) && !IsTrimmed(r[|r| - 1]))
  {
    var l := TrimLeft(s);
    var r := TrimRight(l);
    var lo, hi := |s| - |l|, |s| - |l| + |r|;
    assert r == s[lo..hi];
    assert TrimBounds(s, lo, hi) by {
      forall i | hi <= i < |s|
        ensures IsTrimmed(s[i])
      {
        assert s[i] == l[i - lo];
      }
    }
    r
  }

  predicate IsPrefix(q: string, s: string)
  {
    |q| <= |s| && s[..|q|] == q
  }

  /** q occurs in s starting at position i. */
  predicate OccursAt(s: string, q: string, i: int)
  {
    0 <= i && i + |q| <= |s| && s[i..i + |q|] == q
  }

  /** The text contains the query as a contiguous substring (what `LIKE '%q%'` tests, without wildcards or collation). */
  function Contains(s: string, q: string): (r: bool)
    ensures r <==> exists i :: OccursAt(s, q, i)
  {
    if IsPrefix(q, s) then
      assert OccursAt(s, q, 0);
      true
    else if s == [] then
      false
    else
      ContainsShift(s, q);
      Contains(s[1..], q)
  }

  /** When q is not a prefix of s, its occurrences in s are those in the tail of s, one position later. */
  lemma ContainsShift(s: string, q: string)
    requires s != [] && !IsPrefix(q, s)
    ensures (exists i :: OccursAt(s, q, i)) <==> (exists i :: OccursAt(s[1..], q, i))
  {
    if i :| OccursAt(s, q, i) {
      assert i != 0;
      TailSlice(s, i - 1, i - 1 + |q|);
      assert OccursAt(s[1..], q, i - 1);
    }
    if i :| OccursAt(s[1..], q, i) {
      TailSlice(s, i, i + |q|);
      assert OccursAt(s, q, i + 1);
    }
  }

  /** A slice of the tail of s is the slice of s one position later. */
  lemma TailSlice(s: string, lo: int, hi: int)
    requires s != [] && 0 <= lo <= hi <= |s| - 1
    ensures s[1..][lo..hi] == s[lo + 1..hi + 1]
  {
    forall k | 0 <= k < hi - lo
      ensures s[1..][lo..hi][k] == s[lo + 1..hi + 1][k]
    {
    }
  }

  /**
   * `strlen($s) > n ? substr($s, 0, n) . '...' : $s`: text of at most n
   * characters is shown unchanged, longer text is cut to its first n
   * characters followed by an ellipsis.
   */
  function Truncate(s: string, n: nat): (r: string)
    ensures |s| <= n ==> r == s
    ensures |s| > n ==> |r| == n + 3 && IsPrefix(s[..n], r) && r[n..] == "..."
  {
    if |s| > n then s[..n] + "..." else s
  }
}
