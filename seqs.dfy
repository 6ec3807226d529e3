/**
 * The relational operations the queries are made of, over a table held as a
 * sequence of rows in storage order: selection, "first match" (LIMIT 1),
 * "first minimum" (ORDER BY key LIMIT 1), ordering by a key, and string joins.
 */
module Seqs {
  import opened Options

  /** Index of the first element that satisfies `p`, or None. */
  function FirstIndex<T>(s: seq<T>, p: T -> bool): (r: Option<nat>)
    ensures r.Some? ==> r.value < |s| && p(s[r.value])
    ensures r.Some? ==> forall j :: 0 <= j < r.value ==> !p(s[j])
    ensures r.None? <==> forall j :: 0 <= j < |s| ==> !p(s[j])
  {
    if |s| == 0 then None
    else if p(s[0]) then Some(0)
    else match FirstIndex(s[1..], p)
      case None => None
      case Some(i) => Some(i + 1)
  }

  /** The first element that satisfies `p`, or None. */
  function FirstWhere<T>(s: seq<T>, p: T -> bool): (r: Option<T>)
    ensures r.Some? <==> exists j :: 0 <= j < |s| && p(s[j])
    ensures r.Some? ==> r.value in s && p(r.value)
  {
    match FirstIndex(s, p)
    case None => None
    case Some(i) => Some(s[i])
  }

  /** Two selections that agree on every row of the table pick the same first row. */
  lemma {:induction false} FirstIndexAgree<T>(s: seq<T>, p: T -> bool, q: T -> bool)
    requires forall j :: 0 <= j < |s| ==> p(s[j]) == q(s[j])
    ensures FirstIndex(s, p) == FirstIndex(s, q)
  {
    if |s| > 0 && !p(s[0]) {
      FirstIndexAgree(s[1..], p, q);
    }
  }

  /** The rows satisfying `p`, in storage order. */
  function Filter<T(!new)>(s: seq<T>, p: T -> bool): (r: seq<T>)
    ensures |r| <= |s|
    ensures forall x :: x in r ==> p(x)
    ensures forall x :: multiset(r)[x] == if p(x) then multiset(s)[x] else 0
  {
    if |s| == 0 then []
    else
      assert s == [s[0]] + s[1..];
      if p(s[0]) then [s[0]] + Filter(s[1..], p) else Filter(s[1..], p)
  }

  /** SELECT f(row) WHERE p(row): the projections of the rows satisfying `p`, in storage order. */
  function Select<T, U>(s: seq<T>, p: T -> bool, f: T -> U): (r: seq<U>)
    ensures |r| <= |s|
  {
    if |s| == 0 then []
    else if p(s[0]) then [f(s[0])] + Select(s[1..], p, f)
    else Select(s[1..], p, f)
  }

  /** A selection returns exactly the projections of the qualifying rows. */
  lemma SelectIff<T, U(!new)>(s: seq<T>, p: T -> bool, f: T -> U)
    ensures forall y :: y in Select(s, p, f) <==> exists i :: 0 <= i < |s| && p(s[i]) && y == f(s[i])
  {
    forall y ensures y in Select(s, p, f) <==> exists i :: 0 <= i < |s| && p(s[i]) && y == f(s[i]) {
      SelectMember(s, p, f, y);
    }
  }

  lemma {:induction false} SelectMember<T, U>(s: seq<T>, p: T -> bool, f: T -> U, y: U)
    ensures y in Select(s, p, f) <==> exists i :: 0 <= i < |s| && p(s[i]) && y == f(s[i])
  {
    if |s| > 0 {
      SelectMember(s[1..], p, f, y);
      if exists i :: 0 <= i < |s| && p(s[i]) && y == f(s[i]) {
        var i :| 0 <= i < |s| && p(s[i]) && y == f(s[i]);
        if i > 0 {
          assert s[1..][i - 1] == s[i];
        }
      }
      if exists i :: 0 <= i < |s[1..]| && p(s[1..][i]) && y == f(s[1..][i]) {
        var i :| 0 <= i < |s[1..]| && p(s[1..][i]) && y == f(s[1..][i]);
        assert s[i + 1] == s[1..][i];
      }
    }
  }

  /** Selection distributes over concatenation, so it keeps the storage order. */
  lemma {:induction false} SelectAppend<T, U>(a: seq<T>, b: seq<T>, p: T -> bool, f: T -> U)
    ensures Select(a + b, p, f) == Select(a, p, f) + Select(b, p, f)
  {
    if |a| > 0 {
      assert (a + b)[1..] == a[1..] + b;
      SelectAppend(a[1..], b, p, f);
    } else {
      assert a + b == b;
    }
  }

  /** The number of elements that satisfy `p` and project to `y` under `f`. */
  function CountWhere<T, U(==)>(s: seq<T>, p: T -> bool, f: T -> U, y: U): nat
  {
    if |s| == 0 then 0 else (if p(s[0]) && f(s[0]) == y then 1 else 0) + CountWhere(s[1..], p, f, y)
  }

  /**
   * A selection returns each qualifying row exactly once: a value occurs in
   * it as many times as there are qualifying rows that project to it.
   */
  lemma {:induction false} SelectCount<T, U>(s: seq<T>, p: T -> bool, f: T -> U, y: U)
    ensures multiset(Select(s, p, f))[y] == CountWhere(s, p, f, y)
  {
    if |s| > 0 {
      SelectCount(s[1..], p, f, y);
    }
  }

  /** Selections whose conditions agree on every row give the same result. */
  lemma {:induction false} SelectAgree<T, U>(s: seq<T>, p: T -> bool, q: T -> bool, f: T -> U)
    requires forall j :: 0 <= j < |s| ==> p(s[j]) == q(s[j])
    ensures Select(s, p, f) == Select(s, q, f)
  {
    if |s| > 0 {
      SelectAgree(s[1..], p, q, f);
    }
  }

  /** Index of the first element of least key: ORDER BY key LIMIT 1 on a table in storage order. */
  function ArgMinFirst<T>(s: seq<T>, key: T -> real): (i: nat)
    requires |s| > 0
    ensures i < |s|
    ensures forall j :: 0 <= j < |s| ==> key(s[i]) <= key(s[j])
    ensures forall j :: 0 <= j < i ==> key(s[i]) < key(s[j])
  {
    if |s| == 1 then 0
    else
      var k := ArgMinFirst(s[1..], key) + 1;
      if key(s[0]) <= key(s[k]) then 0 else k
  }

  /** Ascending order on a nullable key as SQLite sorts it: NULL comes before every value. */
  predicate NullsFirstLe(a: Option<real>, b: Option<real>)
  {
    a.None? || (b.Some? && a.value <= b.value)
  }

  /** Index of the first element of least nullable key: ORDER BY key LIMIT 1 when the key may be NULL. */
  function ArgMinNullsFirst<T>(s: seq<T>, key: T -> Option<real>): (i: nat)
    requires |s| > 0
    ensures i < |s|
    ensures forall j :: 0 <= j < |s| ==> NullsFirstLe(key(s[i]), key(s[j]))
    ensures forall j :: 0 <= j < i ==> !NullsFirstLe(key(s[j]), key(s[i]))
  {
    match FirstIndex(s, (x: T) => key(x).None?)
    case Some(i) => i
    case None => ArgMinFirst(s, (x: T) => key(x).GetOr(0.0))
  }

  /** Every element mapped by `f`, or None when `f` fails on some element. */
  function AllSome<T, U>(s: seq<T>, f: T -> Option<U>): (r: Option<seq<U>>)
    ensures r.Some? <==> forall i :: 0 <= i < |s| ==> f(s[i]).Some?
    ensures r.Some? ==> |r.value| == |s|
    ensures r.Some? ==> forall i :: 0 <= i < |s| ==> f(s[i]) == Some(r.value[i])
  {
    if |s| == 0 then Some([])
    else match (f(s[0]), AllSome(s[1..], f))
      case (Some(d), Some(ds)) =>
        assert forall i :: 1 <= i < |s| ==> s[i] == s[1..][i - 1];
        Some([d] + ds)
      case (None, _) => None
      case (_, None) =>
        assert forall i :: 0 <= i < |s| - 1 ==> s[1..][i] == s[i + 1];
        None
  }

  /** Ascending order of a sequence by a key. */
  ghost predicate SortedBy<T>(s: seq<T>, key: T -> real)
  {
    forall i, j :: 0 <= i < j < |s| ==> key(s[i]) <= key(s[j])
  }

  /** Inserts `x` before the first element whose key is not smaller than its own. */
  function InsertBy<T>(x: T, s: seq<T>, key: T -> real): (r: seq<T>)
    requires SortedBy(s, key)
    ensures SortedBy(r, key)
    ensures multiset(r) == multiset(s) + multiset{x}
  {
    if |s| == 0 then [x]
    else if key(x) <= key(s[0]) then
      PrependSorted(x, s, key);
      [x] + s
    else
      var rest := InsertBy(x, s[1..], key);
      ConsSorted(x, s, key, rest);
      [s[0]] + rest
  }

  lemma PrependSorted<T>(x: T, s: seq<T>, key: T -> real)
    requires SortedBy(s, key) && |s| > 0 && key(x) <= key(s[0])
    ensures SortedBy([x] + s, key)
  {
    var r := [x] + s;
    forall i, j | 0 <= i < j < |r| ensures key(r[i]) <= key(r[j]) {
      assert r[j] == s[j - 1];
      if i > 0 {
        assert r[i] == s[i - 1];
      }
    }
  }

  /** `s[0]` in front of the sorted insertion into the rest of `s`. */
  lemma ConsSorted<T>(x: T, s: seq<T>, key: T -> real, rest: seq<T>)
    requires SortedBy(s, key) && |s| > 0 && key(s[0]) < key(x)
    requires SortedBy(rest, key) && multiset(rest) == multiset(s[1..]) + multiset{x}
    ensures SortedBy([s[0]] + rest, key)
    ensures multiset([s[0]] + rest) == multiset(s) + multiset{x}
  {
    assert s == [s[0]] + s[1..];
    forall k | 0 <= k < |rest| ensures key(s[0]) <= key(rest[k]) {
      assert rest[k] in multiset(rest);
      KeyBoundOfMember(x, s, key, rest[k]);
    }
    var r := [s[0]] + rest;
    forall i, j | 0 <= i < j < |r| ensures key(r[i]) <= key(r[j]) {
      assert r[j] == rest[j - 1];
      if i > 0 {
        assert r[i] == rest[i - 1];
      }
    }
    assert multiset(r) == multiset{s[0]} + multiset(rest);
    assert multiset(s) == multiset{s[0]} + multiset(s[1..]);
  }

  /** Every element of `s[1..]` with `x` added keys at least as high as `s[0]`, when `x` does. */
  lemma KeyBoundOfMember<T>(x: T, s: seq<T>, key: T -> real, y: T)
    requires SortedBy(s, key) && |s| > 0 && key(s[0]) < key(x)
    requires y in multiset(s[1..]) + multiset{x}
    ensures key(s[0]) <= key(y)
  {
    if y != x {
      assert y in s[1..];
      var m :| 0 <= m < |s[1..]| && s[1..][m] == y;
      assert s[m + 1] == y;
    }
  }

  /** ORDER BY key: a stable ascending sort (insertion sort). */
  function SortBy<T>(s: seq<T>, key: T -> real): (r: seq<T>)
    ensures SortedBy(r, key)
    ensures multiset(r) == multiset(s)
  {
    if |s| == 0 then []
    else
      assert s == [s[0]] + s[1..];
      InsertBy(s[0], SortBy(s[1..], key), key)
  }

  /** Array.prototype.join, sql.join: the parts with one separator between neighbours. */
  function Join<T>(parts: seq<seq<T>>, sep: seq<T>): seq<T>
  {
    if |parts| == 0 then []
    else if |parts| == 1 then parts[0]
    else Join(parts[..|parts| - 1], sep) + sep + parts[|parts| - 1]
  }

  /** Appending one part adds exactly one separator and the part at the end. */
  lemma JoinSnoc<T>(parts: seq<seq<T>>, x: seq<T>, sep: seq<T>)
    ensures Join(parts + [x], sep) == if |parts| == 0 then x else Join(parts, sep) + sep + x
  {
    assert (parts + [x])[..|parts|] == parts;
  }

  /** A join is never shorter than its parts and separators together. */
  lemma {:induction false} JoinLength<T>(parts: seq<seq<T>>, sep: seq<T>)
    ensures |parts| > 0 ==> |Join(parts, sep)| == SumLengths(parts) + (|parts| - 1) * |sep|
    ensures |parts| == 0 ==> Join(parts, sep) == []
  {
    if |parts| > 1 {
      JoinLength(parts[..|parts| - 1], sep);
      SumLengthsSnoc(parts[..|parts| - 1], parts[|parts| - 1]);
      assert parts[..|parts| - 1] + [parts[|parts| - 1]] == parts;
    }
  }

  function SumLengths<T>(parts: seq<seq<T>>): nat
  {
    if |parts| == 0 then 0 else |parts[0]| + SumLengths(parts[1..])
  }

  lemma {:induction false} SumLengthsSnoc<T>(parts: seq<seq<T>>, x: seq<T>)
    ensures SumLengths(parts + [x]) == SumLengths(parts) + |x|
  {
    if |parts| > 0 {
      assert (parts + [x])[1..] == parts[1..] + [x];
      SumLengthsSnoc(parts[1..], x);
    }
  }
}
