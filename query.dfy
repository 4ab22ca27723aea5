/** The parts of SQL query execution the handlers rely on: an ordered result
    cut to a window (`LIMIT`/`OFFSET`) and ordering by an integer column
    (`ORDER BY`, or Python's stable `list.sort`). */
module Query {

  function Min(a: int, b: int): int { if a <= b then a else b }

  /** `LIMIT limit OFFSET offset`: at most `limit` rows, starting at position `offset`. */
  function Window<T>(s: seq<T>, offset: nat, limit: nat): (w: seq<T>)
    ensures |w| == if offset >= |s| then 0 else Min(limit, |s| - offset)
    ensures forall i :: 0 <= i < |w| ==> w[i] == s[offset + i]
  {
    if offset >= |s| then [] else s[offset..offset + Min(limit, |s| - offset)]
  }

  /** `a` may come before `b` in an ordering by `key`. */
  predicate Before<T>(a: T, b: T, key: T -> int, descending: bool) {
    if descending then key(a) >= key(b) else key(a) <= key(b)
  }

  /** Every row comes before every later row: ascending, or for `descending` non-increasing. */
  ghost predicate Ordered<T>(s: seq<T>, key: T -> int, descending: bool) {
    forall i, j :: 0 <= i < j < |s| ==> Before(s[i], s[j], key, descending)
  }

  /** Inserts `x` into an ordered sequence ahead of the rows with an equal key. */
  function Insert<T>(x: T, s: seq<T>, key: T -> int, descending: bool): (r: seq<T>)
    requires Ordered(s, key, descending)
    ensures Ordered(r, key, descending)
    ensures multiset(r) == multiset(s) + multiset{x}
  {
    if s == [] then [x]
    else if Before(x, s[0], key, descending) then [x] + s
    else
      var rest := Insert(x, s[1..], key, descending);
      assert s == [s[0]] + s[1..];
      forall k | 0 <= k < |rest| ensures Before(s[0], rest[k], key, descending) {
        assert rest[k] in multiset(rest);
      }
      [s[0]] + rest
  }

  /** A stable insertion sort by `key`: rows with equal keys keep their order. */
  function SortBy<T>(s: seq<T>, key: T -> int, descending: bool): (r: seq<T>)
    ensures Ordered(r, key, descending)
    ensures multiset(r) == multiset(s)
    ensures |r| == |s|
  {
    if s == [] then []
    else
      assert s == [s[0]] + s[1..];
      Insert(s[0], SortBy(s[1..], key, descending), key, descending)
  }

  /** A window of an ordered sequence is ordered, and holds only rows of it. */
  lemma WindowOrdered<T>(s: seq<T>, offset: nat, limit: nat, key: T -> int, descending: bool)
    requires Ordered(s, key, descending)
    ensures Ordered(Window(s, offset, limit), key, descending)
    ensures forall x :: x in Window(s, offset, limit) ==> x in s
  {
    var w := Window(s, offset, limit);
    forall i, j | 0 <= i < j < |w| ensures Before(w[i], w[j], key, descending) {
      assert w[i] == s[offset + i] && w[j] == s[offset + j];
    }
    forall x | x in w ensures x in s {
      var k :| 0 <= k < |w| && w[k] == x;
      assert s[offset + k] == x;
    }
  }

  /** A leading window holds each row of `s` at most as often as `s` does. */
  lemma LeadingWindowSub<T>(s: seq<T>, limit: nat)
    ensures multiset(Window(s, 0, limit)) <= multiset(s)
  {
    var w := Window(s, 0, limit);
    assert s == w + s[|w|..];
    assert multiset(s) == multiset(w) + multiset(s[|w|..]);
  }

  /** No row of `s` that a leading window of `s` sorted by non-increasing key
      leaves out has a larger key than a row the window takes. */
  lemma LeadingWindowMaximal<T>(s: seq<T>, key: T -> int, limit: nat)
    ensures var r := Window(SortBy(s, key, true), 0, limit);
      forall x, y :: x in s && x !in r && y in r ==> key(y) >= key(x)
  {
    var sorted := SortBy(s, key, true);
    var r := Window(sorted, 0, limit);
    forall x, y | x in s && x !in r && y in r ensures key(y) >= key(x) {
      assert x in multiset(s);
      assert x in sorted;
      var j :| 0 <= j < |sorted| && sorted[j] == x;
      var i :| 0 <= i < |r| && r[i] == y;
      assert r[i] == sorted[i];
      assert j >= |r|;
      assert Before(sorted[i], sorted[j], key, true);
    }
  }

  /** The first `limit` rows of `s` by non-increasing key: as many as `s`
      has up to `limit`, each row of `s` taken at most as often as it occurs
      there, ordered, and no row left out has a
      larger key than a row taken. */
  lemma TopRows<T>(s: seq<T>, key: T -> int, limit: nat)
    ensures var r := Window(SortBy(s, key, true), 0, limit);
      && |r| == Min(limit, |s|)
      && multiset(r) <= multiset(s)
      && (forall x :: x in r ==> x in s)
      && (forall i, j :: 0 <= i < j < |r| ==> key(r[i]) >= key(r[j]))
      && (forall x, y :: x in s && x !in r && y in r ==> key(y) >= key(x))
  {
    var sorted := SortBy(s, key, true);
    var r := Window(sorted, 0, limit);
    WindowOrdered(sorted, 0, limit, key, true);
    LeadingWindowSub(sorted, limit);
    LeadingWindowMaximal(s, key, limit);
    forall x | x in r ensures x in s {
      assert x in multiset(sorted);
    }
    forall i, j | 0 <= i < j < |r| ensures key(r[i]) >= key(r[j]) {
      assert Before(r[i], r[j], key, true);
    }
  }
}
