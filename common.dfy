/** Vocabulary shared by every part of the model: optional values, the
    outcomes a request can end in, and the sequence helpers that stand for
    the simple queries the service sends to its database. */
module Common {

  datatype Option<+T> = None | Some(value: T)

  /** Exceptions the handlers do not catch; the web framework answers
      each of them with status 500. */
  datatype Fault =
    | InvalidToken             // the session token does not decode under the server key
    | MissingKey(key: string)  // a dictionary lookup on an absent key
    | DanglingReference        // a relationship attribute that resolves to no row
    | RejectedByDatabase       // the database refuses the statement
    | MissingAttribute(name: string)  // an attribute read on an object that has no such attribute

  datatype Error =
    | Http(status: int, detail: string)  // an HTTPException raised by the handler itself
    | Unhandled(fault: Fault)            // any other exception
  {
    function Status(): int {
      match this
      case Http(s, _) => s
      case Unhandled(_) => 500
    }
  }

  datatype Result<+T> = Ok(value: T) | Err(error: Error) {
    predicate IsFailure() { Err? }

    function PropagateFailure<U>(): Result<U>
      requires Err?
    {
      Err(error)
    }

    function Extract(): T
      requires Ok?
    {
      value
    }
  }

  /** Substring test: the meaning given to SQL `LIKE '%sub%'`. */
  predicate Contains(text: string, sub: string) {
    exists i :: 0 <= i <= |text| - |sub| && sub <= text[i..]
  }

  /** The rows of `s` that satisfy `p`, in their original order (a WHERE clause). */
  function Filter<T(!new)>(s: seq<T>, p: T -> bool): (r: seq<T>)
    ensures |r| <= |s|
    ensures forall x :: x in r <==> x in s && p(x)
    ensures multiset(r) <= multiset(s)
    ensures (forall i :: 0 <= i < |s| ==> p(s[i])) ==> r == s
    ensures (forall i :: 0 <= i < |s| ==> !p(s[i])) ==> r == []
  {
    if s == [] then []
    else
      var init := Filter(s[..|s| - 1], p);
      assert s == s[..|s| - 1] + [s[|s| - 1]];
      if p(s[|s| - 1]) then init + [s[|s| - 1]] else init
  }

  /** Index of the first row satisfying `p` (what `.first()` returns). */
  function FirstIndex<T>(s: seq<T>, p: T -> bool): (r: Option<nat>)
    ensures r.None? <==> forall i :: 0 <= i < |s| ==> !p(s[i])
    ensures r.Some? ==> r.value < |s| && p(s[r.value]) && forall j :: 0 <= j < r.value ==> !p(s[j])
  {
    if s == [] then None
    else match FirstIndex(s[..|s| - 1], p)
      case Some(k) => Some(k)
      case None => if p(s[|s| - 1]) then Some(|s| - 1) else None
  }

  /** `key` is a unique key of the table `s`: no row occurs twice and two
      rows with the same key are the same row. */
  ghost predicate UniqueBy<T(!new), K>(s: seq<T>, key: T -> K) {
    && (forall x :: multiset(s)[x] <= 1)
    && (forall x, y :: x in s && y in s && key(x) == key(y) ==> x == y)
  }

  /** A table drawn from a table with a unique key keeps that key unique. */
  lemma UniqueBySub<T(!new), K>(r: seq<T>, s: seq<T>, key: T -> K)
    requires multiset(r) <= multiset(s)
    requires UniqueBy(s, key)
    ensures UniqueBy(r, key)
  {
    forall x ensures multiset(r)[x] <= 1 {
      assert multiset(r)[x] <= multiset(s)[x];
    }
    forall x, y | x in r && y in r && key(x) == key(y) ensures x == y {
      assert x in multiset(r) && y in multiset(r);
      assert x in s && y in s;
    }
  }

  /** Appending a row whose key is new keeps the key unique. */
  lemma UniqueByAppend<T(!new), K>(s: seq<T>, x: T, key: T -> K)
    requires UniqueBy(s, key)
    requires forall y :: y in s ==> key(y) != key(x)
    ensures UniqueBy(s + [x], key)
  {
    assert x !in s;
    forall y ensures multiset(s + [x])[y] <= 1 {
      assert multiset(s + [x]) == multiset(s) + multiset{x};
    }
  }

  /** Replacing a row by one with the same key keeps the key unique. */
  lemma UniqueByUpdate<T(!new), K>(s: seq<T>, i: nat, x: T, key: T -> K)
    requires UniqueBy(s, key)
    requires i < |s| && key(x) == key(s[i])
    ensures UniqueBy(s[i := x], key)
  {
    var t := s[..i] + s[i + 1..];
    assert s == s[..i] + [s[i]] + s[i + 1..];
    assert s[i := x] == s[..i] + [x] + s[i + 1..];
    assert multiset(s) == multiset(t) + multiset{s[i]};
    assert multiset(s[i := x]) == multiset(t) + multiset{x};
    UniqueBySub(t, s, key);
    forall y | y in t ensures key(y) != key(x) {
      assert y in multiset(t);
      assert y in s;
    }
    UniqueByAppend(t, x, key);
    assert multiset(t + [x]) == multiset(s[i := x]);
    forall y, z | y in s[i := x] && z in s[i := x] && key(y) == key(z) ensures y == z {
      assert y in multiset(s[i := x]) && z in multiset(s[i := x]);
      assert y in t + [x] && z in t + [x];
    }
  }

  /** In a table with a unique key, two positions holding the same key are the same position. */
  lemma UniqueByIndices<T(!new), K>(s: seq<T>, key: T -> K, i: nat, j: nat)
    requires UniqueBy(s, key)
    requires i < |s| && j < |s| && key(s[i]) == key(s[j])
    ensures i == j
  {
    if i != j {
      var lo, hi := if i < j then i else j, if i < j then j else i;
      TwoPositions(s, lo, hi);
      assert false;
    }
  }

  /** A value found at two positions occurs at least twice in the multiset of the sequence. */
  lemma TwoPositions<T>(s: seq<T>, lo: nat, hi: nat)
    requires lo < hi < |s| && s[lo] == s[hi]
    ensures multiset(s)[s[lo]] >= 2
  {
    assert s == s[..hi] + s[hi..];
    assert s[lo] in s[..hi];
    assert s[hi] in s[hi..];
    assert multiset(s) == multiset(s[..hi]) + multiset(s[hi..]);
  }
}
