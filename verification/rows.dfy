/**
 * Tables as sequences of rows in the store's retrieval order, each row
 * carrying an integer key. These are the lookups, filters and id
 * generation that the database performs for the request handlers.
 */
module Rows {
  import opened Json

  /** No two rows of the table share a key (a primary key, for one). */
  ghost predicate DistinctKeys<T>(s: seq<T>, key: T -> int)
  {
    forall i, j :: 0 <= i < j < |s| ==> key(s[i]) != key(s[j])
  }

  /** The row whose key is `id`, if there is one (`query.get(id)` for a primary key). */
  function Find<T>(s: seq<T>, key: T -> int, id: int): (r: Option<T>)
    ensures r.None? <==> forall x :: x in s ==> key(x) != id
    ensures r.Some? ==> r.value in s && key(r.value) == id
  {
    if s == [] then None
    else
      var rest := Find(s[1..], key, id);
      assert forall x :: x in s ==> x == s[0] || x in s[1..];
      if key(s[0]) == id then Some(s[0]) else rest
  }

  /** With distinct keys, the row found is the only row with that key. */
  lemma FindUnique<T>(s: seq<T>, key: T -> int, id: int, x: T)
    requires DistinctKeys(s, key) && x in s && key(x) == id
    ensures Find(s, key, id) == Some(x)
  {
  }

  /** The rows whose key is `id`, in table order. */
  function Select<T>(s: seq<T>, key: T -> int, id: int): (r: seq<T>)
    ensures forall x :: x in r ==> x in s && key(x) == id
    ensures forall x :: x in s && key(x) == id ==> x in r
    ensures |r| <= |s|
  {
    if s == [] then []
    else if key(s[0]) == id then [s[0]] + Select(s[1..], key, id)
    else Select(s[1..], key, id)
  }

  /** The rows whose key is not `id`, in table order. */
  function Reject<T>(s: seq<T>, key: T -> int, id: int): (r: seq<T>)
    ensures forall x :: x in r ==> x in s && key(x) != id
    ensures forall x :: x in s && key(x) != id ==> x in r
    ensures |r| <= |s|
    ensures (forall x :: x in s ==> key(x) != id) ==> r == s
  {
    if s == [] then []
    else if key(s[0]) != id then [s[0]] + Reject(s[1..], key, id)
    else Reject(s[1..], key, id)
  }

  /** An id above every key in the table: what the engine assigns to an inserted row. */
  function NextId<T>(s: seq<T>, key: T -> int): (r: int)
    ensures r >= 1
    ensures forall x :: x in s ==> key(x) < r
  {
    if s == [] then 1
    else
      var rest := NextId(s[1..], key);
      if key(s[0]) < rest then rest else key(s[0]) + 1
  }

  /** Appending a row at the end selects it after the rows selected before. */
  lemma {:induction false} SelectAppend<T>(s: seq<T>, x: T, key: T -> int, id: int)
    ensures Select(s + [x], key, id) == Select(s, key, id) + (if key(x) == id then [x] else [])
    decreases |s|
  {
    if s == [] {
      assert [x][1..] == [];
    } else {
      assert (s + [x])[1..] == s[1..] + [x];
      SelectAppend(s[1..], x, key, id);
    }
  }

  /** Appending a row at the end keeps it after the rows kept before, unless its key is `id`. */
  lemma {:induction false} RejectAppend<T>(s: seq<T>, x: T, key: T -> int, id: int)
    ensures Reject(s + [x], key, id) == Reject(s, key, id) + (if key(x) != id then [x] else [])
    decreases |s|
  {
    if s == [] {
      assert [x][1..] == [];
    } else {
      assert (s + [x])[1..] == s[1..] + [x];
      RejectAppend(s[1..], x, key, id);
    }
  }

  /** Dropping the rows whose `filterKey` is `id` keeps the remaining `key`s distinct. */
  lemma {:induction false} RejectKeepsDistinct<T>(s: seq<T>, key: T -> int, filterKey: T -> int, id: int)
    requires DistinctKeys(s, key)
    ensures DistinctKeys(Reject(s, filterKey, id), key)
    decreases |s|
  {
    if s != [] {
      assert DistinctKeys(s[1..], key);
      RejectKeepsDistinct(s[1..], key, filterKey, id);
      var rest := Reject(s[1..], filterKey, id);
      forall x | x in rest ensures key(x) != key(s[0]) {
        var j :| 0 <= j < |s[1..]| && s[1..][j] == x;
        assert s[j + 1] == x;
      }
    }
  }

  /** With distinct keys, rejecting a key that is present drops exactly one row. */
  lemma {:induction false} RejectRemovesOne<T>(s: seq<T>, key: T -> int, id: int)
    requires DistinctKeys(s, key) && Find(s, key, id).Some?
    ensures |Reject(s, key, id)| == |s| - 1
    decreases |s|
  {
    assert DistinctKeys(s[1..], key);
    if key(s[0]) != id {
      RejectRemovesOne(s[1..], key, id);
    } else {
      forall x | x in s[1..] ensures key(x) != id {
        var j :| 0 <= j < |s[1..]| && s[1..][j] == x;
        assert s[j + 1] == x;
      }
    }
  }

  /** A row with a fresh key may be appended without breaking distinctness. */
  lemma AppendFreshKeepsDistinct<T>(s: seq<T>, x: T, key: T -> int)
    requires DistinctKeys(s, key)
    requires forall y :: y in s ==> key(y) != key(x)
    ensures DistinctKeys(s + [x], key)
  {
  }
}
