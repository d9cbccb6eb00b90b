/** Relational building blocks that the route handlers rely on. Every table is
    a sequence of rows in insertion order; a query is a function of those
    sequences. Collected here: nullable values, MySQL's NULL-propagating
    CONCAT, single-row lookups on a key (LEFT JOIN and WHERE key = ?), WHERE
    filters, column projections, ORDER BY ... DESC and AUTO_INCREMENT keys. */
module Sql {

  /** A nullable column or an absent value: `None` is SQL NULL. */
  datatype Option<+T> = None | Some(value: T)

  /** MySQL `CONCAT(a, b, ...)`: the concatenation of the arguments, or NULL
      as soon as one of them is NULL. */
  function Concat(parts: seq<Option<string>>): (r: Option<string>)
    ensures r.Some? <==> forall i :: 0 <= i < |parts| ==> parts[i].Some?
  {
    if parts == [] then Some("")
    else
      var rest := Concat(parts[1..]);
      if parts[0].Some? && rest.Some? then Some(parts[0].value + rest.value) else None
  }

  /** With every argument present, CONCAT of five arguments is their plain
      concatenation. */
  lemma {:induction false} ConcatFive(a: string, b: string, c: string, d: string, e: string)
    ensures Concat([Some(a), Some(b), Some(c), Some(d), Some(e)]) == Some(a + b + c + d + e)
  {
    var ps := [Some(a), Some(b), Some(c), Some(d), Some(e)];
    assert ps[1..] == [Some(b), Some(c), Some(d), Some(e)];
    assert ps[1..][1..] == [Some(c), Some(d), Some(e)];
    assert ps[1..][1..][1..] == [Some(d), Some(e)];
    assert ps[1..][1..][1..][1..] == [Some(e)];
    assert [Some(e)][1..] == [] && e + "" == e;
    assert Concat([Some(e)]) == Some(e);
    assert Concat([Some(d), Some(e)]) == Some(d + e);
    assert Concat([Some(c), Some(d), Some(e)]) == Some(c + (d + e));
    assert Concat([Some(b), Some(c), Some(d), Some(e)]) == Some(b + (c + (d + e)));
    assert a + (b + (c + (d + e))) == a + b + c + d + e;
  }

  /** The first row satisfying `p`, as a LEFT JOIN or a `WHERE key = ?` lookup
      sees it; NULL when no row matches. */
  function First<T>(s: seq<T>, p: T -> bool): (r: Option<T>)
    ensures r.None? <==> forall i :: 0 <= i < |s| ==> !p(s[i])
    ensures r.Some? ==> r.value in s && p(r.value)
  {
    if s == [] then None
    else if p(s[0]) then Some(s[0])
    else First(s[1..], p)
  }

  /** On a key that at most one row can match, the lookup finds exactly that
      row. */
  lemma FirstOnKey<T>(s: seq<T>, p: T -> bool, x: T)
    requires x in s && p(x)
    requires forall i :: 0 <= i < |s| && p(s[i]) ==> s[i] == x
    ensures First(s, p) == Some(x)
  {
  }

  /** `WHERE p`: the rows satisfying `p`, in table order. */
  function Filter<T(!new)>(s: seq<T>, p: T -> bool): (r: seq<T>)
    ensures forall x :: multiset(r)[x] == if p(x) then multiset(s)[x] else 0
    ensures forall i :: 0 <= i < |r| ==> p(r[i])
  {
    if s == [] then []
    else
      var rest := Filter(s[1..], p);
      assert s == [s[0]] + s[1..];
      if p(s[0]) then [s[0]] + rest else rest
  }

  /** A SELECT list: one output row per input row, computed column by column. */
  function Project<T, U>(s: seq<T>, f: T -> U): (r: seq<U>)
    ensures |r| == |s|
    ensures forall i :: 0 <= i < |s| ==> r[i] == f(s[i])
  {
    if s == [] then [] else [f(s[0])] + Project(s[1..], f)
  }

  /** Rows in ORDER BY `key` DESC order. */
  predicate SortedDesc<T>(s: seq<T>, key: T -> int)
  {
    forall i, j :: 0 <= i < j < |s| ==> key(s[i]) >= key(s[j])
  }

  /** Inserts `x` in front of the first row whose key is not greater than
      its own, so `x` goes before the rows with an equal key. `SortDesc`
      inserts each row into the sorted rows that follow it in the table, so
      rows with equal keys keep their table order. */
  function InsertDesc<T>(x: T, s: seq<T>, key: T -> int): (r: seq<T>)
    requires SortedDesc(s, key)
    ensures SortedDesc(r, key)
    ensures multiset(r) == multiset(s) + multiset{x}
    ensures |r| == |s| + 1 && (r[0] == x || (s != [] && r[0] == s[0]))
  {
    if s == [] || key(x) >= key(s[0]) then [x] + s
    else
      var rest := InsertDesc(x, s[1..], key);
      assert s == [s[0]] + s[1..];
      assert key(s[0]) >= key(rest[0]);
      [s[0]] + rest
  }

  /** ORDER BY `key` DESC over a whole result set. MySQL leaves the order of
      rows with equal keys unspecified; this model keeps table order. */
  function SortDesc<T>(s: seq<T>, key: T -> int): (r: seq<T>)
    ensures SortedDesc(r, key)
    ensures multiset(r) == multiset(s)
  {
    if s == [] then []
    else
      assert s == [s[0]] + s[1..];
      InsertDesc(s[0], SortDesc(s[1..], key), key)
  }

  /** The rows of an AUTO_INCREMENT table: every key is at least 1 and below
      the next key to be handed out, and keys grow in insertion order. */
  ghost predicate AutoIncrement<T>(rows: seq<T>, id: T -> int, next: int)
  {
    && 1 <= next
    && (forall i :: 0 <= i < |rows| ==> 1 <= id(rows[i]) < next)
    && (forall i, j :: 0 <= i < j < |rows| ==> id(rows[i]) < id(rows[j]))
  }

  /** An insert that takes the next key keeps the table AUTO_INCREMENT-shaped. */
  lemma AutoIncrementInsert<T>(rows: seq<T>, id: T -> int, next: int, x: T)
    requires AutoIncrement(rows, id, next)
    requires id(x) == next
    ensures AutoIncrement(rows + [x], id, next + 1)
  {
  }

  /** Two rows of an AUTO_INCREMENT table with the same key are the same row. */
  lemma AutoIncrementKeyUnique<T>(rows: seq<T>, id: T -> int, next: int, i: int, j: int)
    requires AutoIncrement(rows, id, next)
    requires 0 <= i < |rows| && 0 <= j < |rows| && id(rows[i]) == id(rows[j])
    ensures i == j
  {
  }
}
