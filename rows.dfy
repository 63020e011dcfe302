/** The row-level meaning of the SELECT statements the store sends: a filter
    keeps the matching rows in storage order, and `rows[0]` of a filtered
    result is the first matching row. */
module Rows {
  import opened Results

  /** `SELECT … WHERE p`: the rows of `s` satisfying `p`, in storage order. */
  function Where<T(!new)>(s: seq<T>, p: T -> bool): (r: seq<T>)
    ensures |r| <= |s|
    ensures forall x :: x in r <==> x in s && p(x)
    ensures forall x :: multiset(r)[x] == if p(x) then multiset(s)[x] else 0
  {
    if s == [] then []
    else
      var rest := Where(s[1..], p);
      assert s == [s[0]] + s[1..];
      if p(s[0]) then [s[0]] + rest else rest
  }

  /** Position of the first row satisfying `p`, or `|s|` when none does. */
  function IndexWhere<T>(s: seq<T>, p: T -> bool): (i: nat)
    ensures i <= |s|
    ensures i < |s| ==> p(s[i])
    ensures forall j :: 0 <= j < i ==> !p(s[j])
  {
    if s == [] then 0
    else if p(s[0]) then 0
    else 1 + IndexWhere(s[1..], p)
  }

  /** `rows[0]` of `SELECT … WHERE p`, or absent when no row matches. */
  function FirstWhere<T(!new)>(s: seq<T>, p: T -> bool): (r: Option<T>)
    ensures r.Some? ==> r.value in s && p(r.value)
    ensures r.None? <==> forall x :: x in s ==> !p(x)
  {
    var i := IndexWhere(s, p);
    if i < |s| then Some(s[i]) else None
  }

  /** `result.rows.map(f)`: the projection of every row, in order. */
  function Project<T, U>(s: seq<T>, f: T -> U): (r: seq<U>)
    ensures |r| == |s|
    ensures forall i :: 0 <= i < |s| ==> r[i] == f(s[i])
  {
    seq(|s|, i requires 0 <= i < |s| => f(s[i]))
  }
}
