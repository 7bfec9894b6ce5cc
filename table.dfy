/** The few SQL statements the handlers issue, over a table held as a sequence of rows. */
module Table {

  /** `SELECT * ... WHERE p`: the rows satisfying `p`, in table order. */
  function Where<T(!new)>(rows: seq<T>, p: T -> bool): (r: seq<T>)
    ensures |r| <= |rows|
    ensures forall x :: x in r <==> x in rows && p(x)
    ensures |r| == 0 <==> forall i :: 0 <= i < |rows| ==> !p(rows[i])
  {
    if rows == [] then []
    else (if p(rows[0]) then [rows[0]] else []) + Where(rows[1..], p)
  }

  /** An INSERT appends a row; the rows it matches come after the ones matched before. */
  lemma {:induction false} WhereAppend<T(!new)>(rows: seq<T>, x: T, p: T -> bool)
    ensures Where(rows + [x], p) == Where(rows, p) + (if p(x) then [x] else [])
  {
    if rows != [] {
      assert (rows + [x])[1..] == rows[1..] + [x];
      WhereAppend(rows[1..], x, p);
    }
  }

  /** `UPDATE ... SET <row> WHERE p`: every matching row is replaced by `row`, the others stay. */
  function SetWhere<T>(rows: seq<T>, p: T -> bool, row: T): (r: seq<T>)
    ensures |r| == |rows|
    ensures forall i :: 0 <= i < |rows| ==> r[i] == if p(rows[i]) then row else rows[i]
  {
    if rows == [] then []
    else [if p(rows[0]) then row else rows[0]] + SetWhere(rows[1..], p, row)
  }

  /** A generated key: larger than every key in the table, hence not one of them. */
  function NextKey<T(!new)>(rows: seq<T>, key: T -> int): (n: int)
    ensures forall x :: x in rows ==> key(x) < n
  {
    if rows == [] then 1
    else
      var rest := NextKey(rows[1..], key);
      if key(rows[0]) < rest then rest else key(rows[0]) + 1
  }
}
