/**
 * The category routes: GET `/` (list), POST `/` (create) and PUT `/:id` (update)
 * over the `categories` table.
 */
module CategoryRoutes {
  import opened Request
  import opened Http
  import Table
  import Collation

  /** A row of `categories`: `id`, `name`, `item_count`, `image_url` (`None` is SQL `NULL`). */
  datatype Category = Category(id: int, name: string, itemCount: int, imageUrl: Option<string>)

  /** The JSON body of a create or update request: `{ name, itemCount, imageUrl }`. */
  datatype CategoryBody = CategoryBody(name: Option<string>, itemCount: Option<int>, imageUrl: Option<string>)

  const NAME_REQUIRED := "Category name is required"
  const ALREADY_EXISTS := "Category already exists"
  const NAME_ALREADY_EXISTS := "Category name already exists"
  const NOT_FOUND := "Category not found"

  /** The primary key: no two rows share an id. */
  predicate IdsDistinct(rows: seq<Category>) {
    forall i, j :: 0 <= i < j < |rows| ==> rows[i].id != rows[j].id
  }

  /** The application-level invariant the handlers maintain: no two rows share a name. */
  predicate NamesDistinct(rows: seq<Category>) {
    forall i, j :: 0 <= i < j < |rows| ==> rows[i].name != rows[j].name
  }

  predicate HasName(rows: seq<Category>, name: string) {
    exists i :: 0 <= i < |rows| && rows[i].name == name
  }

  predicate HasId(rows: seq<Category>, id: int) {
    exists i :: 0 <= i < |rows| && rows[i].id == id
  }

  /** Some row other than the one with this id already carries this name. */
  predicate NameTakenByOther(rows: seq<Category>, name: string, id: int) {
    exists i :: 0 <= i < |rows| && rows[i].name == name && rows[i].id != id
  }

  predicate SortedByName(rows: seq<Category>) {
    forall i, j :: 0 <= i < j < |rows| ==> Collation.NameLe(rows[i].name, rows[j].name)
  }

  /** Places `row` into a list already sorted by name. */
  function InsertByName(row: Category, sorted: seq<Category>): (r: seq<Category>)
    requires SortedByName(sorted)
    ensures SortedByName(r)
    ensures multiset(r) == multiset(sorted) + multiset{row}
  {
    if sorted == [] then [row]
    else if Collation.NameLe(row.name, sorted[0].name) then
      assert forall j :: 0 <= j < |sorted| ==> Collation.NameLe(row.name, sorted[j].name) by {
        forall j | 0 <= j < |sorted| ensures Collation.NameLe(row.name, sorted[j].name) {
          if j > 0 { Collation.NameLeTransitive(row.name, sorted[0].name, sorted[j].name); }
        }
      }
      [row] + sorted
    else
      var rest := InsertByName(row, sorted[1..]);
      assert sorted == [sorted[0]] + sorted[1..];
      assert forall x :: x in rest ==> Collation.NameLe(sorted[0].name, x.name) by {
        forall x | x in rest ensures Collation.NameLe(sorted[0].name, x.name) {
          assert x in multiset(rest);
          if x == row {
            Collation.NameLeTotal(row.name, sorted[0].name);
          } else {
            assert x in multiset(sorted[1..]);
            var k :| 0 <= k < |sorted[1..]| && sorted[1..][k] == x;
            assert sorted[k + 1] == x;
          }
        }
      }
      [sorted[0]] + rest
  }

  /** `ORDER BY name`, as an insertion sort. */
  function SortByName(rows: seq<Category>): (r: seq<Category>)
    ensures SortedByName(r)
    ensures multiset(r) == multiset(rows)
  {
    if rows == [] then []
    else
      assert rows == [rows[0]] + rows[1..];
      InsertByName(rows[0], SortByName(rows[1..]))
  }

  /** Two sorted arrangements of the same rows, with unique names, start with the same row. */
  lemma SortedSameHead(a: seq<Category>, b: seq<Category>)
    requires SortedByName(a) && SortedByName(b)
    requires multiset(a) == multiset(b) && NamesDistinct(a) && a != []
    ensures b != [] && a[0] == b[0]
  {
    assert a[0] in multiset(b) && b != [];
    assert b[0] in multiset(a);
    var k :| 0 <= k < |b| && b[k] == a[0];
    var m :| 0 <= m < |a| && a[m] == b[0];
    if m != 0 { assert Collation.NameLe(a[0].name, a[m].name); } else { Collation.NameLeReflexive(a[0].name); }
    if k != 0 { assert Collation.NameLe(b[0].name, b[k].name); } else { Collation.NameLeReflexive(b[0].name); }
    Collation.NameLeAntisymmetric(a[0].name, b[0].name);
  }

  lemma SameTails(a: seq<Category>, b: seq<Category>)
    requires multiset(a) == multiset(b) && a != [] && b != [] && a[0] == b[0]
    ensures multiset(a[1..]) == multiset(b[1..])
  {
    assert a == [a[0]] + a[1..] && b == [b[0]] + b[1..];
    assert multiset(a[1..]) == multiset(a) - multiset{a[0]};
    assert multiset(b[1..]) == multiset(b) - multiset{b[0]};
  }

  /**
   * When names are unique, a table has exactly one arrangement sorted by name:
   * the result of `ORDER BY name` is fully determined.
   */
  lemma {:induction false} SortedArrangementUnique(a: seq<Category>, b: seq<Category>)
    requires SortedByName(a) && SortedByName(b)
    requires multiset(a) == multiset(b)
    requires NamesDistinct(a)
    ensures a == b
  {
    if a == [] {
      assert |b| == |multiset(b)| == 0;
    } else {
      SortedSameHead(a, b);
      SameTails(a, b);
      SortedArrangementUnique(a[1..], b[1..]);
    }
  }

  lemma {:induction false} DistinctNamesOccurOnce(rows: seq<Category>, x: Category)
    requires NamesDistinct(rows)
    ensures multiset(rows)[x] <= 1
  {
    if rows != [] {
      assert rows == [rows[0]] + rows[1..];
      assert NamesDistinct(rows[1..]) by {
        forall i, j | 0 <= i < j < |rows[1..]| ensures rows[1..][i].name != rows[1..][j].name {
          assert rows[1..][i] == rows[i + 1] && rows[1..][j] == rows[j + 1];
        }
      }
      DistinctNamesOccurOnce(rows[1..], x);
      if x == rows[0] {
        assert x !in rows[1..] by {
          forall k | 0 <= k < |rows[1..]| ensures rows[1..][k] != x {
            assert rows[1..][k] == rows[k + 1];
          }
        }
      }
    }
  }

  lemma RepeatedOccursTwice(rows: seq<Category>, i: int, j: int)
    requires 0 <= i < j < |rows| && rows[i] == rows[j]
    ensures multiset(rows)[rows[i]] >= 2
  {
    var x := rows[i];
    assert rows == rows[..i] + [x] + rows[i + 1..j] + [x] + rows[j + 1..];
  }

  /** Reordering rows keeps their names unique. */
  lemma NamesDistinctPermutation(a: seq<Category>, b: seq<Category>)
    requires multiset(a) == multiset(b) && NamesDistinct(a)
    ensures NamesDistinct(b)
  {
    forall i, j | 0 <= i < j < |b| ensures b[i].name != b[j].name {
      if b[i] == b[j] {
        RepeatedOccursTwice(b, i, j);
        DistinctNamesOccurOnce(a, b[i]);
      } else {
        assert b[i] in multiset(a) && b[j] in multiset(a);
        var p :| 0 <= p < |a| && a[p] == b[i];
        var q :| 0 <= q < |a| && a[q] == b[j];
        assert p != q;
      }
    }
  }

  /**
   * `ORDER BY name` over a table with unique names has one answer: any arrangement of its
   * rows sorted by name is the one `SortByName` computes.
   */
  lemma OrderByNameUnique(rows: seq<Category>, s: seq<Category>)
    requires NamesDistinct(rows)
    requires SortedByName(s) && multiset(s) == multiset(rows)
    ensures s == SortByName(rows)
  {
    NamesDistinctPermutation(rows, s);
    SortedArrangementUnique(s, SortByName(rows));
  }

  /** `SELECT * FROM categories WHERE id = $1`, first row: the row with that id. */
  function FindById(rows: seq<Category>, id: int): (r: Option<Category>)
    ensures r.Some? <==> HasId(rows, id)
    ensures r.Some? ==> r.value in rows && r.value.id == id
  {
    var found := Table.Where(rows, (c: Category) => c.id == id);
    if |found| == 0 then None
    else
      assert found[0] in found;
      Some(found[0])
  }

  /** `UPDATE categories SET ... WHERE id = $4`. */
  function SetById(rows: seq<Category>, id: int, row: Category): (r: seq<Category>)
    ensures |r| == |rows|
    ensures forall i :: 0 <= i < |rows| ==> r[i] == if rows[i].id == id then row else rows[i]
  {
    Table.SetWhere(rows, (c: Category) => c.id == id, row)
  }

  /**
   * Rewriting the row with a given id keeps ids unique, and keeps names unique when the row
   * keeps its own name or no other row holds the new one.
   */
  lemma RenameKeepsDistinct(rows: seq<Category>, id: int, row: Category)
    requires IdsDistinct(rows) && HasId(rows, id) && row.id == id
    requires row.name == FindById(rows, id).value.name || !NameTakenByOther(rows, row.name, id)
    ensures IdsDistinct(SetById(rows, id, row))
    ensures NamesDistinct(rows) ==> NamesDistinct(SetById(rows, id, row))
  {
  }

  /**
   * On a table with unique names, the create handler's duplicate check rejects exactly the
   * inserts that would give two rows the same name.
   */
  lemma CreateCheckIsExact(rows: seq<Category>, row: Category)
    requires NamesDistinct(rows)
    ensures HasName(rows, row.name) <==> !NamesDistinct(rows + [row])
  {
    if HasName(rows, row.name) {
      var i :| 0 <= i < |rows| && rows[i].name == row.name;
      assert (rows + [row])[i] == rows[i] && (rows + [row])[|rows|] == row;
    }
  }

  /**
   * On a table with unique names, the update handler's two-step name check (skipped when the
   * name is unchanged, otherwise a search among the other rows) rejects exactly the updates
   * that would give two rows the same name.
   */
  lemma UpdateCheckIsExact(rows: seq<Category>, id: int, row: Category)
    requires NamesDistinct(rows) && IdsDistinct(rows) && HasId(rows, id) && row.id == id
    ensures (row.name != FindById(rows, id).value.name && NameTakenByOther(rows, row.name, id))
            <==> !NamesDistinct(SetById(rows, id, row))
  {
  }

  /** The `categories` table, shared by every request. */
  class CategoryStore {
    var rows: seq<Category>

    ghost predicate Valid()
      reads this
    {
      IdsDistinct(rows)
    }

    constructor ()
      ensures Valid() && rows == []
    {
      rows := [];
    }

    /** GET `/`: every row, ordered by name; a read, so the table is untouched. */
    function List(): (r: seq<Category>)
      reads this
      ensures SortedByName(r)
      ensures multiset(r) == multiset(rows)
    {
      SortByName(rows)
    }

    /** POST `/`. */
    method Create(body: CategoryBody) returns (out: Outcome<Category>)
      requires Valid()
      modifies this
      ensures Valid()
      ensures NamesDistinct(old(rows)) ==> NamesDistinct(rows)
      ensures FalsyText(body.name) ==> out == BadRequest(NAME_REQUIRED) && rows == old(rows)
      ensures !FalsyText(body.name) && HasName(old(rows), body.name.value) ==>
                out == BadRequest(ALREADY_EXISTS) && rows == old(rows)
      ensures !FalsyText(body.name) && !HasName(old(rows), body.name.value) ==>
                && out.Created?
                && !HasId(old(rows), out.body.id)
                && out.body.name == body.name.value
                && out.body.itemCount == (if FalsyCount(body.itemCount) then 0 else body.itemCount.value)
                && out.body.imageUrl == (if FalsyText(body.imageUrl) then None else body.imageUrl)
                && rows == old(rows) + [out.body]
    {
      if FalsyText(body.name) {
        return BadRequest(NAME_REQUIRED);
      }
      var name := body.name.value;

      var existing := Table.Where(rows, (c: Category) => c.name == name);
      if |existing| > 0 {
        return BadRequest(ALREADY_EXISTS);
      }

      var id := Table.NextKey(rows, (c: Category) => c.id);
      var row := Category(id, name, CountOr(body.itemCount, 0), TextOr(body.imageUrl, None));
      assert forall i :: 0 <= i < |rows| ==> rows[i].id != id && rows[i].name != name by {
        forall i | 0 <= i < |rows| ensures rows[i].id != id && rows[i].name != name {
          assert rows[i] in rows;
        }
      }
      rows := rows + [row];
      return Created(row);
    }

    /** PUT `/:id`. */
    method Update(id: int, body: CategoryBody) returns (out: Outcome<Category>)
      requires Valid()
      modifies this
      ensures Valid()
      ensures NamesDistinct(old(rows)) ==> NamesDistinct(rows)
      ensures FalsyText(body.name) ==> out == BadRequest(NAME_REQUIRED) && rows == old(rows)
      ensures !FalsyText(body.name) && !HasId(old(rows), id) ==>
                out == NotFound(NOT_FOUND) && rows == old(rows)
      ensures !FalsyText(body.name) && HasId(old(rows), id) ==>
                var current := FindById(old(rows), id).value;
                var name := body.name.value;
                if name != current.name && NameTakenByOther(old(rows), name, id) then
                  out == BadRequest(NAME_ALREADY_EXISTS) && rows == old(rows)
                else
                  && out == Ok(Category(id, name,
                                        if FalsyCount(body.itemCount) then current.itemCount else body.itemCount.value,
                                        if FalsyText(body.imageUrl) then current.imageUrl else body.imageUrl))
                  && |rows| == |old(rows)|
                  && forall i :: 0 <= i < |rows| ==>
                       rows[i] == if old(rows)[i].id == id then out.body else old(rows)[i]
    {
      if FalsyText(body.name) {
        return BadRequest(NAME_REQUIRED);
      }
      var name := body.name.value;

      var existing := FindById(rows, id);
      if existing.None? {
        return NotFound(NOT_FOUND);
      }
      var current := existing.value;

      if name != current.name {
        var nameExists := Table.Where(rows, (c: Category) => c.name == name && c.id != id);
        if |nameExists| > 0 {
          return BadRequest(NAME_ALREADY_EXISTS);
        }
      }

      var row := Category(id, name, CountOr(body.itemCount, current.itemCount), TextOr(body.imageUrl, current.imageUrl));
      RenameKeepsDistinct(rows, id, row);
      rows := SetById(rows, id, row);
      return Ok(row);
    }
  }
}
