/** AuthorRepository: the `authors` table of (name, book_count) rows, as an
    in-memory sequence whose operations follow the SQL the repository issues.
    Nothing makes `name` unique, so the sequence may hold several rows with
    the same name. */
module AuthorLedger {

  datatype AuthorRow = AuthorRow(name: string, bookCount: int)

  /** `SELECT COUNT(*) FROM authors WHERE name = ?`. */
  function CountNamed(rows: seq<AuthorRow>, name: string): (n: nat)
    ensures n <= |rows|
  {
    if rows == [] then 0
    else CountNamed(rows[..|rows| - 1], name) + (if rows[|rows| - 1].name == name then 1 else 0)
  }

  /** Some row carries the name. */
  predicate HasAuthor(rows: seq<AuthorRow>, name: string) {
    exists i :: 0 <= i < |rows| && rows[i].name == name
  }

  /** The count is positive exactly when some row carries the name. */
  lemma {:induction false} CountPositiveIff(rows: seq<AuthorRow>, name: string)
    ensures CountNamed(rows, name) > 0 <==> HasAuthor(rows, name)
  {
    if rows != [] {
      var init := rows[..|rows| - 1];
      CountPositiveIff(init, name);
      if HasAuthor(init, name) {
        var i :| 0 <= i < |init| && init[i].name == name;
        assert rows[i].name == name;
      }
      if HasAuthor(rows, name) && rows[|rows| - 1].name != name {
        var i :| 0 <= i < |rows| && rows[i].name == name;
        assert init[i].name == name;
      }
    }
  }

  /** The table after `UPDATE authors SET book_count = book_count - 1
      WHERE name = ?`: every row with that name loses one, with no floor;
      every other row is as it was. */
  function Decremented(rows: seq<AuthorRow>, name: string): (r: seq<AuthorRow>)
    ensures |r| == |rows|
    ensures forall i :: 0 <= i < |rows| && rows[i].name == name ==>
      r[i] == AuthorRow(name, rows[i].bookCount - 1)
    ensures forall i :: 0 <= i < |rows| && rows[i].name != name ==> r[i] == rows[i]
  {
    if rows == [] then []
    else
      var row := rows[0];
      [if row.name == name then row.(bookCount := row.bookCount - 1) else row]
        + Decremented(rows[1..], name)
  }

  /** The rows carrying `name`, in table order. */
  function RowsNamed(rows: seq<AuthorRow>, name: string): seq<AuthorRow>
  {
    if rows == [] then []
    else (if rows[0].name == name then [rows[0]] else []) + RowsNamed(rows[1..], name)
  }

  /** Decrementing one name leaves the rows of every other name as they were. */
  lemma {:induction false} DecrementKeepsOtherNames(rows: seq<AuthorRow>, name: string, other: string)
    requires other != name
    ensures RowsNamed(Decremented(rows, name), other) == RowsNamed(rows, other)
  {
    if rows != [] {
      var r := Decremented(rows, name);
      assert r[1..] == Decremented(rows[1..], name);
      DecrementKeepsOtherNames(rows[1..], name, other);
    }
  }

  lemma {:induction false} RowsNamedAppend(a: seq<AuthorRow>, b: seq<AuthorRow>, name: string)
    ensures RowsNamed(a + b, name) == RowsNamed(a, name) + RowsNamed(b, name)
  {
    if a != [] {
      assert (a + b)[1..] == a[1..] + b;
      RowsNamedAppend(a[1..], b, name);
    } else {
      assert a + b == b;
    }
  }

  /** Inserting a row for one name leaves the rows of every other name as
      they were. */
  lemma CreateKeepsOtherNames(rows: seq<AuthorRow>, name: string, other: string)
    requires other != name
    ensures RowsNamed(rows + [AuthorRow(name, 1)], other) == RowsNamed(rows, other)
  {
    RowsNamedAppend(rows, [AuthorRow(name, 1)], other);
    assert RowsNamed([AuthorRow(name, 1)], other) == [];
  }

  /** Decrementing a name that no row carries changes nothing. */
  lemma DecrementAbsentIsNoOp(rows: seq<AuthorRow>, name: string)
    requires !HasAuthor(rows, name)
    ensures Decremented(rows, name) == rows
  {
    var r := Decremented(rows, name);
    forall i | 0 <= i < |rows|
      ensures r[i] == rows[i]
    {
      assert rows[i].name != name;
    }
  }

  /** Inserting the same name twice leaves two more rows with that name:
      there is no duplicate check. */
  lemma CreateTwiceTwoRows(rows: seq<AuthorRow>, name: string)
    ensures CountNamed(rows + [AuthorRow(name, 1)] + [AuthorRow(name, 1)], name)
      == CountNamed(rows, name) + 2
  {
    var once := rows + [AuthorRow(name, 1)];
    assert once[..|once| - 1] == rows;
    var twice := once + [AuthorRow(name, 1)];
    assert twice[..|twice| - 1] == once;
  }

  /** A row whose count is already 0 goes to -1: no floor is applied. */
  lemma DecrementBelowZero(rows: seq<AuthorRow>, name: string, i: int)
    requires 0 <= i < |rows| && rows[i] == AuthorRow(name, 0)
    ensures Decremented(rows, name)[i].bookCount == -1
  {
  }

  /** The `authors` table. */
  class AuthorRepository {
    var rows: seq<AuthorRow>

    constructor (rows0: seq<AuthorRow>)
      ensures rows == rows0
    {
      rows := rows0;
    }

    /** `existsByName`: true when the row count for the name is positive. */
    method ExistsByName(name: string) returns (found: bool)
      ensures found <==> HasAuthor(rows, name)
    {
      var count := CountNamed(rows, name);
      CountPositiveIff(rows, name);
      found := count > 0;
    }

    /** `createAuthor`: inserts (name, 1) and checks nothing. */
    method CreateAuthor(name: string)
      modifies this
      ensures rows == old(rows) + [AuthorRow(name, 1)]
    {
      rows := rows + [AuthorRow(name, 1)];
    }

    /** `decrementBookCount`: one UPDATE, no affected-rows check, so an
        absent name is silently a no-op. */
    method DecrementBookCount(name: string)
      modifies this
      ensures rows == Decremented(old(rows), name)
    {
      rows := Decremented(rows, name);
    }
  }
}
