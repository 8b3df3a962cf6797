/** BookRepository: the `books` table, as an in-memory map from id to row
    whose operations follow the SQL statements the repository issues. */
module BookStore {
  import opened Base
  import opened Text
  import opened Books
  import opened Lists

  // ------------------------------------------------------ ORDER BY title

  /** Character-code lexicographic order on titles. */
  predicate TitleLe(a: string, b: string) {
    a == [] || (b != [] && (a[0] < b[0] || (a[0] == b[0] && TitleLe(a[1..], b[1..]))))
  }

  /** Any two titles are comparable. */
  lemma {:induction false} TitleLeTotal(a: string, b: string)
    ensures TitleLe(a, b) || TitleLe(b, a)
  {
    if a != [] && b != [] && a[0] == b[0] {
      TitleLeTotal(a[1..], b[1..]);
    }
  }

  /** The order is transitive. */
  lemma {:induction false} TitleLeTransitive(a: string, b: string, c: string)
    requires TitleLe(a, b) && TitleLe(b, c)
    ensures TitleLe(a, c)
  {
    if a != [] && a[0] == b[0] && b[0] == c[0] {
      TitleLeTransitive(a[1..], b[1..], c[1..]);
    }
  }

  lemma {:induction false} MinimumExists(s: set<int>)
    requires s != {}
    ensures exists m :: m in s && forall k :: k in s ==> m <= k
    decreases |s|
  {
    assert exists x :: x in s by {
      if forall x :: x !in s {
        assert false;
      }
    }
    var x :| x in s;
    if s != {x} {
      MinimumExists(s - {x});
      var y :| y in s - {x} && forall k :: k in s - {x} ==> y <= k;
      var m := if x <= y then x else y;
      forall k | k in s
        ensures m <= k
      {
        if k != x {
          assert k in s - {x};
        }
      }
    } else {
      assert forall k :: k in s ==> x <= k;
    }
  }

  /** The smallest id of a non-empty set of ids. */
  function MinimumId(s: set<int>): (m: int)
    requires s != {}
    ensures m in s && forall k :: k in s ==> m <= k
  {
    MinimumExists(s);
    var m :| m in s && forall k :: k in s ==> m <= k;
    m
  }

  /** The ids of `s` in strictly ascending order. */
  function AscendingIds(s: set<int>): (r: seq<int>)
    ensures forall i :: 0 <= i < |r| ==> r[i] in s
    ensures forall k :: k in s ==> k in r
    ensures forall i, j :: 0 <= i < j < |r| ==> r[i] < r[j]
    decreases s
  {
    if s == {} then []
    else
      var m := MinimumId(s);
      [m] + AscendingIds(s - {m})
  }

  /** Ids whose titles never decrease from one to the next. */
  predicate TitleSorted(rows: map<int, Row>, ids: seq<int>)
    requires forall i :: 0 <= i < |ids| ==> ids[i] in rows
  {
    forall i :: 0 <= i < |ids| - 1 ==> TitleLe(rows[ids[i]].title, rows[ids[i + 1]].title)
  }

  /** Puts `id` after every id whose title is at most its own. */
  function InsertByTitle(rows: map<int, Row>, id: int, ids: seq<int>): (r: seq<int>)
    requires id in rows && forall i :: 0 <= i < |ids| ==> ids[i] in rows
    requires TitleSorted(rows, ids)
    ensures multiset(r) == multiset(ids) + multiset{id}
    ensures forall i :: 0 <= i < |r| ==> r[i] in rows
    ensures r[0] == id || (ids != [] && r[0] == ids[0])
    ensures TitleSorted(rows, r)
  {
    if ids == [] then [id]
    else if !TitleLe(rows[ids[0]].title, rows[id].title) then
      TitleLeTotal(rows[ids[0]].title, rows[id].title);
      [id] + ids
    else
      var tail := InsertByTitle(rows, id, ids[1..]);
      assert ids == [ids[0]] + ids[1..];
      [ids[0]] + tail
  }

  /** Insertion sort by title of a list of ids. */
  function SortByTitle(rows: map<int, Row>, ids: seq<int>): (r: seq<int>)
    requires forall i :: 0 <= i < |ids| ==> ids[i] in rows
    ensures multiset(r) == multiset(ids)
    ensures forall i :: 0 <= i < |r| ==> r[i] in rows
    ensures TitleSorted(rows, r)
  {
    if ids == [] then []
    else
      var init := ids[..|ids| - 1];
      assert ids == init + [ids[|ids| - 1]];
      InsertByTitle(rows, ids[|ids| - 1], SortByTitle(rows, init))
  }

  /** The order of `SELECT * FROM books ORDER BY title`: the stored ids
      sorted by title. SQL leaves the order of equal titles open; this
      model fixes it to ascending id. */
  function TitleOrder(rows: map<int, Row>): (r: seq<int>)
    ensures forall i :: 0 <= i < |r| ==> r[i] in rows
  {
    SortByTitle(rows, AscendingIds(rows.Keys))
  }

  /** The title order holds every stored id exactly once, with titles
      non-decreasing. */
  lemma TitleOrderSpec(rows: map<int, Row>)
    ensures var r := TitleOrder(rows);
      (forall id :: id in rows ==> id in r)
      && (forall i, j :: 0 <= i < j < |r| ==> r[i] != r[j])
      && |r| == |rows|
      && TitleSorted(rows, r)
  {
    var asc := AscendingIds(rows.Keys);
    var r := SortByTitle(rows, asc);
    forall id | id in rows
      ensures id in r
    {
      assert id in multiset(asc);
    }
    DistinctFromMultiset(asc, r);
    DistinctCardinality(r, rows.Keys);
  }

  lemma {:induction false} AscendingCountsOne(a: seq<int>)
    requires forall i, j :: 0 <= i < j < |a| ==> a[i] < a[j]
    ensures forall x :: multiset(a)[x] <= 1
  {
    if a != [] {
      assert a == [a[0]] + a[1..];
      AscendingCountsOne(a[1..]);
      assert a[0] !in a[1..];
    }
  }

  lemma {:induction false} CountsOneDistinct(b: seq<int>)
    requires forall x :: multiset(b)[x] <= 1
    ensures forall i, j :: 0 <= i < j < |b| ==> b[i] != b[j]
  {
    if b != [] {
      assert b == [b[0]] + b[1..];
      assert forall x :: multiset(b[1..])[x] <= multiset(b)[x];
      CountsOneDistinct(b[1..]);
      assert multiset(b[1..])[b[0]] == 0;
      forall j | 0 < j < |b|
        ensures b[0] != b[j]
      {
        assert b[j] == b[1..][j - 1];
      }
    }
  }

  lemma DistinctFromMultiset(a: seq<int>, b: seq<int>)
    requires forall i, j :: 0 <= i < j < |a| ==> a[i] < a[j]
    requires multiset(a) == multiset(b)
    ensures forall i, j :: 0 <= i < j < |b| ==> b[i] != b[j]
  {
    AscendingCountsOne(a);
    CountsOneDistinct(b);
  }

  lemma {:induction false} DistinctCardinality(r: seq<int>, s: set<int>)
    requires forall i :: 0 <= i < |r| ==> r[i] in s
    requires forall k :: k in s ==> k in r
    requires forall i, j :: 0 <= i < j < |r| ==> r[i] != r[j]
    ensures |r| == |s|
    decreases |r|
  {
    if r != [] {
      var x := r[|r| - 1];
      var init := r[..|r| - 1];
      forall k | k in s - {x}
        ensures k in init
      {
        var i :| 0 <= i < |r| && r[i] == k;
      }
      DistinctCardinality(init, s - {x});
    } else {
      assert forall k :: k !in s;
      assert s == {};
    }
  }

  /** The books the result-set loop builds from the ids, in their order. */
  function MapIds(rows: map<int, Row>, ids: seq<int>): (books: seq<Book>)
    requires forall i :: 0 <= i < |ids| ==> ids[i] in rows
    ensures |books| == |ids|
    ensures forall i :: 0 <= i < |ids| ==> books[i] == MapResultSetToBook(ids[i], rows[ids[i]])
  {
    if ids == [] then []
    else MapIds(rows, ids[..|ids| - 1]) + [MapResultSetToBook(ids[|ids| - 1], rows[ids[|ids| - 1]])]
  }

  lemma MapIdsSnoc(rows: map<int, Row>, ids: seq<int>, i: int)
    requires forall k :: 0 <= k < |ids| ==> ids[k] in rows
    requires 0 <= i < |ids|
    ensures MapIds(rows, ids[..i + 1]) == MapIds(rows, ids[..i]) + [MapResultSetToBook(ids[i], rows[ids[i]])]
  {
    assert ids[..i + 1][..i] == ids[..i];
  }

  /** What `findAll` returns: one mapped book per row, in title order. */
  function Listing(rows: map<int, Row>): (books: seq<Book>)
    ensures |books| == |rows|
  {
    TitleOrderSpec(rows);
    MapIds(rows, TitleOrder(rows))
  }

  /** Every book of the listing is the mapping of a stored row. */
  lemma ListingFromRows(rows: map<int, Row>, i: int)
    requires 0 <= i < |Listing(rows)|
    ensures Listing(rows)[i].id.Some? && Listing(rows)[i].id.value in rows
    ensures Listing(rows)[i] == MapResultSetToBook(Listing(rows)[i].id.value, rows[Listing(rows)[i].id.value])
  {
  }

  /** Every stored row appears in the listing ... */
  lemma ListingComplete(rows: map<int, Row>, id: int)
    requires id in rows
    ensures exists i :: 0 <= i < |Listing(rows)| && Listing(rows)[i].id == Some(id)
  {
    var ids := TitleOrder(rows);
    TitleOrderSpec(rows);
    var i :| 0 <= i < |ids| && ids[i] == id;
    assert Listing(rows)[i].id == Some(id);
  }

  /** ... exactly once. */
  lemma ListingDistinct(rows: map<int, Row>, i: int, j: int)
    requires 0 <= i < j < |Listing(rows)|
    ensures Listing(rows)[i].id != Listing(rows)[j].id
  {
    var ids := TitleOrder(rows);
    TitleOrderSpec(rows);
    assert Listing(rows)[i].id == Some(ids[i]) && Listing(rows)[j].id == Some(ids[j]);
  }

  /** Consecutive books of the listing have non-decreasing titles. */
  lemma ListingSorted(rows: map<int, Row>, i: int)
    requires 0 <= i < |Listing(rows)| - 1
    ensures TitleLe(Listing(rows)[i].title.value, Listing(rows)[i + 1].title.value)
  {
    var ids := TitleOrder(rows);
    TitleOrderSpec(rows);
    assert Listing(rows)[i].title.value == rows[ids[i]].title;
    assert Listing(rows)[i + 1].title.value == rows[ids[i + 1]].title;
  }

  /** Titles along the title order never decrease, between any two positions. */
  lemma {:induction false} TitleOrderPairwise(rows: map<int, Row>, i: int, j: int)
    requires 0 <= i <= j < |TitleOrder(rows)|
    ensures TitleLe(rows[TitleOrder(rows)[i]].title, rows[TitleOrder(rows)[j]].title)
    decreases j - i
  {
    var ids := TitleOrder(rows);
    TitleOrderSpec(rows);
    if i == j {
      TitleLeTotal(rows[ids[i]].title, rows[ids[i]].title);
    } else {
      TitleOrderPairwise(rows, i, j - 1);
      TitleLeTransitive(rows[ids[i]].title, rows[ids[j - 1]].title, rows[ids[j]].title);
    }
  }

  /** Listed books are sorted by title in the pairwise sense too. */
  lemma ListingPairwiseSorted(rows: map<int, Row>, i: int, j: int)
    requires 0 <= i <= j < |Listing(rows)|
    ensures TitleLe(Listing(rows)[i].title.value, Listing(rows)[j].title.value)
  {
    var ids := TitleOrder(rows);
    TitleOrderPairwise(rows, i, j);
    assert Listing(rows)[i].title.value == rows[ids[i]].title;
    assert Listing(rows)[j].title.value == rows[ids[j]].title;
  }

  // ------------------------------------------------------- the repository

  /** The `books` table and its AUTO_INCREMENT counter. */
  class BookRepository {
    var rows: map<int, Row>
    var nextId: int

    /** Every stored id was handed out before the counter's current value. */
    ghost predicate Valid()
      reads this
    {
      nextId >= 1 && forall id :: id in rows ==> id < nextId
    }

    constructor (rows0: map<int, Row>, nextId0: int)
      requires nextId0 >= 1 && forall id :: id in rows0 ==> id < nextId0
      ensures Valid() && rows == rows0 && nextId == nextId0
    {
      rows := rows0;
      nextId := nextId0;
    }

    /** `findAll`: reads the rows in title order and maps each one. */
    method FindAll() returns (books: seq<Book>)
      ensures books == Listing(rows)
    {
      var table := rows;
      var ids := TitleOrder(table);
      books := [];
      var i := 0;
      while i < |ids|
        invariant 0 <= i <= |ids|
        invariant books == MapIds(table, ids[..i])
      {
        MapIdsSnoc(table, ids, i);
        books := books + [MapResultSetToBook(ids[i], table[ids[i]])];
        i := i + 1;
      }
      assert ids[..i] == ids;
    }

    /** `findById`: the mapped row with that id, or null when there is none. */
    method FindById(id: int) returns (book: Option<Book>)
      ensures book.Some? <==> id in rows
      ensures book.Some? ==> book.value == MapResultSetToBook(id, rows[id])
    {
      if id in rows {
        book := Some(MapResultSetToBook(id, rows[id]));
      } else {
        book := None;
      }
    }

    /** `save`: inserts title, author, price, isbn and internal code under a
        newly generated id (view count takes the column default 0) and
        returns the book with that id set. A null title or author violates
        the NOT NULL columns and nothing is inserted. */
    method Save(book: Book) returns (r: Result<Book>)
      requires Valid()
      modifies this
      ensures Valid()
      ensures (book.title.None? || book.author.None?) <==> r.Failure?
      ensures r.Failure? ==> rows == old(rows) && nextId == old(nextId)
      ensures r.Success? ==>
        var id := old(nextId);
        id !in old(rows) && nextId == id + 1 &&
        r.value == SetId(book, Some(id)) &&
        rows == old(rows)[id := Row(book.title.value, book.author.value, book.price,
                                    book.isbn, book.internalCode, 0)]
    {
      if book.title.None? {
        return Failure(Sql("Column 'title' cannot be null"));
      }
      if book.author.None? {
        return Failure(Sql("Column 'author' cannot be null"));
      }
      var id := nextId;
      rows := rows[id := Row(book.title.value, book.author.value, book.price,
                             book.isbn, book.internalCode, 0)];
      nextId := nextId + 1;
      r := Success(SetId(book, Some(id)));
    }

    /** `update`: writes title, author and price of the row with the book's
        id and nothing else; fails when no row has that id. */
    method Update(book: Book) returns (r: Result<Book>)
      requires Valid()
      modifies this
      ensures Valid() && nextId == old(nextId)
      ensures r.Success? <==>
        book.id.Some? && book.id.value in old(rows) && book.title.Some? && book.author.Some?
      ensures book.id.None? ==> r == Failure(NullPointer)
      ensures book.id.Some? && book.id.value !in old(rows) ==>
        r == Failure(Sql("Updating book failed, no rows affected."))
      ensures r.Failure? ==> rows == old(rows)
      ensures r.Success? ==>
        var id := book.id.value;
        r.value == book &&
        rows == old(rows)[id := old(rows)[id].(title := book.title.value,
                                               author := book.author.value,
                                               price := book.price)]
    {
      if book.id.None? {
        return Failure(NullPointer);
      }
      var id := book.id.value;
      if id !in rows {
        return Failure(Sql("Updating book failed, no rows affected."));
      }
      if book.title.None? {
        return Failure(Sql("Column 'title' cannot be null"));
      }
      if book.author.None? {
        return Failure(Sql("Column 'author' cannot be null"));
      }
      rows := rows[id := rows[id].(title := book.title.value, author := book.author.value,
                                   price := book.price)];
      r := Success(book);
    }

    /** `deleteById`: removes exactly that row; fails when there is none. */
    method DeleteById(id: int) returns (r: Outcome)
      requires Valid()
      modifies this
      ensures Valid() && nextId == old(nextId)
      ensures r == Pass <==> id in old(rows)
      ensures r.Fail? ==> r.error == Sql("Deleting book failed, no rows affected.")
      ensures rows == old(rows) - {id}
    {
      if id !in rows {
        return Fail(Sql("Deleting book failed, no rows affected."));
      }
      rows := rows - {id};
      r := Pass;
    }

    /** `UPDATE books SET view_count = view_count + 1 WHERE id = ?`, the
        statement the service and the controller issue directly: zero or
        one row changes, and zero rows is not an error. */
    method IncrementViewCount(id: int)
      requires Valid()
      modifies this
      ensures Valid() && nextId == old(nextId)
      ensures rows == ViewCountIncremented(old(rows), id)
    {
      rows := ViewCountIncremented(rows, id);
    }
  }

  /** The table after the view-count statement for `id`. */
  function ViewCountIncremented(rows: map<int, Row>, id: int): (r: map<int, Row>)
    ensures r.Keys == rows.Keys
    ensures id in rows ==> r[id] == rows[id].(viewCount := rows[id].viewCount + 1)
    ensures forall k :: k in rows && k != id ==> r[k] == rows[k]
  {
    if id in rows then rows[id := rows[id].(viewCount := rows[id].viewCount + 1)] else rows
  }
}
