/** BookController: the REST endpoints under /api/books, each composing
    service calls with logic of its own (discount flags, partial merge,
    search, sales counts, pre-checks). */
module Controller {
  import opened Base
  import opened Text
  import opened Books
  import opened BookStore
  import opened AuthorLedger
  import opened Lists
  import opened Service

  // ------------------------------------------------------------- discount

  /** Books priced above this are discounted. */
  const DiscountThreshold: real := 50.0

  /** The factor applied to a discounted price. */
  const DiscountFactor: real := 0.9

  /** The body of `getAllBooks`' loop: a book priced above 50 is flagged and
      given 90% of its price; any other book is left as it is. */
  function ApplyDiscount(book: Book): (r: Book)
    ensures book.price > DiscountThreshold ==>
      r.discountApplied && r.discountedPrice == book.price * DiscountFactor
      && r.(discountApplied := book.discountApplied, discountedPrice := book.discountedPrice) == book
    ensures book.price <= DiscountThreshold ==> r == book
  {
    if book.price > DiscountThreshold then
      SetDiscountedPrice(SetDiscountApplied(book, true), book.price * DiscountFactor)
    else book
  }

  /** The loop over the whole list. */
  function DiscountAll(books: seq<Book>): (r: seq<Book>)
    ensures |r| == |books|
    ensures forall i :: 0 <= i < |books| ==> r[i] == ApplyDiscount(books[i])
  {
    if books == [] then []
    else DiscountAll(books[..|books| - 1]) + [ApplyDiscount(books[|books| - 1])]
  }

  lemma DiscountAllSnoc(books: seq<Book>, i: int)
    requires 0 <= i < |books|
    ensures DiscountAll(books[..i + 1]) == DiscountAll(books[..i]) + [ApplyDiscount(books[i])]
  {
    assert books[..i + 1][..i] == books[..i];
  }

  // ---------------------------------------------------------------- merge

  /** The field copying of `updateBook`: a non-null incoming title or
      author replaces the existing one, and a positive incoming price
      replaces the existing price. */
  function MergeUpdate(existing: Book, patch: Book): (r: Book)
    ensures r.title == if patch.title.Some? then patch.title else existing.title
    ensures r.author == if patch.author.Some? then patch.author else existing.author
    ensures r.price == if patch.price > 0.0 then patch.price else existing.price
    ensures r.(title := existing.title, author := existing.author, price := existing.price) == existing
  {
    var b := if patch.title.Some? then SetTitle(existing, patch.title) else existing;
    var b := if patch.author.Some? then SetAuthor(b, patch.author) else b;
    if patch.price > 0.0 then SetPrice(b, patch.price) else b
  }

  /** A body with nothing set (`new Book()`) changes nothing. */
  lemma MergeEmptyPatch(existing: Book)
    ensures MergeUpdate(existing, NewBook()) == existing
  {
  }

  /** Applying the same body twice is applying it once. */
  lemma MergeIdempotent(existing: Book, patch: Book)
    ensures MergeUpdate(MergeUpdate(existing, patch), patch) == MergeUpdate(existing, patch)
  {
  }

  /** A body that sets all three fields replaces all three. */
  lemma MergeFullPatch(existing: Book, patch: Book)
    requires patch.title.Some? && patch.author.Some? && patch.price > 0.0
    ensures var r := MergeUpdate(existing, patch);
      r.title == patch.title && r.author == patch.author && r.price == patch.price
  {
  }

  // --------------------------------------------------------------- search

  /** `title.toLowerCase().contains(q) || author.toLowerCase().contains(q)`
      with `q` the lower-cased query. */
  predicate MatchesQuery(title: string, author: string, query: string) {
    Contains(ToLower(title), ToLower(query)) || Contains(ToLower(author), ToLower(query))
  }

  /** The test of `searchBooks`' loop on a listed book. */
  predicate BookMatches(book: Book, query: string) {
    book.title.Some? && book.author.Some? && MatchesQuery(book.title.value, book.author.value, query)
  }

  function MatchingQuery(query: string): Book -> bool {
    book => BookMatches(book, query)
  }

  /** The books of the list that match, in list order. */
  function SearchResults(books: seq<Book>, query: string): (r: seq<Book>)
    ensures |r| <= |books|
    ensures forall i :: 0 <= i < |r| ==> BookMatches(r[i], query)
  {
    Filter(books, MatchingQuery(query))
  }

  /** A book is a result exactly when it is in the list and matches; the
      results keep the list's order. */
  lemma SearchResultsExact(books: seq<Book>, query: string, book: Book)
    ensures book in SearchResults(books, query) <==> book in books && BookMatches(book, query)
    ensures Subsequence(SearchResults(books, query), books)
  {
    FilterMembership(books, MatchingQuery(query), book);
    FilterSubsequence(books, MatchingQuery(query));
  }

  /** The empty query matches every listed book. */
  lemma EmptyQueryMatchesAll(book: Book)
    requires Listed(book)
    ensures BookMatches(book, "")
  {
    assert OccursAt(ToLower(book.title.value), ToLower(""), 0);
    ContainsIffOccurs(ToLower(book.title.value), ToLower(""));
  }

  // --------------------------------------------------------- sales report

  /** What the model keeps of the sales report: `totalBooks` and
      `topAuthors`, the per-author counts keyed by the author reference. */
  datatype SalesReport = SalesReport(totalBooks: int, topAuthors: map<Option<string>, nat>)

  /** The `authorCounts` map after the loop: `put(author, getOrDefault(author, 0) + 1)`
      for each book in turn. */
  function AuthorCounts(books: seq<Book>): (m: map<Option<string>, nat>)
    ensures forall a :: a in m ==> m[a] > 0
  {
    if books == [] then map[]
    else
      var m := AuthorCounts(books[..|books| - 1]);
      var a := books[|books| - 1].author;
      m[a := (if a in m then m[a] else 0) + 1]
  }

  lemma AuthorCountsSnoc(books: seq<Book>, i: int)
    requires 0 <= i < |books|
    ensures var m := AuthorCounts(books[..i]);
      var a := books[i].author;
      AuthorCounts(books[..i + 1]) == m[a := (if a in m then m[a] else 0) + 1]
  {
    assert books[..i + 1][..i] == books[..i];
  }

  /** How many books of the list have the author. */
  function CountByAuthor(books: seq<Book>, a: Option<string>): nat {
    if books == [] then 0
    else CountByAuthor(books[..|books| - 1], a) + (if books[|books| - 1].author == a then 1 else 0)
  }

  /** Each count is the number of books with that author, and an author is
      a key exactly when some book has it. */
  lemma {:induction false} AuthorCountsExact(books: seq<Book>, a: Option<string>)
    ensures a in AuthorCounts(books) <==> CountByAuthor(books, a) > 0
    ensures a in AuthorCounts(books) ==> AuthorCounts(books)[a] == CountByAuthor(books, a)
  {
    if books != [] {
      AuthorCountsExact(books[..|books| - 1], a);
    }
  }

  /** The counts add up to the number of books. */
  lemma {:induction false} AuthorCountsSum(books: seq<Book>)
    ensures SumValues(AuthorCounts(books)) == |books|
  {
    if books != [] {
      var init := books[..|books| - 1];
      AuthorCountsSum(init);
      SumValuesIncrement(AuthorCounts(init), books[|books| - 1].author);
    }
  }

  /** The report over a list of books. */
  function SalesReportOf(books: seq<Book>): (r: SalesReport)
    ensures r.totalBooks == |books|
  {
    SalesReport(|books|, AuthorCounts(books))
  }

  // -------------------------------------------------------------- effects

  /** GET /api/books. */
  function GetAllBooksEffect(st: Store): (s: Step<seq<Book>>)
    ensures StoreValid(st) ==> StoreValid(s.st)
  {
    var all := FindAllBooksEffect(st);
    Step(all.st, DiscountAll(all.result))
  }

  /** GET /api/books/{id}: not found when the service finds nothing;
      otherwise the controller's own view-count statement runs too. */
  function GetBookByIdEffect(st: Store, id: int): (s: Step<Result<Book>>)
    ensures StoreValid(st) ==> StoreValid(s.st)
  {
    var found := FindBookByIdEffect(st, Some(id));
    if found.result.None? then
      Step(found.st, Failure(Runtime("Book not found with id: " + LongToString(id))))
    else
      Step(found.st.(books := ViewCountIncremented(found.st.books, id)), Success(found.result.value))
  }

  /** The ISBN `createBook` assigns at clock reading `now`. */
  function IsbnFor(now: nat): (r: string)
    ensures |r| > 5 && r[..5] == "ISBN-" && AllDigits(r[5..])
  {
    "ISBN-" + NatToDecimal(now)
  }

  /** POST /api/books: the controller's pre-checks, then the ISBN from the
      clock reading `isbnTime`, then `saveBook` with its own clock reading
      `codeTime`. */
  function CreateBookEffect(st: Store, book: Book, isbnTime: nat, codeTime: nat): (s: Step<Result<Book>>)
    ensures StoreValid(st) ==> StoreValid(s.st)
  {
    if MissingText(book.title) then Step(st, Failure(IllegalArgument("Title cannot be empty")))
    else if book.price <= 0.0 then Step(st, Failure(IllegalArgument("Price must be positive")))
    else SaveBookEffect(st, Some(SetIsbn(book, Some(IsbnFor(isbnTime)))), codeTime)
  }

  /** PUT /api/books/{id}: the lookup (which counts a view), the merge,
      then `updateBook` on the merged book. */
  function UpdateBookByIdEffect(st: Store, id: int, patch: Book): (s: Step<Result<Book>>)
    ensures StoreValid(st) ==> StoreValid(s.st)
  {
    var found := FindBookByIdEffect(st, Some(id));
    if found.result.None? then Step(found.st, Failure(Runtime("Book not found")))
    else UpdateBookEffect(found.st, Some(MergeUpdate(found.result.value, patch)))
  }

  /** DELETE /api/books/{id}: the lookup (which counts a view), then
      `deleteBook`, which looks the book up again. */
  function DeleteBookByIdEffect(st: Store, id: int): (s: Step<Outcome>)
    ensures StoreValid(st) ==> StoreValid(s.st)
  {
    var found := FindBookByIdEffect(st, Some(id));
    if found.result.None? then Step(found.st, Fail(Runtime("Book not found")))
    else Step(DeleteBookEffect(found.st, Some(id)), Pass)
  }

  /** GET /api/books/search. */
  function SearchBooksEffect(st: Store, query: string): (s: Step<seq<Book>>)
    ensures StoreValid(st) ==> StoreValid(s.st)
  {
    var all := FindAllBooksEffect(st);
    Step(all.st, SearchResults(all.result, query))
  }

  /** GET /api/books/reports/sales. */
  function SalesReportEffect(st: Store): (s: Step<SalesReport>)
    ensures StoreValid(st) ==> StoreValid(s.st)
  {
    var all := FindAllBooksEffect(st);
    Step(all.st, SalesReportOf(all.result))
  }

  // ------------------------------------------------ endpoint properties

  /** Every listed book comes back flagged exactly when its price is above
      50, and a book at or below 50 comes back as the service returned it. */
  lemma GetAllFlagsExpensiveBooks(st: Store, i: int)
    requires 0 <= i < |st.books|
    ensures var books := GetAllBooksEffect(st).result;
      var listed := Listing(st.books)[i];
      |books| == |st.books|
      && (books[i].discountApplied <==> listed.price > DiscountThreshold)
      && (listed.price > DiscountThreshold ==> books[i].discountedPrice == listed.price * DiscountFactor)
      && (listed.price <= DiscountThreshold ==> books[i] == EnrichBookData(listed))
  {
    var listed := Listing(st.books)[i];
    ListingFromRows(st.books, i);
    assert !listed.discountApplied;
  }

  /** A successful GET by id counts two views: one in the service and one
      in the controller. The book returned carries the count as read. */
  lemma GetByIdCountsTwoViews(st: Store, id: int)
    requires id > 0 && id in st.books
    ensures var s := GetBookByIdEffect(st, id);
      s.result == Success(EnrichBookData(MapResultSetToBook(id, st.books[id])))
      && s.st.books[id] == st.books[id].(viewCount := st.books[id].viewCount + 2)
      && (forall k :: k in st.books && k != id ==> s.st.books[k] == st.books[k])
      && s.st == st.(books := s.st.books)
  {
    FindCountsOneView(st, id);
  }

  /** A GET for an id that finds nothing fails, naming the id, and changes
      nothing. */
  lemma GetByIdNotFound(st: Store, id: int)
    requires id <= 0 || id !in st.books
    ensures GetBookByIdEffect(st, id)
      == Step(st, Failure(Runtime("Book not found with id: " + LongToString(id))))
  {
  }

  /** POST rejects a missing or blank title, then a non-positive price,
      before anything is written. */
  lemma CreateRejectsBeforeSaving(st: Store, book: Book, isbnTime: nat, codeTime: nat)
    requires MissingText(book.title) || book.price <= 0.0
    ensures var s := CreateBookEffect(st, book, isbnTime, codeTime);
      s.st == st
      && (MissingText(book.title) ==> s.result == Failure(IllegalArgument("Title cannot be empty")))
      && (!MissingText(book.title) ==> s.result == Failure(IllegalArgument("Price must be positive")))
  {
  }

  /** The ISBN is "ISBN-" followed by the decimal clock reading, which reads
      back as that reading. */
  lemma IsbnRoundTrip(now: nat)
    ensures StartsWith(IsbnFor(now), "ISBN-")
    ensures AllDigits(IsbnFor(now)[5..]) && DecimalValue(IsbnFor(now)[5..]) == now
  {
    assert IsbnFor(now)[5..] == NatToDecimal(now);
    DecimalRoundTrip(now);
  }

  /** Past the pre-checks, POST is `saveBook` of the book with its ISBN set:
      the book is then stored with that ISBN when the save succeeds. */
  lemma CreateSavesWithIsbn(st: Store, book: Book, isbnTime: nat, codeTime: nat)
    requires StoreValid(st)
    requires !MissingText(book.title) && book.price > 0.0
    requires ValidateBook(Some(book)) == Pass && GenerateInternalCode(book, codeTime).Success?
    ensures var s := CreateBookEffect(st, book, isbnTime, codeTime);
      s.result.Success? && s.result.value.isbn == Some(IsbnFor(isbnTime))
      && s.st.books[st.nextId].isbn == Some(IsbnFor(isbnTime))
  {
    var withIsbn := SetIsbn(book, Some(IsbnFor(isbnTime)));
    assert ValidateBook(Some(withIsbn)) == Pass;
    SaveStoresBook(st, withIsbn, codeTime);
  }

  /** PUT and DELETE for an id that finds nothing fail with "Book not
      found" and change nothing. */
  lemma UnknownIdChangesNothing(st: Store, id: int, patch: Book)
    requires id <= 0 || id !in st.books
    ensures UpdateBookByIdEffect(st, id, patch) == Step(st, Failure(Runtime("Book not found")))
    ensures DeleteBookByIdEffect(st, id) == Step(st, Fail(Runtime("Book not found")))
  {
  }

  /** A PUT whose merged book fails validation still counted the view of
      its lookup, and changes nothing else. */
  lemma UpdateRejectedStillCountsView(st: Store, id: int, patch: Book)
    requires id > 0 && id in st.books
    requires ValidateBook(Some(MergeUpdate(EnrichBookData(MapResultSetToBook(id, st.books[id])), patch))).Fail?
    ensures var s := UpdateBookByIdEffect(st, id, patch);
      s.result.Failure?
      && s.st == st.(books := st.books[id := st.books[id].(viewCount := st.books[id].viewCount + 1)])
  {
    FindCountsOneView(st, id);
    var found := FindBookByIdEffect(st, Some(id));
    assert found.st.books == st.books[id := st.books[id].(viewCount := st.books[id].viewCount + 1)];
  }

  /** A PUT that passes validation writes the merged title, author and price
      into the row; its isbn and internal code stay, its view count is the
      one its lookup added, the other rows stay, and the cache is dropped. */
  lemma UpdateWritesMerge(st: Store, id: int, patch: Book)
    requires id > 0 && id in st.books
    requires ValidateBook(Some(MergeUpdate(EnrichBookData(MapResultSetToBook(id, st.books[id])), patch))) == Pass
    ensures var s := UpdateBookByIdEffect(st, id, patch);
      var row := st.books[id];
      var merged := MergeUpdate(EnrichBookData(MapResultSetToBook(id, row)), patch);
      s.result == Success(merged)
      && s.st.books[id].title == merged.title.value
      && s.st.books[id].author == merged.author.value
      && s.st.books[id].price == merged.price
      && s.st.books[id].isbn == row.isbn
      && s.st.books[id].internalCode == row.internalCode
      && s.st.books[id].viewCount == row.viewCount + 1
      && (forall k :: k in st.books && k != id ==> s.st.books[k] == st.books[k])
      && !s.st.cachePresent
  {
    FindCountsOneView(st, id);
    var found := FindBookByIdEffect(st, Some(id));
    var merged := MergeUpdate(EnrichBookData(MapResultSetToBook(id, st.books[id])), patch);
    assert merged.id == Some(id);
    assert UpdateBookByIdEffect(st, id, patch) == UpdateBookEffect(found.st, Some(merged));
    UpdateWritesThreeColumns(found.st, merged);
  }

  /** A DELETE of a stored book removes exactly its row and takes one off
      each row of its author. */
  lemma DeleteByIdRemovesRow(st: Store, id: int)
    requires id > 0 && id in st.books
    ensures var s := DeleteBookByIdEffect(st, id);
      s.result == Pass
      && s.st.books == st.books - {id}
      && s.st.authors == Decremented(st.authors, st.books[id].author)
      && s.st.recommendations == KeptLines(st.recommendations, RecommendationKey(Some(id)))
  {
    var found := FindBookByIdEffect(st, Some(id));
    FindCountsOneView(st, id);
    DeletePresent(found.st, id);
    assert found.st.books - {id} == st.books - {id};
  }

  /** Search returns exactly the listed books that match, in listing order. */
  lemma SearchReturnsMatches(st: Store, query: string, book: Book)
    ensures var listed := EnrichAll(Listing(st.books));
      var results := SearchBooksEffect(st, query).result;
      (book in results <==> book in listed && BookMatches(book, query))
      && Subsequence(results, listed)
  {
    SearchResultsExact(EnrichAll(Listing(st.books)), query, book);
  }

  /** The report counts every stored book once: `totalBooks` is the number
      of rows, the per-author counts add up to it, and each count is the
      number of listed books by that author. */
  lemma SalesReportConsistent(st: Store, a: Option<string>)
    ensures var r := SalesReportEffect(st).result;
      var listed := EnrichAll(Listing(st.books));
      r.totalBooks == |st.books|
      && SumValues(r.topAuthors) == r.totalBooks
      && (a in r.topAuthors <==> CountByAuthor(listed, a) > 0)
      && (a in r.topAuthors ==> r.topAuthors[a] == CountByAuthor(listed, a))
  {
    var listed := EnrichAll(Listing(st.books));
    AuthorCountsSum(listed);
    AuthorCountsExact(listed, a);
  }

  // ------------------------------------------------------ endpoint loops

  /** The discount loop of `getAllBooks`, over the list the service
      returned. */
  method DiscountBooks(all: seq<Book>) returns (books: seq<Book>)
    ensures books == DiscountAll(all)
  {
    books := [];
    var i := 0;
    while i < |all|
      invariant 0 <= i <= |all|
      invariant books == DiscountAll(all[..i])
    {
      DiscountAllSnoc(all, i);
      var book := all[i];
      if book.price > DiscountThreshold {
        book := SetDiscountApplied(book, true);
        book := SetDiscountedPrice(book, book.price * DiscountFactor);
      }
      books := books + [book];
      i := i + 1;
    }
    assert all[..i] == all;
  }

  /** The filtering loop of `searchBooks`. */
  method MatchingBooks(allBooks: seq<Book>, query: string) returns (results: seq<Book>)
    ensures results == SearchResults(allBooks, query)
  {
    results := [];
    var i := 0;
    while i < |allBooks|
      invariant 0 <= i <= |allBooks|
      invariant results == Filter(allBooks[..i], MatchingQuery(query))
    {
      FilterSnoc(allBooks, MatchingQuery(query), i);
      if BookMatches(allBooks[i], query) {
        results := results + [allBooks[i]];
      }
      i := i + 1;
    }
    assert allBooks[..i] == allBooks;
  }

  /** The counting loop of `getSalesReport`. */
  method CountAuthors(books: seq<Book>) returns (authorCounts: map<Option<string>, nat>)
    ensures authorCounts == AuthorCounts(books)
  {
    authorCounts := map[];
    var i := 0;
    while i < |books|
      invariant 0 <= i <= |books|
      invariant authorCounts == AuthorCounts(books[..i])
    {
      AuthorCountsSnoc(books, i);
      var author := books[i].author;
      authorCounts := authorCounts[author := (if author in authorCounts then authorCounts[author] else 0) + 1];
      i := i + 1;
    }
    assert books[..i] == books;
  }

  // ----------------------------------------------------------- controller

  /** The controller object and the service it holds. */
  class BookController {
    const bookService: BookService

    ghost predicate Valid()
      reads this, bookService, bookService.bookRepository
    {
      bookService.Valid()
    }

    ghost function State(): Store
      reads this, bookService, bookService.bookRepository, bookService.authorRepository
    {
      bookService.State()
    }

    constructor (service: BookService)
      requires service.Valid()
      ensures Valid() && bookService == service
    {
      bookService := service;
    }

    /** `getAllBooks`. */
    method GetAllBooks() returns (books: seq<Book>)
      requires Valid()
      modifies bookService
      ensures Valid()
      ensures State() == GetAllBooksEffect(old(State())).st
      ensures books == GetAllBooksEffect(old(State())).result
    {
      var all := bookService.FindAllBooks();
      books := DiscountBooks(all);
    }

    /** `getBookById`. */
    method GetBookById(id: int) returns (r: Result<Book>)
      requires Valid()
      modifies bookService.bookRepository
      ensures Valid()
      ensures State() == GetBookByIdEffect(old(State()), id).st
      ensures r == GetBookByIdEffect(old(State()), id).result
    {
      var book := bookService.FindBookById(Some(id));
      if book.None? {
        return Failure(Runtime("Book not found with id: " + LongToString(id)));
      }
      bookService.bookRepository.IncrementViewCount(id);
      r := Success(book.value);
    }

    /** `createBook`, with the two clock readings it takes as parameters. */
    method CreateBook(book: Book, isbnTime: nat, codeTime: nat) returns (r: Result<Book>)
      requires Valid()
      modifies bookService, bookService.bookRepository, bookService.authorRepository
      ensures Valid()
      ensures State() == CreateBookEffect(old(State()), book, isbnTime, codeTime).st
      ensures r == CreateBookEffect(old(State()), book, isbnTime, codeTime).result
    {
      if MissingText(book.title) {
        return Failure(IllegalArgument("Title cannot be empty"));
      }
      if book.price <= 0.0 {
        return Failure(IllegalArgument("Price must be positive"));
      }
      var b := SetIsbn(book, Some(IsbnFor(isbnTime)));
      r := bookService.SaveBook(Some(b), codeTime);
    }

    /** `updateBook`: the existing book is looked up, the body's fields
        copied onto it, and the result handed to the service. */
    method UpdateBook(id: int, patch: Book) returns (r: Result<Book>)
      requires Valid()
      modifies bookService, bookService.bookRepository
      ensures Valid()
      ensures State() == UpdateBookByIdEffect(old(State()), id, patch).st
      ensures r == UpdateBookByIdEffect(old(State()), id, patch).result
    {
      var existing := bookService.FindBookById(Some(id));
      if existing.None? {
        return Failure(Runtime("Book not found"));
      }
      var book := existing.value;
      if patch.title.Some? {
        book := SetTitle(book, patch.title);
      }
      if patch.author.Some? {
        book := SetAuthor(book, patch.author);
      }
      if patch.price > 0.0 {
        book := SetPrice(book, patch.price);
      }
      assert book == MergeUpdate(existing.value, patch);
      r := bookService.UpdateBook(Some(book));
    }

    /** `deleteBook`. */
    method DeleteBook(id: int) returns (r: Outcome)
      requires Valid()
      modifies bookService, bookService.bookRepository, bookService.authorRepository
      ensures Valid()
      ensures State() == DeleteBookByIdEffect(old(State()), id).st
      ensures r == DeleteBookByIdEffect(old(State()), id).result
    {
      var book := bookService.FindBookById(Some(id));
      if book.None? {
        return Fail(Runtime("Book not found"));
      }
      bookService.DeleteBook(Some(id));
      r := Pass;
    }

    /** `searchBooks`. */
    method SearchBooks(query: string) returns (results: seq<Book>)
      requires Valid()
      modifies bookService
      ensures Valid()
      ensures State() == SearchBooksEffect(old(State()), query).st
      ensures results == SearchBooksEffect(old(State()), query).result
    {
      var allBooks := bookService.FindAllBooks();
      results := MatchingBooks(allBooks, query);
    }

    /** `getSalesReport`: `totalBooks` and the author counts. */
    method GetSalesReport() returns (report: SalesReport)
      requires Valid()
      modifies bookService
      ensures Valid()
      ensures State() == SalesReportEffect(old(State())).st
      ensures report == SalesReportEffect(old(State())).result
    {
      var books := bookService.FindAllBooks();
      var authorCounts := CountAuthors(books);
      report := SalesReport(|books|, authorCounts);
    }
  }
}
