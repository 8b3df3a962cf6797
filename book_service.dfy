/** BookService: validation, internal codes, enrichment, the recommendation
    index, and the find / save / update / delete workflow over the store the
    two repositories, the inventory table, the recommendation file and the
    book cache make up together. */
module Service {
  import opened Base
  import opened Text
  import opened Books
  import opened BookStore
  import opened AuthorLedger
  import opened Lists

  // ----------------------------------------------------------- validation

  /** A title or author that is null, or empty once trimmed. */
  predicate MissingText(s: Option<string>) {
    s.None? || IsBlank(s.value)
  }

  /** `validateBook`: the checks run in order and the first one that fails
      decides the message; a book passing all four is accepted. */
  function ValidateBook(book: Option<Book>): (r: Outcome)
    ensures r == Pass <==>
      book.Some? && !MissingText(book.value.title) && !MissingText(book.value.author)
      && book.value.price > 0.0
    ensures book.None? ==> r == Fail(IllegalArgument("Book cannot be null"))
    ensures book.Some? && MissingText(book.value.title) ==>
      r == Fail(IllegalArgument("Title is required"))
    ensures book.Some? && !MissingText(book.value.title) && MissingText(book.value.author) ==>
      r == Fail(IllegalArgument("Author is required"))
    ensures (book.Some? && !MissingText(book.value.title) && !MissingText(book.value.author)
             && book.value.price <= 0.0) ==>
      r == Fail(IllegalArgument("Price must be positive"))
  {
    if book.None? then Fail(IllegalArgument("Book cannot be null"))
    else if MissingText(book.value.title) then Fail(IllegalArgument("Title is required"))
    else if MissingText(book.value.author) then Fail(IllegalArgument("Author is required"))
    else if book.value.price <= 0.0 then Fail(IllegalArgument("Price must be positive"))
    else Pass
  }

  /** An accepted book has a title and an author each holding at least one
      character that trim keeps. */
  lemma ValidatedHasVisibleText(book: Book)
    requires ValidateBook(Some(book)) == Pass
    ensures exists i :: 0 <= i < |book.title.value| && !IsTrimmed(book.title.value[i])
    ensures exists i :: 0 <= i < |book.author.value| && !IsTrimmed(book.author.value[i])
  {
    BlankIffAllTrimmed(book.title.value);
    BlankIffAllTrimmed(book.author.value);
  }

  // -------------------------------------------------------- internal code

  /** The clock reading is reduced modulo this before it is appended. */
  const CodeModulus: nat := 10000

  /** `generateInternalCode`: the first two characters of the author, then
      of the title, both upper-cased, then the clock reading `now` modulo
      10000 in decimal. `substring(0, 2)` throws on a null or a one-character
      string; the author is read first. */
  function GenerateInternalCode(book: Book, now: nat): (r: Result<string>)
    ensures r.Success? <==>
      book.author.Some? && |book.author.value| >= 2 && book.title.Some? && |book.title.value| >= 2
    ensures book.author.None? ==> r == Failure(NullPointer)
    ensures book.author.Some? && |book.author.value| < 2 ==> r == Failure(IndexOutOfBounds)
    ensures book.author.Some? && |book.author.value| >= 2 && book.title.None? ==>
      r == Failure(NullPointer)
    ensures (book.author.Some? && |book.author.value| >= 2 && book.title.Some?
             && |book.title.value| < 2) ==> r == Failure(IndexOutOfBounds)
    ensures r.Success? ==> 5 <= |r.value| <= 8
  {
    if book.author.None? then Failure(NullPointer)
    else if |book.author.value| < 2 then Failure(IndexOutOfBounds)
    else if book.title.None? then Failure(NullPointer)
    else if |book.title.value| < 2 then Failure(IndexOutOfBounds)
    else
      FourDigitsBelow10000(now % CodeModulus);
      Success(ToUpper(book.author.value[..2]) + ToUpper(book.title.value[..2])
              + NatToDecimal(now % CodeModulus))
  }

  /** A generated code splits into the upper-cased author prefix, the
      upper-cased title prefix and a decimal number below 10000 that reads
      back as the clock reading modulo 10000. */
  lemma InternalCodeParts(book: Book, now: nat)
    requires GenerateInternalCode(book, now).Success?
    ensures var code := GenerateInternalCode(book, now).value;
      code[..2] == ToUpper(book.author.value[..2])
      && code[2..4] == ToUpper(book.title.value[..2])
      && (forall i :: 0 <= i < 4 ==> !IsAsciiLower(code[i]))
      && AllDigits(code[4..])
      && DecimalValue(code[4..]) == now % CodeModulus < CodeModulus
  {
    var code := GenerateInternalCode(book, now).value;
    var digits := NatToDecimal(now % CodeModulus);
    assert code == ToUpper(book.author.value[..2]) + ToUpper(book.title.value[..2]) + digits;
    assert code[4..] == digits;
    DecimalRoundTrip(now % CodeModulus);
  }

  // ----------------------------------------------------------- enrichment

  const FetchedGenre := "Fiction"
  const FetchedDescription := "A fascinating book about..."

  /** `enrichBookData`: genre and description take the values the
      simulated external lookups return; nothing else changes. */
  function EnrichBookData(book: Book): (r: Book)
    ensures r.genre == Some(FetchedGenre) && r.description == Some(FetchedDescription)
    ensures r.(genre := book.genre, description := book.description) == book
  {
    SetDescription(SetGenre(book, Some(FetchedGenre)), Some(FetchedDescription))
  }

  /** Every book of the list enriched, in place and in order. */
  function EnrichAll(books: seq<Book>): (r: seq<Book>)
    ensures |r| == |books|
    ensures forall i :: 0 <= i < |books| ==> r[i] == EnrichBookData(books[i])
  {
    if books == [] then []
    else EnrichAll(books[..|books| - 1]) + [EnrichBookData(books[|books| - 1])]
  }

  /** One more iteration of the enrichment loop. */
  lemma EnrichAllSnoc(books: seq<Book>, i: int)
    requires 0 <= i < |books|
    ensures EnrichAll(books[..i + 1]) == EnrichAll(books[..i]) + [EnrichBookData(books[i])]
  {
    assert books[..i + 1][..i] == books[..i];
  }

  // -------------------------------------------------------- similar books

  /** At most this many similar books are recorded. */
  const MaxSimilar: nat := 3

  /** The test of `findSimilarBooks`: another id, the same author. */
  predicate IsSimilar(other: Book, book: Book) {
    other.id != book.id && other.author == book.author
  }

  function SimilarTo(book: Book): Book -> bool {
    other => IsSimilar(other, book)
  }

  /** `findSimilarBooks` over a listing: the similar books in listing
      order, cut to the first three. */
  function SimilarBooks(listing: seq<Book>, book: Book): (r: seq<Book>)
    ensures |r| <= MaxSimilar
    ensures forall i :: 0 <= i < |r| ==> IsSimilar(r[i], book)
  {
    var similar := Filter(listing, SimilarTo(book));
    similar[..if |similar| < MaxSimilar then |similar| else MaxSimilar]
  }

  /** The similar books come from the listing and keep its order. */
  lemma SimilarBooksInListingOrder(listing: seq<Book>, book: Book)
    ensures Subsequence(SimilarBooks(listing, book), listing)
    ensures forall i :: 0 <= i < |SimilarBooks(listing, book)| ==> SimilarBooks(listing, book)[i] in listing
  {
    var similar := Filter(listing, SimilarTo(book));
    FilterSubsequence(listing, SimilarTo(book));
    SubsequencePrefix(similar, listing, |SimilarBooks(listing, book)|);
    forall i | 0 <= i < |SimilarBooks(listing, book)|
      ensures SimilarBooks(listing, book)[i] in listing
    {
      FilterMembership(listing, SimilarTo(book), similar[i]);
    }
  }

  /** The selection is what the listing's loop has found when it stops at
      some point: all the similar books of a prefix of the listing, and as
      many as there are, up to three. */
  lemma SimilarBooksFirstFound(listing: seq<Book>, book: Book)
    ensures exists k :: 0 <= k <= |listing| && SimilarBooks(listing, book) == Filter(listing[..k], SimilarTo(book))
    ensures var n := |Filter(listing, SimilarTo(book))|;
      |SimilarBooks(listing, book)| == if n < MaxSimilar then n else MaxSimilar
  {
    var similar := Filter(listing, SimilarTo(book));
    FilterPrefix(listing, SimilarTo(book), |SimilarBooks(listing, book)|);
  }

  /** In a listing of distinct ids, a similar book listed before a selected
      one is selected too: the three kept are the first three found. */
  lemma SimilarBooksDownwardClosed(listing: seq<Book>, book: Book, i: int, j: int)
    requires forall a, b :: 0 <= a < b < |listing| ==> listing[a].id != listing[b].id
    requires 0 <= i < j < |listing| && IsSimilar(listing[i], book)
    requires listing[j] in SimilarBooks(listing, book)
    ensures listing[i] in SimilarBooks(listing, book)
  {
    SimilarBooksFirstFound(listing, book);
    var k :| 0 <= k <= |listing| && SimilarBooks(listing, book) == Filter(listing[..k], SimilarTo(book));
    FilterMembership(listing[..k], SimilarTo(book), listing[j]);
    var j' :| 0 <= j' < k && listing[..k][j'] == listing[j];
    assert listing[j'].id == listing[j].id;
    assert j' == j;
    assert listing[..k][i] == listing[i];
    FilterMembership(listing[..k], SimilarTo(book), listing[i]);
  }

  /** When fewer than three are returned, none was cut: every similar book
      of the listing is among them. */
  lemma SimilarBooksAllWhenFew(listing: seq<Book>, book: Book, other: Book)
    requires |SimilarBooks(listing, book)| < MaxSimilar
    requires other in listing && IsSimilar(other, book)
    ensures other in SimilarBooks(listing, book)
  {
    var similar := Filter(listing, SimilarTo(book));
    FilterMembership(listing, SimilarTo(book), other);
    assert SimilarBooks(listing, book) == similar;
  }

  // ------------------------------------------------- recommendation index

  /** The prefix `book.getId() + ":"` that marks a book's line: the id's
      rendering, then the only colon. */
  function RecommendationKey(id: Option<int>): (r: string)
    ensures |r| >= 1 && r[|r| - 1] == ':' && ':' !in r[..|r| - 1]
  {
    var r := NullableLongToString(id) + ":";
    assert r[..|r| - 1] == NullableLongToString(id);
    r
  }

  /** Before its colon, a key reads back as the id it was made from. */
  lemma RecommendationKeyReadsBack(id: Option<int>)
    ensures var key := RecommendationKey(id);
      ParseNullableLong(key[..|key| - 1]) == id
  {
    var key := RecommendationKey(id);
    assert key[..|key| - 1] == NullableLongToString(id);
    NullableLongRoundTrip(id);
  }

  /** `similar.getId() + ","` for each similar book, in order; the text
      ends with a comma. */
  function IdList(books: seq<Book>): (r: string)
    ensures |r| >= 2 * |books|
    ensures r != [] ==> r[|r| - 1] == ','
  {
    if books == [] then ""
    else IdList(books[..|books| - 1]) + NullableLongToString(books[|books| - 1].id) + ","
  }

  /** One more iteration of the loop writing the similar ids. */
  lemma IdListSnoc(books: seq<Book>, i: int)
    requires 0 <= i < |books|
    ensures IdList(books[..i + 1]) == IdList(books[..i]) + NullableLongToString(books[i].id) + ","
  {
    assert books[..i + 1][..i] == books[..i];
  }

  /** The ids of the books, in order. */
  function IdsOf(books: seq<Book>): (r: seq<Option<int>>)
    ensures |r| == |books|
    ensures forall i :: 0 <= i < |books| ==> r[i] == books[i].id
  {
    if books == [] then [] else IdsOf(books[..|books| - 1]) + [books[|books| - 1].id]
  }

  /** Reads the text after a line's key back, as the fields between commas,
      each read as a nullable long; every field must be ended by a comma, so
      there is None when text follows the last comma. */
  function ReadIdList(s: string): Option<seq<Option<int>>>
    decreases |s|
  {
    if s == [] then Some([])
    else if s[|s| - 1] != ',' then None
    else
      var k := LastIndexOf(s[..|s| - 1], ',');
      var front := ReadIdList(s[..k + 1]);
      if front.None? then None else Some(front.value + [ParseNullableLong(s[k + 1..|s| - 1])])
  }

  /** Reading a text that ends with one more comma-ended field reads that
      field last. */
  lemma ReadIdListSnoc(front: string, field: string)
    requires front == [] || front[|front| - 1] == ','
    requires ',' !in field
    ensures var r := ReadIdList(front);
      ReadIdList(front + field + ",") == if r.None? then None else Some(r.value + [ParseNullableLong(field)])
  {
    var s := front + field + ",";
    assert s[..|s| - 1] == front + field;
    LastIndexOfAfter(front, field, ',');
    assert s[..|front|] == front;
    assert s[|front|..|s| - 1] == field;
  }

  /** Reading back the written list gives the ids of the books, in order. */
  lemma {:induction false} IdListReadsBack(books: seq<Book>)
    ensures ReadIdList(IdList(books)) == Some(IdsOf(books))
    decreases |books|
  {
    if books != [] {
      var init := books[..|books| - 1];
      var field := NullableLongToString(books[|books| - 1].id);
      assert IdList(books) == IdList(init) + field + ",";
      ReadIdListSnoc(IdList(init), field);
      IdListReadsBack(init);
      NullableLongRoundTrip(books[|books| - 1].id);
    }
  }

  /** The line `updateRecommendations` appends for a book. */
  function RecommendationLine(book: Book, similar: seq<Book>): (r: string)
    ensures StartsWith(r, RecommendationKey(book.id))
  {
    RecommendationKey(book.id) + IdList(similar)
  }

  /** After its key, a book's line reads back as the ids of its similar
      books, in order, each ended by a comma and nothing after the last. */
  lemma RecommendationLineReadsBack(book: Book, similar: seq<Book>)
    ensures var line := RecommendationLine(book, similar);
      ReadIdList(line[|RecommendationKey(book.id)|..]) == Some(IdsOf(similar))
  {
    var key := RecommendationKey(book.id);
    assert RecommendationLine(book, similar)[|key|..] == IdList(similar);
    IdListReadsBack(similar);
  }

  /** A book's line carries no other book's key. */
  lemma LineHasOnlyItsOwnKey(book: Book, similar: seq<Book>, id: Option<int>)
    requires StartsWith(RecommendationLine(book, similar), RecommendationKey(id))
    ensures id == book.id
  {
    KeyPrefixDetermined(NullableLongToString(id), NullableLongToString(book.id), IdList(similar));
    NullableLongRoundTrip(id);
    NullableLongRoundTrip(book.id);
  }

  function NotKeyed(key: string): string -> bool {
    line => !StartsWith(line, key)
  }

  /** `removeFromRecommendations` on the lines of the file: the lines not
      starting with the key, in their order. */
  function KeptLines(lines: seq<string>, key: string): (r: seq<string>)
    ensures |r| <= |lines|
    ensures forall i :: 0 <= i < |r| ==> !StartsWith(r[i], key)
  {
    Filter(lines, NotKeyed(key))
  }

  /** Exactly the lines without the key are kept, in their original order. */
  lemma KeptLinesExact(lines: seq<string>, key: string, line: string)
    ensures line in KeptLines(lines, key) <==> line in lines && !StartsWith(line, key)
    ensures multiset(KeptLines(lines, key))[line] == if StartsWith(line, key) then 0 else multiset(lines)[line]
    ensures Subsequence(KeptLines(lines, key), lines)
  {
    FilterMembership(lines, NotKeyed(key), line);
    FilterMultiplicity(lines, NotKeyed(key), line);
    FilterSubsequence(lines, NotKeyed(key));
  }

  /** Removing one book's lines keeps the line of every other book. */
  lemma OtherBooksLinesKept(lines: seq<string>, book: Book, other: Book, similar: seq<Book>)
    requires RecommendationLine(other, similar) in lines && other.id != book.id
    ensures RecommendationLine(other, similar) in KeptLines(lines, RecommendationKey(book.id))
  {
    var line := RecommendationLine(other, similar);
    if StartsWith(line, RecommendationKey(book.id)) {
      LineHasOnlyItsOwnKey(other, similar, book.id);
    }
    KeptLinesExact(lines, RecommendationKey(book.id), line);
  }

  // ---------------------------------------------------------------- store

  /** One row of the inventory table. */
  datatype InventoryRow = InventoryRow(bookId: int, quantity: int)

  /** The quantity `updateInventory` stocks a new book with. */
  const InitialStock := 10

  /** Everything the workflow reads and writes: the books table with its
      AUTO_INCREMENT counter, the authors table, the inventory table, the
      lines of the recommendation file and whether the cache file exists. */
  datatype Store = Store(
    books: map<int, Row>,
    nextId: int,
    authors: seq<AuthorRow>,
    inventory: seq<InventoryRow>,
    recommendations: seq<string>,
    cachePresent: bool)

  /** The counter is ahead of every stored id. */
  predicate StoreValid(st: Store) {
    st.nextId >= 1 && forall id :: id in st.books ==> id < st.nextId
  }

  /** The store after an operation, and what the operation returned. */
  datatype Step<T> = Step(st: Store, result: T)

  // -------------------------------------------------------------- effects

  /** `findAllBooks`: writes the cache, then returns the listing enriched. */
  function FindAllBooksEffect(st: Store): (s: Step<seq<Book>>)
    ensures StoreValid(st) ==> StoreValid(s.st)
    ensures s.st == st.(cachePresent := true)
    ensures |s.result| == |st.books|
    ensures forall i :: 0 <= i < |s.result| ==> s.result[i] == EnrichBookData(Listing(st.books)[i])
  {
    Step(st.(cachePresent := true), EnrichAll(Listing(st.books)))
  }

  /** `findBookById`: nothing for a null or non-positive id or a missing
      row; otherwise the enriched book as read, while the stored view
      count goes up by one. */
  function FindBookByIdEffect(st: Store, id: Option<int>): (s: Step<Option<Book>>)
    ensures StoreValid(st) ==> StoreValid(s.st)
    ensures s.st.books.Keys == st.books.Keys && s.st.nextId == st.nextId
  {
    if id.None? || id.value <= 0 || id.value !in st.books then Step(st, None)
    else
      Step(st.(books := ViewCountIncremented(st.books, id.value)),
           Some(EnrichBookData(MapResultSetToBook(id.value, st.books[id.value]))))
  }

  /** The row a successful `save` inserts. */
  function InsertedRow(book: Book): Row
    requires book.title.Some? && book.author.Some?
  {
    Row(book.title.value, book.author.value, book.price, book.isbn, book.internalCode, 0)
  }

  /** The authors table after `saveBook`'s check-then-insert. */
  function EnsureAuthor(authors: seq<AuthorRow>, name: string): (r: seq<AuthorRow>)
    ensures HasAuthor(r, name)
  {
    if HasAuthor(authors, name) then authors
    else
      var r := authors + [AuthorRow(name, 1)];
      assert r[|authors|].name == name;
      r
  }

  /** `saveBook`: validation first; then the author row; then the internal
      code, which may throw after the author row was written; then the
      insert, the inventory row and the recommendation line. */
  function SaveBookEffect(st: Store, book: Option<Book>, now: nat): (s: Step<Result<Book>>)
    ensures StoreValid(st) ==> StoreValid(s.st)
  {
    match ValidateBook(book)
    case Fail(e) => Step(st, Failure(e))
    case Pass =>
      var b := book.value;
      var st1 := st.(authors := EnsureAuthor(st.authors, b.author.value));
      match GenerateInternalCode(b, now)
      case Failure(e) => Step(st1, Failure(e))
      case Success(code) =>
        var inserted := InsertBookEffect(st1, SetInternalCode(b, Some(code)));
        Step(inserted.st, Success(inserted.result))
  }

  /** The part of `saveBook` after the internal code is set: the insert
      under the next id, the inventory row, and the recommendation line,
      whose similar books are looked up with the new row already stored. */
  function InsertBookEffect(st: Store, book: Book): (s: Step<Book>)
    requires book.title.Some? && book.author.Some?
    ensures StoreValid(st) ==> StoreValid(s.st)
    ensures s.result == SetId(book, Some(st.nextId))
  {
    var id := st.nextId;
    var saved := SetId(book, Some(id));
    var books := st.books[id := InsertedRow(book)];
    var line := RecommendationLine(saved, SimilarBooks(Listing(books), saved));
    Step(st.(books := books, nextId := id + 1,
             inventory := st.inventory + [InventoryRow(id, InitialStock)],
             recommendations := st.recommendations + [line]),
         saved)
  }

  /** The message of `update`'s zero-rows check. */
  const UpdateFailed := "Updating book failed, no rows affected."

  /** `updateBook`: validation, then the repository update of title,
      author and price, then the cache is dropped. */
  function UpdateBookEffect(st: Store, book: Option<Book>): (s: Step<Result<Book>>)
    ensures StoreValid(st) ==> StoreValid(s.st)
    ensures s.st.books.Keys == st.books.Keys
  {
    match ValidateBook(book)
    case Fail(e) => Step(st, Failure(e))
    case Pass =>
      var b := book.value;
      if b.id.None? then Step(st, Failure(NullPointer))
      else if b.id.value !in st.books then Step(st, Failure(Sql(UpdateFailed)))
      else
        var id := b.id.value;
        var row := st.books[id].(title := b.title.value, author := b.author.value, price := b.price);
        Step(st.(books := st.books[id := row], cachePresent := false), Success(b))
  }

  /** `deleteBook`: looks the book up (which counts a view), and when it is
      there decrements its author, deletes the row, drops the cache and
      removes the book's recommendation lines. */
  function DeleteBookEffect(st: Store, id: Option<int>): (r: Store)
    ensures StoreValid(st) ==> StoreValid(r)
  {
    var found := FindBookByIdEffect(st, id);
    if found.result.None? then found.st
    else
      var book := found.result.value;
      var st1 := found.st;
      st1.(authors := Decremented(st1.authors, book.author.value),
           books := st1.books - {id.value},
           cachePresent := false,
           recommendations := KeptLines(st1.recommendations, RecommendationKey(book.id)))
  }

  // ------------------------------------------------ workflow properties

  /** A book that fails validation is neither inserted nor does it create
      an author row: validation runs before anything is written. */
  lemma SaveRejectedChangesNothing(st: Store, book: Option<Book>, now: nat)
    requires ValidateBook(book).Fail?
    ensures SaveBookEffect(st, book, now) == Step(st, Failure(ValidateBook(book).error))
  {
  }

  /** Once validation passes, the author always has a row afterwards,
      whether or not the rest of the save succeeds. */
  lemma SaveEnsuresAuthor(st: Store, book: Book, now: nat)
    requires ValidateBook(Some(book)) == Pass
    ensures SaveBookEffect(st, Some(book), now).st.authors == EnsureAuthor(st.authors, book.author.value)
    ensures HasAuthor(SaveBookEffect(st, Some(book), now).st.authors, book.author.value)
  {
  }

  /** A save that passes validation and code generation is the insert of
      the coded book into the store with the author ensured. */
  lemma SaveSucceeds(st: Store, book: Book, now: nat)
    requires ValidateBook(Some(book)) == Pass && GenerateInternalCode(book, now).Success?
    ensures var coded := SetInternalCode(book, Some(GenerateInternalCode(book, now).value));
      var inserted := InsertBookEffect(st.(authors := EnsureAuthor(st.authors, book.author.value)), coded);
      SaveBookEffect(st, Some(book), now) == Step(inserted.st, Success(inserted.result))
  {
  }

  /** An author already in the table keeps its rows and counts: no row is
      added and no count goes up. */
  lemma SaveKnownAuthorKeepsLedger(st: Store, book: Book, now: nat)
    requires ValidateBook(Some(book)) == Pass && HasAuthor(st.authors, book.author.value)
    ensures SaveBookEffect(st, Some(book), now).st.authors == st.authors
  {
    SaveEnsuresAuthor(st, book, now);
  }

  /** Ensuring an absent author appends its one row. */
  lemma EnsureNewAuthor(authors: seq<AuthorRow>, name: string, other: string)
    requires !HasAuthor(authors, name) && other != name
    ensures var r := EnsureAuthor(authors, name);
      r == authors + [AuthorRow(name, 1)]
      && CountNamed(r, name) == 1
      && RowsNamed(r, other) == RowsNamed(authors, other)
  {
    var r := authors + [AuthorRow(name, 1)];
    CountPositiveIff(authors, name);
    assert r[..|r| - 1] == authors;
    CreateKeepsOtherNames(authors, name, other);
  }

  /** A new author gets exactly one row, with count 1, and the rows of
      every other name stay as they were. */
  lemma SaveNewAuthorAddsOneRow(st: Store, book: Book, now: nat, other: string)
    requires ValidateBook(Some(book)) == Pass && !HasAuthor(st.authors, book.author.value)
    requires other != book.author.value
    ensures var authors := SaveBookEffect(st, Some(book), now).st.authors;
      authors == st.authors + [AuthorRow(book.author.value, 1)]
      && CountNamed(authors, book.author.value) == 1
      && RowsNamed(authors, other) == RowsNamed(st.authors, other)
  {
    SaveEnsuresAuthor(st, book, now);
    EnsureNewAuthor(st.authors, book.author.value, other);
  }

  /** A one-character author or title passes validation but makes the code
      generation throw after the author row was written: the book is not
      stored, yet a new author's row stays behind. */
  lemma SaveShortNameLeavesAuthorRow(st: Store, book: Book, now: nat)
    requires ValidateBook(Some(book)) == Pass
    requires |book.author.value| < 2 || |book.title.value| < 2
    ensures var s := SaveBookEffect(st, Some(book), now);
      s.result == Failure(IndexOutOfBounds)
      && s.st == st.(authors := EnsureAuthor(st.authors, book.author.value))
  {
  }

  /** A successful save adds one row, under the next id, and advances the
      counter past it. */
  lemma SaveAddsRow(st: Store, book: Book, now: nat)
    requires StoreValid(st)
    requires ValidateBook(Some(book)) == Pass && GenerateInternalCode(book, now).Success?
    ensures var s := SaveBookEffect(st, Some(book), now);
      var id := st.nextId;
      id !in st.books && id > 0 && s.st.nextId == id + 1 && StoreValid(s.st)
      && s.st.books == st.books[id := Row(book.title.value, book.author.value, book.price,
                                          book.isbn, Some(GenerateInternalCode(book, now).value), 0)]
  {
    SaveSucceeds(st, book, now);
  }

  /** A successful save stores the book under the next id with view count
      0 and the generated code, leaves every earlier row alone, puts the
      book in the listing, stocks it, and indexes it by its own key. */
  lemma SaveStoresBook(st: Store, book: Book, now: nat)
    requires StoreValid(st)
    requires ValidateBook(Some(book)) == Pass && GenerateInternalCode(book, now).Success?
    ensures var s := SaveBookEffect(st, Some(book), now);
      var id := st.nextId;
      var code := GenerateInternalCode(book, now).value;
      id !in st.books && id > 0
      && s.result == Success(book.(id := Some(id), internalCode := Some(code)))
      && s.st.books == st.books[id := Row(book.title.value, book.author.value, book.price,
                                          book.isbn, Some(code), 0)]
      && (exists i :: 0 <= i < |Listing(s.st.books)| && Listing(s.st.books)[i].id == Some(id))
      && s.st.inventory == st.inventory + [InventoryRow(id, InitialStock)]
      && |s.st.recommendations| == |st.recommendations| + 1
      && s.st.recommendations[..|st.recommendations|] == st.recommendations
      && StartsWith(s.st.recommendations[|st.recommendations|], RecommendationKey(Some(id)))
  {
    SaveSucceeds(st, book, now);
    var code := GenerateInternalCode(book, now).value;
    var st1 := st.(authors := EnsureAuthor(st.authors, book.author.value));
    var inserted := InsertBookEffect(st1, SetInternalCode(book, Some(code)));
    ListingComplete(inserted.st.books, st.nextId);
    assert inserted.st.recommendations[..|st.recommendations|] == st.recommendations;
  }

  /** The books a recommendation line names are stored books by the same
      author, other than the book itself. */
  lemma SimilarBooksStored(rows: map<int, Row>, book: Book, j: int)
    requires book.author.Some?
    requires 0 <= j < |SimilarBooks(Listing(rows), book)|
    ensures var other := SimilarBooks(Listing(rows), book)[j];
      other.id.Some? && other.id.value in rows && other.id != book.id
      && rows[other.id.value].author == book.author.value
  {
    var listing := Listing(rows);
    var similar := SimilarBooks(listing, book);
    SimilarBooksInListingOrder(listing, book);
    var i :| 0 <= i < |listing| && listing[i] == similar[j];
    ListingFromRows(rows, i);
  }

  /** Reading back a saved book returns what was saved, with view count 0
      and the enrichment; the book as sent had no genre, description or
      discount, as a freshly read one has none. */
  lemma SaveThenFind(st: Store, book: Book, now: nat)
    requires StoreValid(st)
    requires ValidateBook(Some(book)) == Pass && GenerateInternalCode(book, now).Success?
    requires book.genre.None? && book.description.None?
    requires !book.discountApplied && book.discountedPrice == 0.0
    ensures var s := SaveBookEffect(st, Some(book), now);
      var saved := s.result.value;
      FindBookByIdEffect(s.st, saved.id).result == Some(EnrichBookData(saved.(viewCount := 0)))
  {
    SaveStoresBook(st, book, now);
  }

  /** A null or non-positive id finds nothing and touches nothing. */
  lemma FindBadIdChangesNothing(st: Store, id: Option<int>)
    requires id.None? || id.value <= 0
    ensures FindBookByIdEffect(st, id) == Step(st, None)
  {
  }

  /** An id with no row finds nothing and touches nothing. */
  lemma FindMissingChangesNothing(st: Store, id: int)
    requires id !in st.books
    ensures FindBookByIdEffect(st, Some(id)) == Step(st, None)
  {
  }

  /** Finding a stored book returns it as it was read, enriched, and adds
      exactly one to its stored view count; nothing else changes. */
  lemma FindCountsOneView(st: Store, id: int)
    requires id > 0 && id in st.books
    ensures var s := FindBookByIdEffect(st, Some(id));
      s.result == Some(EnrichBookData(MapResultSetToBook(id, st.books[id])))
      && s.result.value.viewCount == st.books[id].viewCount
      && s.st.books[id] == st.books[id].(viewCount := st.books[id].viewCount + 1)
      && (forall k :: k in st.books && k != id ==> s.st.books[k] == st.books[k])
      && s.st == st.(books := s.st.books)
  {
  }

  /** A successful update writes title, author and price of the one row;
      its isbn, internal code and view count, and all other rows, stay;
      the cache is dropped. */
  lemma UpdateWritesThreeColumns(st: Store, book: Book)
    requires UpdateBookEffect(st, Some(book)).result.Success?
    ensures var s := UpdateBookEffect(st, Some(book));
      var id := book.id.value;
      id in st.books && s.result == Success(book)
      && s.st.books[id].title == book.title.value
      && s.st.books[id].author == book.author.value
      && s.st.books[id].price == book.price
      && s.st.books[id].isbn == st.books[id].isbn
      && s.st.books[id].internalCode == st.books[id].internalCode
      && s.st.books[id].viewCount == st.books[id].viewCount
      && (forall k :: k in st.books && k != id ==> s.st.books[k] == st.books[k])
      && s.st == st.(books := s.st.books, cachePresent := false)
  {
  }

  /** A failed update, whatever the reason, changes nothing. */
  lemma UpdateFailureChangesNothing(st: Store, book: Option<Book>)
    requires UpdateBookEffect(st, book).result.Failure?
    ensures UpdateBookEffect(st, book).st == st
  {
  }

  /** Deleting an id that finds nothing changes nothing. */
  lemma DeleteAbsentChangesNothing(st: Store, id: Option<int>)
    requires id.None? || id.value <= 0 || id.value !in st.books
    ensures DeleteBookEffect(st, id) == st
  {
  }

  /** Deleting a stored book removes exactly its row, takes one off every
      row of its author, drops the cache and the book's recommendation
      lines; its inventory row stays. */
  lemma DeletePresent(st: Store, id: int)
    requires id > 0 && id in st.books
    ensures var r := DeleteBookEffect(st, id := Some(id));
      r.books == st.books - {id}
      && r.authors == Decremented(st.authors, st.books[id].author)
      && r.recommendations == KeptLines(st.recommendations, RecommendationKey(Some(id)))
      && !r.cachePresent && r.inventory == st.inventory && r.nextId == st.nextId
  {
    var found := FindBookByIdEffect(st, Some(id));
    assert found.st.books - {id} == st.books - {id};
  }

  /** Deleting one book keeps the recommendation line of every other book. */
  lemma DeleteKeepsOtherLines(st: Store, id: int, other: Book, similar: seq<Book>)
    requires id > 0 && id in st.books
    requires RecommendationLine(other, similar) in st.recommendations && other.id != Some(id)
    ensures RecommendationLine(other, similar) in DeleteBookEffect(st, Some(id)).recommendations
  {
    DeletePresent(st, id);
    OtherBooksLinesKept(st.recommendations, MapResultSetToBook(id, st.books[id]), other, similar);
  }

  /** Two saves of books by the same new author leave one author row, with
      count 1: the second save finds the name and writes nothing. */
  lemma TwoSavesOneAuthorRow(st: Store, first: Book, second: Book, t1: nat, t2: nat)
    requires ValidateBook(Some(first)) == Pass && ValidateBook(Some(second)) == Pass
    requires first.author == second.author && !HasAuthor(st.authors, first.author.value)
    ensures var s2 := SaveBookEffect(SaveBookEffect(st, Some(first), t1).st, Some(second), t2).st;
      s2.authors == st.authors + [AuthorRow(first.author.value, 1)]
  {
    var s1 := SaveBookEffect(st, Some(first), t1);
    SaveEnsuresAuthor(st, first, t1);
    assert s1.st.authors == st.authors + [AuthorRow(first.author.value, 1)];
    SaveKnownAuthorKeepsLedger(s1.st, second, t2);
  }

  /** Two successful saves store their books under consecutive ids. */
  lemma TwoSavesTwoRows(st: Store, first: Book, second: Book, t1: nat, t2: nat)
    requires StoreValid(st)
    requires ValidateBook(Some(first)) == Pass && ValidateBook(Some(second)) == Pass
    requires GenerateInternalCode(first, t1).Success? && GenerateInternalCode(second, t2).Success?
    ensures var s2 := SaveBookEffect(SaveBookEffect(st, Some(first), t1).st, Some(second), t2).st;
      st.nextId > 0 && st.nextId in s2.books && st.nextId + 1 in s2.books
      && s2.books[st.nextId].author == first.author.value
      && s2.books[st.nextId + 1].author == second.author.value
  {
    var s1 := SaveBookEffect(st, Some(first), t1);
    SaveAddsRow(st, first, t1);
    SaveAddsRow(s1.st, second, t2);
    var s2 := SaveBookEffect(s1.st, Some(second), t2);
    assert s2.st.books == s1.st.books[st.nextId + 1 := Row(second.title.value, second.author.value,
      second.price, second.isbn, Some(GenerateInternalCode(second, t2).value), 0)];
  }

  /** Deleting two books of an author whose one row has count 1 leaves
      that row at -1. */
  lemma TwoDeletesTwoDecrements(st: Store, prefix: seq<AuthorRow>, name: string, a: int, b: int)
    requires st.authors == prefix + [AuthorRow(name, 1)] && !HasAuthor(prefix, name)
    requires 0 < a && 0 < b && a != b && a in st.books && b in st.books
    requires st.books[a].author == name && st.books[b].author == name
    ensures DeleteBookEffect(DeleteBookEffect(st, Some(a)), Some(b)).authors
      == prefix + [AuthorRow(name, -1)]
  {
    DeletePresent(st, a);
    var d1 := DeleteBookEffect(st, Some(a));
    var once := Decremented(st.authors, name);
    assert once == prefix + [AuthorRow(name, 0)] by {
      forall i | 0 <= i < |prefix|
        ensures once[i] == prefix[i]
      {
        assert st.authors[i] == prefix[i];
        assert prefix[i].name != name;
      }
    }
    DeletePresent(d1, b);
    var twice := Decremented(once, name);
    assert twice == prefix + [AuthorRow(name, -1)] by {
      forall i | 0 <= i < |prefix|
        ensures twice[i] == prefix[i]
      {
        assert once[i] == prefix[i];
        assert prefix[i].name != name;
      }
    }
  }

  /** The count only ever tracks the first book: two books by a new author,
      both deleted, leave that author's row at -1. */
  lemma AuthorCountGoesNegative(st: Store, first: Book, second: Book, t1: nat, t2: nat)
    requires StoreValid(st)
    requires ValidateBook(Some(first)) == Pass && ValidateBook(Some(second)) == Pass
    requires GenerateInternalCode(first, t1).Success? && GenerateInternalCode(second, t2).Success?
    requires first.author == second.author && !HasAuthor(st.authors, first.author.value)
    ensures var s1 := SaveBookEffect(st, Some(first), t1);
      var s2 := SaveBookEffect(s1.st, Some(second), t2);
      var d1 := DeleteBookEffect(s2.st, Some(st.nextId));
      var d2 := DeleteBookEffect(d1, Some(st.nextId + 1));
      d2.authors == st.authors + [AuthorRow(first.author.value, -1)]
  {
    TwoSavesOneAuthorRow(st, first, second, t1, t2);
    TwoSavesTwoRows(st, first, second, t1, t2);
    var s2 := SaveBookEffect(SaveBookEffect(st, Some(first), t1).st, Some(second), t2).st;
    TwoDeletesTwoDecrements(s2, st.authors, first.author.value, st.nextId, st.nextId + 1);
  }

  // -------------------------------------------------------------- service

  /** The service object and the repositories it holds. */
  class BookService {
    const bookRepository: BookRepository
    const authorRepository: AuthorRepository
    var inventory: seq<InventoryRow>
    var recommendations: seq<string>
    var cachePresent: bool

    ghost predicate Valid()
      reads this, bookRepository
    {
      bookRepository.Valid()
    }

    /** The store as the service sees it. */
    ghost function State(): Store
      reads this, bookRepository, authorRepository
    {
      Store(bookRepository.rows, bookRepository.nextId, authorRepository.rows,
            inventory, recommendations, cachePresent)
    }

    /** The service over the two repositories, the inventory rows, the
        lines already in `recommendations.txt` and whether `book_cache.txt`
        already exists. */
    constructor (books: BookRepository, authors: AuthorRepository,
                 stock: seq<InventoryRow>, lines: seq<string>, cached: bool)
      requires books.Valid()
      ensures Valid()
      ensures bookRepository == books && authorRepository == authors
      ensures inventory == stock && recommendations == lines && cachePresent == cached
    {
      bookRepository := books;
      authorRepository := authors;
      inventory := stock;
      recommendations := lines;
      cachePresent := cached;
    }

    /** `findAllBooks`: the listing is cached, then each book enriched. */
    method FindAllBooks() returns (books: seq<Book>)
      requires Valid()
      modifies this
      ensures Valid()
      ensures State() == FindAllBooksEffect(old(State())).st
      ensures books == FindAllBooksEffect(old(State())).result
    {
      var listed := bookRepository.FindAll();
      CacheBooks(listed);
      books := [];
      var i := 0;
      while i < |listed|
        invariant 0 <= i <= |listed|
        invariant books == EnrichAll(listed[..i])
        modifies {}
      {
        EnrichAllSnoc(listed, i);
        books := books + [EnrichBookData(listed[i])];
        i := i + 1;
      }
      assert listed[..i] == listed;
    }

    /** `findBookById`. */
    method FindBookById(id: Option<int>) returns (book: Option<Book>)
      requires Valid()
      modifies bookRepository
      ensures Valid()
      ensures State() == FindBookByIdEffect(old(State()), id).st
      ensures book == FindBookByIdEffect(old(State()), id).result
    {
      if id.None? || id.value <= 0 {
        return None;
      }
      book := bookRepository.FindById(id.value);
      if book.Some? {
        book := Some(EnrichBookData(book.value));
        UpdateViewCount(book.value);
      }
    }

    /** `saveBook`. */
    method SaveBook(book: Option<Book>, now: nat) returns (r: Result<Book>)
      requires Valid()
      modifies this, bookRepository, authorRepository
      ensures Valid()
      ensures State() == SaveBookEffect(old(State()), book, now).st
      ensures r == SaveBookEffect(old(State()), book, now).result
    {
      var v := ValidateBook(book);
      if v.Fail? {
        return Failure(v.error);
      }
      var b := book.value;
      var known := authorRepository.ExistsByName(b.author.value);
      if !known {
        authorRepository.CreateAuthor(b.author.value);
      }
      ghost var st1 := State();
      assert st1 == old(State()).(authors := EnsureAuthor(old(authorRepository.rows), b.author.value));
      var code := GenerateInternalCode(b, now);
      if code.Failure? {
        return Failure(code.error);
      }
      b := SetInternalCode(b, Some(code.value));
      var saved := InsertBook(b);
      r := Success(saved);
    }

    /** The last steps of `saveBook`: the repository insert, which cannot
        fail once the book is validated, then the inventory row and the
        recommendation line for the saved book. */
    method InsertBook(b: Book) returns (saved: Book)
      requires Valid() && b.title.Some? && b.author.Some?
      modifies this, bookRepository
      ensures Valid()
      ensures State() == InsertBookEffect(old(State()), b).st
      ensures saved == InsertBookEffect(old(State()), b).result
    {
      ghost var inserted := InsertBookEffect(State(), b);
      var r := bookRepository.Save(b);
      assert r.Success? && r.value == inserted.result;
      assert bookRepository.rows == inserted.st.books;
      assert bookRepository.nextId == inserted.st.nextId;
      saved := r.value;
      UpdateInventory(saved);
      assert inventory == inserted.st.inventory;
      UpdateRecommendations(saved);
      assert recommendations == inserted.st.recommendations;
    }

    /** `updateBook`. */
    method UpdateBook(book: Option<Book>) returns (r: Result<Book>)
      requires Valid()
      modifies this, bookRepository
      ensures Valid()
      ensures State() == UpdateBookEffect(old(State()), book).st
      ensures r == UpdateBookEffect(old(State()), book).result
    {
      var v := ValidateBook(book);
      if v.Fail? {
        return Failure(v.error);
      }
      r := bookRepository.Update(book.value);
      if r.Failure? {
        return r;
      }
      ClearBookCache();
    }

    /** `deleteBook`. */
    method DeleteBook(id: Option<int>)
      requires Valid()
      modifies this, bookRepository, authorRepository
      ensures Valid()
      ensures State() == DeleteBookEffect(old(State()), id)
    {
      var book := FindBookById(id);
      if book.Some? {
        authorRepository.DecrementBookCount(book.value.author.value);
        var deleted := bookRepository.DeleteById(id.value);
        ClearBookCache();
        RemoveFromRecommendations(book.value);
      }
    }

    /** `updateViewCount`: the id is unboxed, so it must not be null. */
    method UpdateViewCount(book: Book)
      requires Valid() && book.id.Some?
      modifies bookRepository
      ensures Valid()
      ensures bookRepository.rows == ViewCountIncremented(old(bookRepository.rows), book.id.value)
      ensures bookRepository.nextId == old(bookRepository.nextId)
    {
      bookRepository.IncrementViewCount(book.id.value);
    }

    /** `cacheBooks`: the cache file now exists. */
    method CacheBooks(books: seq<Book>)
      modifies this
      ensures cachePresent
      ensures inventory == old(inventory) && recommendations == old(recommendations)
    {
      cachePresent := true;
    }

    /** `clearBookCache`: the cache file is gone. */
    method ClearBookCache()
      modifies this
      ensures !cachePresent
      ensures inventory == old(inventory) && recommendations == old(recommendations)
    {
      cachePresent := false;
    }

    /** `updateInventory`: one row stocking the book with 10 copies. */
    method UpdateInventory(book: Book)
      requires book.id.Some?
      modifies this
      ensures inventory == old(inventory) + [InventoryRow(book.id.value, InitialStock)]
      ensures recommendations == old(recommendations) && cachePresent == old(cachePresent)
    {
      inventory := inventory + [InventoryRow(book.id.value, InitialStock)];
    }

    /** `findSimilarBooks`: filters the full listing, then keeps three. */
    method FindSimilarBooks(book: Book) returns (similar: seq<Book>)
      ensures similar == SimilarBooks(Listing(bookRepository.rows), book)
    {
      var allBooks := bookRepository.FindAll();
      var found: seq<Book> := [];
      var i := 0;
      while i < |allBooks|
        invariant 0 <= i <= |allBooks|
        invariant found == Filter(allBooks[..i], SimilarTo(book))
        modifies {}
      {
        FilterSnoc(allBooks, SimilarTo(book), i);
        if IsSimilar(allBooks[i], book) {
          found := found + [allBooks[i]];
        }
        i := i + 1;
      }
      assert allBooks[..i] == allBooks;
      similar := found[..if |found| < MaxSimilar then |found| else MaxSimilar];
    }

    /** `updateRecommendations`: appends the book's id, a colon, and each
        similar id followed by a comma. */
    method UpdateRecommendations(book: Book)
      modifies this
      ensures recommendations == old(recommendations)
        + [RecommendationLine(book, SimilarBooks(Listing(bookRepository.rows), book))]
      ensures inventory == old(inventory) && cachePresent == old(cachePresent)
    {
      var similarBooks := FindSimilarBooks(book);
      var ids := "";
      var i := 0;
      while i < |similarBooks|
        invariant 0 <= i <= |similarBooks|
        invariant ids == IdList(similarBooks[..i])
        modifies {}
      {
        IdListSnoc(similarBooks, i);
        ids := ids + NullableLongToString(similarBooks[i].id) + ",";
        i := i + 1;
      }
      assert similarBooks[..i] == similarBooks;
      recommendations := recommendations + [RecommendationKey(book.id) + ids];
    }

    /** `removeFromRecommendations`: rewrites the file with the lines that
        do not start with the book's key. */
    method RemoveFromRecommendations(book: Book)
      modifies this
      ensures recommendations == KeptLines(old(recommendations), RecommendationKey(book.id))
      ensures inventory == old(inventory) && cachePresent == old(cachePresent)
    {
      var key := RecommendationKey(book.id);
      var file := recommendations;
      var lines: seq<string> := [];
      var i := 0;
      while i < |file|
        invariant 0 <= i <= |file|
        invariant lines == Filter(file[..i], NotKeyed(key))
        modifies {}
      {
        FilterSnoc(file, NotKeyed(key), i);
        if !StartsWith(file[i], key) {
          lines := lines + [file[i]];
        }
        i := i + 1;
      }
      assert file[..i] == file;
      recommendations := lines;
    }
  }
}
