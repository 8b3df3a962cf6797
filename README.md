# legacy-bookstore: the book lifecycle in Dafny

This project models the core of the legacy bookstore service: the life of a
book from `POST /api/books` to `DELETE /api/books/{id}`. It follows the
service's own layering:

- `Book` (`book.dfy`, module `Books`) is the mutable bean. It is a datatype
  whose setters return the updated record.
- `BookRepository` (`book_repository.dfy`, module `BookStore`) owns the
  `books` table and its AUTO_INCREMENT counter. `AuthorRepository`
  (`author_repository.dfy`, module `AuthorLedger`) owns the `authors`
  table. Each is a class over an in-memory table, and each method follows
  the one SQL statement that the Java method issues.
- `BookService` (`book_service.dfy`, module `Service`) adds validation,
  internal codes, the enrichment stub, the inventory row, the
  recommendation index and the book cache. It is a class holding the two
  repositories.
- `BookController` (`book_controller.dfy`, module `Controller`) adds the
  REST endpoints: the discount flags, the partial merge on PUT, search,
  the sales report, and the pre-checks and ISBN on POST.

The modules `Base`, `Lists` and `Text` hold what those need:
- `Option`/`Result`/`Outcome`, with the Java exception kinds as `Error`;
- filtering and subsequences;
- `trim`, ASCII case mapping, `startsWith`/`contains`, and the decimal
  rendering of longs.

The service's `findAllBooks`, `findBookById`, `saveBook` (with its tail
`InsertBook`), `updateBook` and `deleteBook`, and the seven controller
endpoints, each appear twice:
- as a function on a `Store` value (the two tables, the inventory rows,
  the lines of `recommendations.txt` and whether `book_cache.txt`
  exists) that returns the new store and the result;
- as a class method whose postcondition is that function applied to the
  old state.

The repository methods (`save`, `update`, `deleteById`,
`incrementViewCount`, `createAuthor`, `decrementBookCount`) and the
service's private helpers (`updateViewCount`, `cacheBooks`,
`clearBookCache`, `updateInventory`, `updateRecommendations`,
`removeFromRecommendations`) appear once, as class methods whose
postconditions state their new fields directly.

Lemmas about the functions state what the workflow promises:
- which tables change, by how much, and what stays;
- the error paths and their messages;
- known oddities of the code, kept as they are:
  - `GET /api/books/{id}` counts two views;
  - an author's `book_count` goes to -1 after two of its books are
    deleted;
  - a one-character author or title leaves an author row behind when the
    save then throws.

Behaviour kept as the code has it:
- The service's `updateBook` writes the book it is given as is. Only the
  controller merges the request body into the stored book.
- The controller's GET calls the service, which counts one view, then
  issues the same UPDATE itself, so a GET counts two views.
- `saveBook` validates, ensures the author row, generates the code and
  persists, in that order. The code generation can throw
  (`substring(0, 2)` on a short name) after the author row is written,
  and the model keeps that partial effect.

## Model

| member | source | states |
|---|---|---|
| Books.NewBook | src/main/java/com/example/bookstore/Book.java:6-19 | a fresh book has null references, a 0 view count, price 0, no discount |
| Books.NewBookWith | src/main/java/com/example/bookstore/Book.java:21-25 | the three-argument constructor sets title, author and price; every other field is as in `new Book()` |
| Books.SetId | src/main/java/com/example/bookstore/Book.java:29 | the field then holds the value; no other field changes |
| Books.SetTitle | src/main/java/com/example/bookstore/Book.java:32 | the field then holds the value; no other field changes |
| Books.SetAuthor | src/main/java/com/example/bookstore/Book.java:35 | the field then holds the value; no other field changes |
| Books.SetPrice | src/main/java/com/example/bookstore/Book.java:38 | the field then holds the value; no other field changes |
| Books.SetIsbn | src/main/java/com/example/bookstore/Book.java:41 | the field then holds the value; no other field changes |
| Books.SetInternalCode | src/main/java/com/example/bookstore/Book.java:44 | the field then holds the value; no other field changes |
| Books.SetViewCount | src/main/java/com/example/bookstore/Book.java:47 | the field then holds the value; no other field changes |
| Books.SetGenre | src/main/java/com/example/bookstore/Book.java:50 | the field then holds the value; no other field changes |
| Books.SetDescription | src/main/java/com/example/bookstore/Book.java:53 | the field then holds the value; no other field changes |
| Books.SetDiscountApplied | src/main/java/com/example/bookstore/Book.java:56 | the field then holds the value; no other field changes |
| Books.SetDiscountedPrice | src/main/java/com/example/bookstore/Book.java:59 | the field then holds the value; no other field changes |
| Books.MapResultSetToBook | src/main/java/com/example/bookstore/BookRepository.java:116-126 | the seven stored columns are copied; genre, description and the discount fields keep their defaults; the result is a listed book |
| Text.Trim | src/main/java/com/example/bookstore/BookService.java:96-99 | `trim()` returns an infix of the string that neither starts nor ends with a character at or below U+0020, and every character before and after that infix is at or below U+0020 |
| Text.IsBlank | src/main/java/com/example/bookstore/BookService.java:96-99 | `trim().isEmpty()`; BlankIffAllTrimmed proves it holds exactly when every character is at or below U+0020 |
| Text.BlankIffAllTrimmed | src/main/java/com/example/bookstore/BookService.java:96-99 | a string is blank after trim exactly when every character of it is at or below U+0020 |
| Text.ToUpper | src/main/java/com/example/bookstore/BookService.java:147-148 | same length; each character is upper-cased (ASCII) |
| Text.ToLower | src/main/java/com/example/bookstore/BookController.java:136-137 | same length; each character is lower-cased (ASCII) |
| Text.StartsWith | src/main/java/com/example/bookstore/BookService.java:210 | `startsWith(p)`; StartsWithIffAgrees proves it holds exactly when `p` is no longer than the string and agrees with it at each of its positions |
| Text.StartsWithIffAgrees | src/main/java/com/example/bookstore/BookService.java:210 | `startsWith(p)` holds exactly when `p` is no longer than the string and agrees with it at each of its positions |
| Text.Contains | src/main/java/com/example/bookstore/BookController.java:136-137 | `contains(q)` holds when `q` is a prefix, and never when `q` is longer than the string |
| Text.ContainsIffOccurs | src/main/java/com/example/bookstore/BookController.java:136-137 | `contains(q)` holds exactly when `q` occurs at some index |
| Text.NatToDecimal | src/main/java/com/example/bookstore/BookService.java:149 | a non-negative number renders as digits only, with no leading zero, and has as many digits as its magnitude needs |
| Text.DecimalRoundTrip | src/main/java/com/example/bookstore/BookService.java:149 | reading back the decimal rendering gives the number |
| Text.FourDigitsBelow10000 | src/main/java/com/example/bookstore/BookService.java:149 | a value below 10000 renders in at most four digits |
| Text.LongToString | src/main/java/com/example/bookstore/BookController.java:48 | `"" + id` starts with a minus sign exactly for negative ids and holds no colon and no comma |
| Text.NullableLongRoundTrip | src/main/java/com/example/bookstore/BookService.java:192-194 | the rendering of an id, `null` included, reads back as that id, so different ids render differently |
| Text.KeyPrefixDetermined | src/main/java/com/example/bookstore/BookService.java:210 | when `a + ":"` is a prefix of `b + ":" + rest` and neither holds a colon, then `a == b`: the key "1:" does not match the line "12:..." |
| BookStore.TitleLeTotal | src/main/java/com/example/bookstore/BookRepository.java:21 | `ORDER BY title` compares any two titles |
| BookStore.TitleLeTransitive | src/main/java/com/example/bookstore/BookRepository.java:21 | the title order is transitive |
| BookStore.AscendingIds | src/main/java/com/example/bookstore/BookRepository.java:21 | the stored ids, each once, ascending |
| BookStore.InsertByTitle | src/main/java/com/example/bookstore/BookRepository.java:21 | inserting an id into a title-sorted list keeps it sorted and adds exactly that id |
| BookStore.SortByTitle | src/main/java/com/example/bookstore/BookRepository.java:21 | the result is a permutation of the input ids, sorted by title |
| BookStore.TitleOrderSpec | src/main/java/com/example/bookstore/BookRepository.java:21 | the order of `SELECT * FROM books ORDER BY title` holds every stored id exactly once, with titles non-decreasing |
| BookStore.TitleOrder | src/main/java/com/example/bookstore/BookRepository.java:21 | `ORDER BY title` lists only stored ids (the full order is in TitleOrderSpec) |
| BookStore.MapIds | src/main/java/com/example/bookstore/BookRepository.java:23-26 | the result-set loop maps each id's row in order |
| BookStore.Listing | src/main/java/com/example/bookstore/BookRepository.java:16-33 | one book per stored row |
| BookStore.ListingFromRows | src/main/java/com/example/bookstore/BookRepository.java:23-26 | every listed book is the mapping of the stored row with its id |
| BookStore.ListingComplete | src/main/java/com/example/bookstore/BookRepository.java:16-33 | every stored row appears in the listing |
| BookStore.ListingDistinct | src/main/java/com/example/bookstore/BookRepository.java:16-33 | no two listed books share an id |
| BookStore.ListingSorted | src/main/java/com/example/bookstore/BookRepository.java:21 | consecutive listed books have non-decreasing titles |
| BookStore.ListingPairwiseSorted | src/main/java/com/example/bookstore/BookRepository.java:21 | any earlier listed book has a title no greater than any later one |
| BookStore.BookRepository.FindAll | src/main/java/com/example/bookstore/BookRepository.java:16-33 | the loop returns the listing of the current rows |
| BookStore.BookRepository.FindById | src/main/java/com/example/bookstore/BookRepository.java:35-51 | the mapped row when the id is stored, null exactly when it is not |
| BookStore.BookRepository.Save | src/main/java/com/example/bookstore/BookRepository.java:53-79 | inserts the five columns under the next id with view count 0 and returns the book with that id; a null title or author fails and writes nothing |
| BookStore.BookRepository.Update | src/main/java/com/example/bookstore/BookRepository.java:81-100 | writes only title, author and price of that id; a null id is a NullPointer; an absent id fails with "Updating book failed, no rows affected." and writes nothing |
| BookStore.BookRepository.DeleteById | src/main/java/com/example/bookstore/BookRepository.java:102-114 | removes exactly that row; passes exactly when the id was stored, else fails with "Deleting book failed, no rows affected." |
| BookStore.BookRepository.IncrementViewCount | src/main/java/com/example/bookstore/BookService.java:135-138 | the UPDATE of `view_count` for one id |
| BookStore.ViewCountIncremented | src/main/java/com/example/bookstore/BookService.java:135-138 | same ids; that row's view count plus one; every other row unchanged; an absent id changes nothing |
| AuthorLedger.CountPositiveIff | src/main/java/com/example/bookstore/AuthorRepository.java:14-20 | `COUNT(*) > 0` exactly when some row has the name |
| AuthorLedger.CountNamed | src/main/java/com/example/bookstore/AuthorRepository.java:14-19 | `SELECT COUNT(*) ... WHERE name = ?` is at most the number of rows |
| AuthorLedger.Decremented | src/main/java/com/example/bookstore/AuthorRepository.java:43-46 | every row with the name loses one, with no floor; every other row is unchanged |
| AuthorLedger.DecrementKeepsOtherNames | src/main/java/com/example/bookstore/AuthorRepository.java:44 | the rows of every other name are unchanged |
| AuthorLedger.CreateKeepsOtherNames | src/main/java/com/example/bookstore/AuthorRepository.java:33 | an insert leaves the rows of every other name unchanged |
| AuthorLedger.DecrementAbsentIsNoOp | src/main/java/com/example/bookstore/AuthorRepository.java:43-46 | decrementing a name no row has changes nothing |
| AuthorLedger.CreateTwiceTwoRows | src/main/java/com/example/bookstore/AuthorRepository.java:30-39 | two inserts of a name add two rows with it: no duplicate check |
| AuthorLedger.DecrementBelowZero | src/main/java/com/example/bookstore/AuthorRepository.java:44 | a count of 0 goes to -1 |
| AuthorLedger.AuthorRepository.ExistsByName | src/main/java/com/example/bookstore/AuthorRepository.java:12-28 | true exactly when some row has the name |
| AuthorLedger.AuthorRepository.CreateAuthor | src/main/java/com/example/bookstore/AuthorRepository.java:30-39 | appends (name, 1) |
| AuthorLedger.AuthorRepository.DecrementBookCount | src/main/java/com/example/bookstore/AuthorRepository.java:41-50 | the table becomes `Decremented` of the old one |
| Service.ValidateBook | src/main/java/com/example/bookstore/BookService.java:92-105 | passes exactly for a book with a title and an author that are non-blank after trim and a positive price; otherwise fails with the message of the first failing check, in the source's order |
| Service.ValidatedHasVisibleText | src/main/java/com/example/bookstore/BookService.java:96-101 | an accepted title and author each hold a character that trim keeps |
| Service.GenerateInternalCode | src/main/java/com/example/bookstore/BookService.java:146-150 | succeeds exactly when author and title have two characters or more; a null author is a NullPointer and a short one is IndexOutOfBounds, checked before the title; a code has 5 to 8 characters |
| Service.InternalCodeParts | src/main/java/com/example/bookstore/BookService.java:146-150 | a code is the upper-cased author prefix, then the upper-cased title prefix, then digits reading back as the clock reading mod 10000 |
| Service.EnrichBookData | src/main/java/com/example/bookstore/BookService.java:107-129 | genre becomes "Fiction" and description "A fascinating book about..."; nothing else changes |
| Service.EnrichAll | src/main/java/com/example/bookstore/BookService.java:21-23 | each book of the list enriched, in order |
| Service.SimilarBooks | src/main/java/com/example/bookstore/BookService.java:226-239 | at most 3 books, each with a different id and the same author |
| Service.SimilarBooksInListingOrder | src/main/java/com/example/bookstore/BookService.java:228-238 | the similar books come from the listing, in listing order |
| Service.SimilarBooksFirstFound | src/main/java/com/example/bookstore/BookService.java:228-238 | the selection is all the similar books of some prefix of the listing, and there are as many as the listing has, up to 3: `subList(0, min(3, size))` keeps the first ones found |
| Service.SimilarBooksDownwardClosed | src/main/java/com/example/bookstore/BookService.java:228-238 | in a listing of distinct ids, a similar book listed before a selected one is selected too |
| Service.SimilarBooksAllWhenFew | src/main/java/com/example/bookstore/BookService.java:238 | when fewer than 3 are returned, every similar book of the listing is among them |
| Service.RecommendationKey | src/main/java/com/example/bookstore/BookService.java:192 | the key is the id's rendering, which holds no colon, followed by one colon |
| Service.RecommendationKeyReadsBack | src/main/java/com/example/bookstore/BookService.java:192 | the text before the key's colon reads back as the id, `null` included |
| Service.IdList | src/main/java/com/example/bookstore/BookService.java:193-195 | `similar.getId() + ","` for each similar book gives at least two characters per book and ends with a comma |
| Service.IdListReadsBack | src/main/java/com/example/bookstore/BookService.java:193-195 | read back field by field between the commas, the written list gives the ids of the books in order, with nothing after the last comma |
| Service.RecommendationLine | src/main/java/com/example/bookstore/BookService.java:192-196 | the line starts with the book's key `id + ":"` |
| Service.RecommendationLineReadsBack | src/main/java/com/example/bookstore/BookService.java:192-196 | after its key, a book's line reads back as the ids of its similar books, in order, each ended by a comma |
| Service.LineHasOnlyItsOwnKey | src/main/java/com/example/bookstore/BookService.java:192-196 | a book's line starts with no other book's key |
| Service.KeptLines | src/main/java/com/example/bookstore/BookService.java:206-213 | no kept line starts with the key; never more lines than before |
| Service.KeptLinesExact | src/main/java/com/example/bookstore/BookService.java:206-219 | a line is kept exactly when it was there and does not start with the key; a line without the key is kept as many times as it occurs, repeated and blank lines included; kept lines keep their order |
| Service.OtherBooksLinesKept | src/main/java/com/example/bookstore/BookService.java:203-224 | removing one book's lines keeps the line of every other book |
| Service.EnsureAuthor | src/main/java/com/example/bookstore/BookService.java:47-49 | afterwards the name has a row |
| Service.FindAllBooksEffect | src/main/java/com/example/bookstore/BookService.java:14-26 | only the cache flag changes (it is set; no view count moves); the result is the listing with each book enriched, one per row |
| Service.FindBookByIdEffect | src/main/java/com/example/bookstore/BookService.java:28-40 | same ids and counter afterwards; the store stays valid |
| Service.InsertBookEffect | src/main/java/com/example/bookstore/BookService.java:54-60 | the saved book is the book with the next id; the store stays valid |
| Service.SaveBookEffect | src/main/java/com/example/bookstore/BookService.java:42-63 | the store stays valid |
| Service.UpdateBookEffect | src/main/java/com/example/bookstore/BookService.java:65-74 | same ids afterwards; the store stays valid |
| Service.DeleteBookEffect | src/main/java/com/example/bookstore/BookService.java:76-89 | the store stays valid |
| Service.SaveRejectedChangesNothing | src/main/java/com/example/bookstore/BookService.java:44-54 | a book that fails validation fails with that message and changes nothing |
| Service.SaveEnsuresAuthor | src/main/java/com/example/bookstore/BookService.java:44-49 | after validation the author's row exists, whether or not the rest succeeds |
| Service.SaveSucceeds | src/main/java/com/example/bookstore/BookService.java:42-63 | past validation and code generation, a save is the insert of the coded book into the store with the author ensured |
| Service.SaveKnownAuthorKeepsLedger | src/main/java/com/example/bookstore/BookService.java:47-49 | a known author's rows and counts are unchanged |
| Service.SaveNewAuthorAddsOneRow | src/main/java/com/example/bookstore/BookService.java:47-49 | a new author gets exactly one row, counting 1; other names' rows are unchanged |
| Service.SaveShortNameLeavesAuthorRow | src/main/java/com/example/bookstore/BookService.java:47-52 | a one-character author or title fails with IndexOutOfBounds after the author row was written |
| Service.SaveAddsRow | src/main/java/com/example/bookstore/BookService.java:52-54 | a successful save adds exactly one row, under the next id, and advances the counter |
| Service.SaveStoresBook | src/main/java/com/example/bookstore/BookService.java:42-63 | a successful save returns the book with its id and code, stores it with view count 0, lists it, stocks 10 copies and appends one line keyed by its id |
| Service.SimilarBooksStored | src/main/java/com/example/bookstore/BookService.java:231-235 | each book a recommendation names is a stored book by the same author with another id |
| Service.SaveThenFind | src/main/java/com/example/bookstore/BookService.java:28-63 | finding a saved book returns it as saved, enriched, with view count 0 |
| Service.FindBadIdChangesNothing | src/main/java/com/example/bookstore/BookService.java:29-31 | a null or non-positive id finds nothing and changes nothing |
| Service.FindMissingChangesNothing | src/main/java/com/example/bookstore/BookService.java:33-39 | an absent id finds nothing and changes nothing |
| Service.FindCountsOneView | src/main/java/com/example/bookstore/BookService.java:33-39 | a present id returns the enriched row as read and adds exactly one view to it; nothing else changes |
| Service.UpdateWritesThreeColumns | src/main/java/com/example/bookstore/BookService.java:65-74 | a successful update writes title, author and price only, keeps every other row and drops the cache |
| Service.UpdateFailureChangesNothing | src/main/java/com/example/bookstore/BookService.java:65-74 | a failed update changes nothing |
| Service.DeleteAbsentChangesNothing | src/main/java/com/example/bookstore/BookService.java:76-78 | deleting an id that finds nothing changes nothing |
| Service.DeletePresent | src/main/java/com/example/bookstore/BookService.java:76-89 | deleting a stored book removes exactly its row, takes one off its author's rows, drops the cache and its recommendation lines, keeps the inventory |
| Service.DeleteKeepsOtherLines | src/main/java/com/example/bookstore/BookService.java:87 | a delete keeps every other book's recommendation line |
| Service.TwoSavesOneAuthorRow | src/main/java/com/example/bookstore/BookService.java:47-49 | two books by one new author leave one row counting 1 |
| Service.TwoSavesTwoRows | src/main/java/com/example/bookstore/BookService.java:54 | two successful saves store under consecutive ids |
| Service.TwoDeletesTwoDecrements | src/main/java/com/example/bookstore/BookService.java:80 | deleting two books of an author whose single row counts 1 leaves -1 |
| Service.AuthorCountGoesNegative | src/main/java/com/example/bookstore/BookService.java:42-89 | two saves and two deletes for a new author end with its count at -1 |
| Service.BookService.FindAllBooks | src/main/java/com/example/bookstore/BookService.java:14-26 | the new state and the result are `FindAllBooksEffect` of the old state |
| Service.BookService.FindBookById | src/main/java/com/example/bookstore/BookService.java:28-40 | the new state and the result are `FindBookByIdEffect` of the old state |
| Service.BookService.SaveBook | src/main/java/com/example/bookstore/BookService.java:42-63 | the new state and the result are `SaveBookEffect` of the old state |
| Service.BookService.InsertBook | src/main/java/com/example/bookstore/BookService.java:54-60 | the new state and the result are `InsertBookEffect` of the old state |
| Service.BookService.UpdateBook | src/main/java/com/example/bookstore/BookService.java:65-74 | the new state and the result are `UpdateBookEffect` of the old state |
| Service.BookService.DeleteBook | src/main/java/com/example/bookstore/BookService.java:76-89 | the new state is `DeleteBookEffect` of the old state |
| Service.BookService.UpdateViewCount | src/main/java/com/example/bookstore/BookService.java:131-144 | the book's row gets one more view; the counter is unchanged |
| Service.BookService.CacheBooks | src/main/java/com/example/bookstore/BookService.java:152-162 | the cache exists; nothing else changes |
| Service.BookService.ClearBookCache | src/main/java/com/example/bookstore/BookService.java:164-170 | the cache is gone; nothing else changes |
| Service.BookService.UpdateInventory | src/main/java/com/example/bookstore/BookService.java:172-185 | appends the row (book id, 10) |
| Service.BookService.FindSimilarBooks | src/main/java/com/example/bookstore/BookService.java:226-239 | the loop returns `SimilarBooks` of the current listing |
| Service.BookService.UpdateRecommendations | src/main/java/com/example/bookstore/BookService.java:187-201 | appends the book's recommendation line, naming its similar books |
| Service.BookService.RemoveFromRecommendations | src/main/java/com/example/bookstore/BookService.java:203-224 | the lines become `KeptLines` of the old lines |
| Controller.ApplyDiscount | src/main/java/com/example/bookstore/BookController.java:33-36 | a book above 50 is flagged and given 0.9 of its price, nothing else changes; any other book is unchanged |
| Controller.DiscountAll | src/main/java/com/example/bookstore/BookController.java:32-37 | each book of the list discounted, in order |
| Controller.MergeUpdate | src/main/java/com/example/bookstore/BookController.java:97-105 | title and author are replaced when the body has one; price is replaced when the body's is positive; every other field is the existing book's |
| Controller.MergeEmptyPatch | src/main/java/com/example/bookstore/BookController.java:97-105 | an empty body changes nothing |
| Controller.MergeIdempotent | src/main/java/com/example/bookstore/BookController.java:97-105 | merging the same body twice is merging it once |
| Controller.MergeFullPatch | src/main/java/com/example/bookstore/BookController.java:97-105 | a body with all three fields replaces all three |
| Controller.SearchResults | src/main/java/com/example/bookstore/BookController.java:132-142 | every result matches; never more results than books |
| Controller.SearchResultsExact | src/main/java/com/example/bookstore/BookController.java:135-142 | a book is a result exactly when it is in the list and its lower-cased title or author contains the lower-cased query; results keep list order |
| Controller.EmptyQueryMatchesAll | src/main/java/com/example/bookstore/BookController.java:136-137 | the empty query matches every listed book |
| Controller.AuthorCounts | src/main/java/com/example/bookstore/BookController.java:155-162 | every count in the map is positive |
| Controller.AuthorCountsExact | src/main/java/com/example/bookstore/BookController.java:157-162 | an author is a key exactly when some book has it, and its count is the number of such books |
| Controller.AuthorCountsSum | src/main/java/com/example/bookstore/BookController.java:154-162 | the counts add up to the number of books |
| Controller.SalesReportOf | src/main/java/com/example/bookstore/BookController.java:154 | `totalBooks` is the list length |
| Controller.GetAllBooksEffect | src/main/java/com/example/bookstore/BookController.java:24-40 | the store stays valid |
| Controller.GetBookByIdEffect | src/main/java/com/example/bookstore/BookController.java:42-61 | the store stays valid |
| Controller.CreateBookEffect | src/main/java/com/example/bookstore/BookController.java:63-85 | the store stays valid |
| Controller.UpdateBookByIdEffect | src/main/java/com/example/bookstore/BookController.java:87-108 | the store stays valid |
| Controller.DeleteBookByIdEffect | src/main/java/com/example/bookstore/BookController.java:110-125 | the store stays valid |
| Controller.SearchBooksEffect | src/main/java/com/example/bookstore/BookController.java:127-143 | the store stays valid |
| Controller.SalesReportEffect | src/main/java/com/example/bookstore/BookController.java:145-170 | the store stays valid |
| Controller.GetAllFlagsExpensiveBooks | src/main/java/com/example/bookstore/BookController.java:29-37 | a listed book comes back flagged exactly when its price is above 50, discounted to 0.9 of it then, and as the service returned it otherwise |
| Controller.GetByIdCountsTwoViews | src/main/java/com/example/bookstore/BookController.java:46-60 | a found book is returned as read, and its row gains two views; nothing else changes |
| Controller.GetByIdNotFound | src/main/java/com/example/bookstore/BookController.java:46-49 | an id that finds nothing fails with "Book not found with id: " and the id, and changes nothing |
| Controller.CreateRejectsBeforeSaving | src/main/java/com/example/bookstore/BookController.java:68-74 | a blank title, then a price of 0 or less, fails with its message and changes nothing |
| Controller.IsbnFor | src/main/java/com/example/bookstore/BookController.java:77 | the ISBN is "ISBN-" followed by at least one digit and nothing else |
| Controller.IsbnRoundTrip | src/main/java/com/example/bookstore/BookController.java:77 | the ISBN is "ISBN-" and digits reading back as the clock reading |
| Controller.CreateSavesWithIsbn | src/main/java/com/example/bookstore/BookController.java:77-79 | a create that saves stores and returns the book with that ISBN |
| Controller.UnknownIdChangesNothing | src/main/java/com/example/bookstore/BookController.java:91-94 | PUT and DELETE of an id that finds nothing fail with "Book not found" and change nothing |
| Controller.UpdateRejectedStillCountsView | src/main/java/com/example/bookstore/BookController.java:91-107 | a PUT whose merged book fails validation fails, but its lookup's view stays counted and nothing else changes |
| Controller.UpdateWritesMerge | src/main/java/com/example/bookstore/BookController.java:91-107 | a PUT that validates writes the merged title, author and price, keeps isbn and code, adds the lookup's one view, keeps other rows and drops the cache |
| Controller.DeleteByIdRemovesRow | src/main/java/com/example/bookstore/BookController.java:114-119 | a DELETE of a stored id removes exactly its row, decrements its author and drops its recommendation lines |
| Controller.SearchReturnsMatches | src/main/java/com/example/bookstore/BookController.java:131-142 | search returns exactly the matching books of the enriched listing, in listing order |
| Controller.SalesReportConsistent | src/main/java/com/example/bookstore/BookController.java:150-167 | `totalBooks` is the number of rows, the counts add up to it, and each count is the number of books by that author |
| Controller.DiscountBooks | src/main/java/com/example/bookstore/BookController.java:32-37 | the loop returns `DiscountAll` of the list |
| Controller.MatchingBooks | src/main/java/com/example/bookstore/BookController.java:132-140 | the loop returns `SearchResults` of the list |
| Controller.CountAuthors | src/main/java/com/example/bookstore/BookController.java:155-162 | the loop returns `AuthorCounts` of the list |
| Controller.BookController.GetAllBooks | src/main/java/com/example/bookstore/BookController.java:24-40 | the new state and the result are `GetAllBooksEffect` of the old state |
| Controller.BookController.GetBookById | src/main/java/com/example/bookstore/BookController.java:42-61 | the new state and the result are `GetBookByIdEffect` of the old state |
| Controller.BookController.CreateBook | src/main/java/com/example/bookstore/BookController.java:63-85 | the new state and the result are `CreateBookEffect` of the old state |
| Controller.BookController.UpdateBook | src/main/java/com/example/bookstore/BookController.java:87-108 | field copying equals `MergeUpdate`; the new state and the result are `UpdateBookByIdEffect` of the old state |
| Controller.BookController.DeleteBook | src/main/java/com/example/bookstore/BookController.java:110-125 | the new state and the result are `DeleteBookByIdEffect` of the old state |
| Controller.BookController.SearchBooks | src/main/java/com/example/bookstore/BookController.java:127-143 | the new state and the result are `SearchBooksEffect` of the old state |
| Controller.BookController.GetSalesReport | src/main/java/com/example/bookstore/BookController.java:145-170 | the new state and the result are `SalesReportEffect` of the old state |

## Left out

- JDBC: connections, statements, result sets and credentials are not modelled. Each repository is an in-memory table whose methods follow the SQL text.
- Schema: title and author are taken to be NOT NULL columns. Every path that writes them has validated them.
- BookStore.BookRepository.Save: the INSERT does not write `view_count`, and the model takes the column's default to be 0. The schema is not part of this model.
- AuthorLedger.CountNamed: `WHERE name = ?` is exact string equality here. MySQL compares under the column's collation, which is case-insensitive by default, so `existsByName` and `decrementBookCount` may match more rows in MySQL than in the model.
- Files: `requests.log`, `audit.log` and the email notification are not modelled; they are logging and printing only.
- The cache file: it is modelled as a flag saying whether `book_cache.txt` exists. Its contents are not modelled.
- The recommendation file: it is modelled as its sequence of lines. This assumes the file is empty or ends with a line break, and that no line holds `\n` or `\r`; the `BookService` constructor accepts any `lines` without checking this. When the last line of a real file has no line break, the append in `updateRecommendations` glues `id:` onto that line, so a later `removeFromRecommendations` for that book does not find its key at a line start; the model instead adds a separate line.
- Clock: `System.currentTimeMillis()` becomes parameters. One reading is for the internal code. The other is for the ISBN.
- Service.EnrichBookData: the two lookups always return their constants. Their only failure is an interrupted `Thread.sleep`, so the `catch` fallback to "Unknown" / "No description available" is not modelled.
- The `Thread.sleep` delays are not modelled.
- Floating point: prices are exact `real` values, so double rounding and NaN are not modelled.
- Controller.ApplyDiscount: `price * 0.9` is exact real multiplication, not IEEE double arithmetic.
- Controller.SalesReportOf: `totalRevenue` and `averagePrice` are left out. They are floating-point sums and a division that gives NaN for an empty catalog.
- Books.SetViewCount: `view_count` is an unbounded integer, so Java `int` overflow is not modelled.
- Text.Trim: `trim()` strips characters at or below U+0020, as Java does; no other whitespace is stripped.
- Text.ToUpper and Text.ToLower: only ASCII letters change case, so Unicode and locale-specific case mapping are not modelled.
- Service.GenerateInternalCode: a Dafny `string` counts Unicode code points, while Java's `length()` and `substring(0, 2)` count UTF-16 units. A one-character name outside the Basic Multilingual Plane, such as "𝔸", passes `substring(0, 2)` in Java, but `GenerateInternalCode` gives `IndexOutOfBounds` for it.
- BookStore.TitleOrderSpec: titles compare by character code, and equal titles fall back to ascending id. MySQL's collation and its tie order are not modelled.
- Concurrency: the check-then-insert race on the author row is not modelled.
- Swallowed failures: the view-count update, the inventory insert, the recommendation writes and the cache writes are modelled as always succeeding. Their `catch` branches are not modelled.
- Aliasing: in Java, `setInternalCode` and `setId` mutate the caller's `Book`, and the controller mutates the books the service returned. The model returns updated values instead and passes them on, so no caller can observe a shared object.
- Service.BookService.InsertBook: this is the tail of `saveBook` (insert, inventory, recommendations) as its own method. The behaviour of `saveBook` is unchanged.
- Controller.DiscountBooks, Controller.MatchingBooks and Controller.CountAuthors: these are the controller's loops as methods of their own. Each endpoint method calls its loop at the same point.
- Spring: routing, request binding and the mapping of exceptions to HTTP responses are not modelled. An endpoint's exception is its `Failure` result.
- Static fields: the service and controller singletons are modelled as objects; the controller holds the service, which holds the two repositories.
