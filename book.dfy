/** The Book record: a mutable Java bean, modelled as a value whose setters
    return the updated record. */
module Books {
  import opened Base

  /** One catalog item. References that Java leaves null are None; the
      primitive fields start at 0, 0.0 and false. */
  datatype Book = Book(
    id: Option<int>,
    title: Option<string>,
    author: Option<string>,
    price: real,
    isbn: Option<string>,
    internalCode: Option<string>,
    viewCount: int,
    genre: Option<string>,
    description: Option<string>,
    discountApplied: bool,
    discountedPrice: real)

  /** `new Book()`: every field at its Java default. */
  function NewBook(): (b: Book)
    ensures b.id == None && b.title == None && b.author == None && b.price == 0.0
    ensures b.isbn == None && b.internalCode == None && b.viewCount == 0
    ensures b.genre == None && b.description == None
    ensures !b.discountApplied && b.discountedPrice == 0.0
  {
    Book(None, None, None, 0.0, None, None, 0, None, None, false, 0.0)
  }

  /** `new Book(title, author, price)`: those three set, the rest as in
      `new Book()`. */
  function NewBookWith(title: Option<string>, author: Option<string>, price: real): (b: Book)
    ensures b.title == title && b.author == author && b.price == price
    ensures b.(title := None, author := None, price := 0.0) == NewBook()
  {
    NewBook().(title := title, author := author, price := price)
  }

  // Each setter sets its own field to the given value and leaves every
  // other field as it was; the getters are the datatype's field selectors.

  function SetId(b: Book, v: Option<int>): (r: Book)
    ensures r.id == v && r.(id := b.id) == b
  {
    b.(id := v)
  }

  function SetTitle(b: Book, v: Option<string>): (r: Book)
    ensures r.title == v && r.(title := b.title) == b
  {
    b.(title := v)
  }

  function SetAuthor(b: Book, v: Option<string>): (r: Book)
    ensures r.author == v && r.(author := b.author) == b
  {
    b.(author := v)
  }

  function SetPrice(b: Book, v: real): (r: Book)
    ensures r.price == v && r.(price := b.price) == b
  {
    b.(price := v)
  }

  function SetIsbn(b: Book, v: Option<string>): (r: Book)
    ensures r.isbn == v && r.(isbn := b.isbn) == b
  {
    b.(isbn := v)
  }

  function SetInternalCode(b: Book, v: Option<string>): (r: Book)
    ensures r.internalCode == v && r.(internalCode := b.internalCode) == b
  {
    b.(internalCode := v)
  }

  function SetViewCount(b: Book, v: int): (r: Book)
    ensures r.viewCount == v && r.(viewCount := b.viewCount) == b
  {
    b.(viewCount := v)
  }

  function SetGenre(b: Book, v: Option<string>): (r: Book)
    ensures r.genre == v && r.(genre := b.genre) == b
  {
    b.(genre := v)
  }

  function SetDescription(b: Book, v: Option<string>): (r: Book)
    ensures r.description == v && r.(description := b.description) == b
  {
    b.(description := v)
  }

  function SetDiscountApplied(b: Book, v: bool): (r: Book)
    ensures r.discountApplied == v && r.(discountApplied := b.discountApplied) == b
  {
    b.(discountApplied := v)
  }

  function SetDiscountedPrice(b: Book, v: real): (r: Book)
    ensures r.discountedPrice == v && r.(discountedPrice := b.discountedPrice) == b
  {
    b.(discountedPrice := v)
  }

  /** One row of the `books` table: the seven stored columns, keyed by id.
      Title and author are NOT NULL: every write path validates them. */
  datatype Row = Row(
    title: string,
    author: string,
    price: real,
    isbn: Option<string>,
    internalCode: Option<string>,
    viewCount: int)

  /** A book as read back from the table: id, title and author present. */
  predicate Listed(b: Book) {
    b.id.Some? && b.title.Some? && b.author.Some?
  }

  /** BookRepository.mapResultSetToBook: a fresh Book with the seven stored
      columns copied in; genre, description and the discount fields keep
      their defaults. */
  function MapResultSetToBook(id: int, row: Row): (b: Book)
    ensures b.id == Some(id) && b.title == Some(row.title) && b.author == Some(row.author)
    ensures b.price == row.price && b.isbn == row.isbn && b.internalCode == row.internalCode
    ensures b.viewCount == row.viewCount
    ensures b.genre == None && b.description == None
    ensures !b.discountApplied && b.discountedPrice == 0.0
    ensures Listed(b)
  {
    var b := NewBook();
    var b := SetId(b, Some(id));
    var b := SetTitle(b, Some(row.title));
    var b := SetAuthor(b, Some(row.author));
    var b := SetPrice(b, row.price);
    var b := SetIsbn(b, row.isbn);
    var b := SetInternalCode(b, row.internalCode);
    SetViewCount(b, row.viewCount)
  }
}
