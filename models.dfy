/** The catalogue's entities (catalog/models.py): books, their availability
    counters and wishlist entries, the field validators that `full_clean`
    runs, `Availability.clean`, `Book.__str__`, the default title ordering, and
    the tables with the integrity constraints the database enforces on insert. */
module Models {
  import opened Text

  datatype Option<T> = None | Some(value: T)

  /** One row of the Book table; `bookId` is the primary key. */
  datatype Book = Book(
    bookId: int,
    isbn: string,
    authors: string,
    publicationYear: int,
    title: string,
    language: string)

  /** One row of the Availability table; its primary key is the book it counts. */
  datatype Availability = Availability(book: int, totalCopies: int, availableCopies: int)

  /** One row of the Wishlist table; the pair (user, book) is its primary key. */
  datatype WishlistItem = WishlistItem(user: int, book: int)

  // ---------------------------------------------------------------------------
  // Field validators (what `full_clean` checks; `create` does not run them)
  // ---------------------------------------------------------------------------

  const MinPublicationYear: int := -1000
  const IsbnMaxLength: nat := 13
  const AuthorsMaxLength: nat := 255
  const TitleMaxLength: nat := 255
  const LanguageMaxLength: nat := 50

  /** The upper bound is computed once, when the module is imported, from the
      year on the clock at that moment (`importYear`). */
  function MaxPublicationYear(importYear: int): int
  {
    importYear + 1
  }

  /** `MinValueValidator(limit)` rejects a value smaller than `limit`. */
  predicate MinValueRejects(limit: int, x: int)
  {
    x < limit
  }

  /** `MaxValueValidator(limit)` rejects a value greater than `limit`. */
  predicate MaxValueRejects(limit: int, x: int)
  {
    x > limit
  }

  /** `MaxLengthValidator(limit)`, added by `CharField(max_length=limit)`. */
  predicate MaxLengthRejects(limit: nat, s: string)
  {
    |s| > limit
  }

  datatype BookField = BookIdField | IsbnField | AuthorsField | PublicationYearField | TitleField | LanguageField

  /** The fields of `b` that fail their validators. Every integer field also
      carries the validators of the database backend's integer range, here
      `minInteger..maxInteger` (-9223372036854775808..9223372036854775807 on
      SQLite, -2147483648..2147483647 on most other backends), with 0 as the
      lower end for `PositiveIntegerField`. `publication_year` carries the two
      validators listed on it as well; each `CharField` its maximum length. */
  function BookFieldErrors(b: Book, importYear: int, minInteger: int, maxInteger: int): (errors: set<BookField>)
    ensures PublicationYearField !in errors <==>
      -1000 <= b.publicationYear <= importYear + 1 && minInteger <= b.publicationYear <= maxInteger
    ensures BookIdField !in errors <==> 0 <= b.bookId <= maxInteger
    ensures IsbnField !in errors <==> |b.isbn| <= 13
    ensures errors == {} <==>
      && 0 <= b.bookId <= maxInteger
      && |b.isbn| <= 13 && |b.authors| <= 255 && |b.title| <= 255 && |b.language| <= 50
      && -1000 <= b.publicationYear <= importYear + 1
      && minInteger <= b.publicationYear <= maxInteger
  {
    (if MinValueRejects(0, b.bookId) || MaxValueRejects(maxInteger, b.bookId) then {BookIdField} else {})
    + (if MaxLengthRejects(IsbnMaxLength, b.isbn) then {IsbnField} else {})
    + (if MaxLengthRejects(AuthorsMaxLength, b.authors) then {AuthorsField} else {})
    + (if MinValueRejects(minInteger, b.publicationYear)
          || MaxValueRejects(maxInteger, b.publicationYear)
          || MinValueRejects(MinPublicationYear, b.publicationYear)
          || MaxValueRejects(MaxPublicationYear(importYear), b.publicationYear)
       then {PublicationYearField} else {})
    + (if MaxLengthRejects(TitleMaxLength, b.title) then {TitleField} else {})
    + (if MaxLengthRejects(LanguageMaxLength, b.language) then {LanguageField} else {})
  }

  datatype Validation = Accepted | Rejected(message: string)

  /** `Availability.clean`: more available than total copies is an error;
      equal counts, and negative counts, pass. */
  function Clean(a: Availability): (r: Validation)
    ensures r.Rejected? <==> a.totalCopies < a.availableCopies
    ensures r.Accepted? ==> a.availableCopies <= a.totalCopies
  {
    if a.totalCopies < a.availableCopies then
      Rejected("Number of available books cannot be more than total copies.")
    else
      Accepted
  }

  // ---------------------------------------------------------------------------
  // Book.__str__
  // ---------------------------------------------------------------------------

  /** `str(book)`: "<title> by <authors> (<publication year>)". */
  function BookStr(b: Book): (s: string)
    ensures IsPrefix(b.title, s)
    ensures |s| == |b.title| + |b.authors| + |IntToString(b.publicationYear)| + 7
    ensures s[|b.title|..|b.title| + 4 + |b.authors|] == " by " + b.authors
    ensures s[|b.title| + 4 + |b.authors|..] == " (" + IntToString(b.publicationYear) + ")"
  {
    b.title + " by " + b.authors + " (" + IntToString(b.publicationYear) + ")"
  }

  /** The rendering ends with the year in parentheses, and the year can be
      read back from it. */
  lemma BookStrYear(b: Book)
    ensures var s, y := BookStr(b), IntToString(b.publicationYear);
      && s[|s| - 1] == ')'
      && s[|s| - 2 - |y|] == '('
      && s[|s| - 1 - |y|..|s| - 1] == y
      && ParseInt(s[|s| - 1 - |y|..|s| - 1]) == b.publicationYear
  {
    var y := IntToString(b.publicationYear);
    var s := BookStr(b);
    var head := b.title + " by " + b.authors + " (";
    assert s == head + y + ")";
    assert s[|s| - 1 - |y|..|s| - 1] == y;
    IntToStringRoundTrip(b.publicationYear);
  }

  // ---------------------------------------------------------------------------
  // Default ordering: Meta.ordering = ["title"]
  // ---------------------------------------------------------------------------

  predicate TitleSorted(s: seq<Book>)
  {
    forall i, j | 0 <= i < j < |s| :: LexLe(s[i].title, s[j].title)
  }

  /** Places `b` before the first book whose title is not below its own. */
  function InsertByTitle(b: Book, s: seq<Book>): (r: seq<Book>)
    ensures multiset(r) == multiset(s) + multiset{b}
  {
    if s == [] || LexLe(b.title, s[0].title) then [b] + s
    else
      assert s == [s[0]] + s[1..];
      [s[0]] + InsertByTitle(b, s[1..])
  }

  lemma {:induction false} InsertByTitleSorted(b: Book, s: seq<Book>)
    requires TitleSorted(s)
    ensures TitleSorted(InsertByTitle(b, s))
  {
    if s == [] || LexLe(b.title, s[0].title) {
      forall j | 0 < j < |s| ensures LexLe(b.title, s[j].title) {
        LexLeTransitive(b.title, s[0].title, s[j].title);
      }
    } else {
      LexLeTotal(b.title, s[0].title);
      var t := InsertByTitle(b, s[1..]);
      InsertByTitleSorted(b, s[1..]);
      forall k | 0 <= k < |t| ensures LexLe(s[0].title, t[k].title) {
        assert t[k] in multiset(t);
        assert t[k] == b || t[k] in multiset(s[1..]);
        if t[k] != b {
          var m :| 0 <= m < |s[1..]| && s[1..][m] == t[k];
          assert s[m + 1] == t[k];
        }
      }
      var r := [s[0]] + t;
      assert r == InsertByTitle(b, s);
      forall i, j | 0 <= i < j < |r| ensures LexLe(r[i].title, r[j].title) {
        if i > 0 {
          assert r[i] == t[i - 1] && r[j] == t[j - 1];
        }
      }
    }
  }

  /** The Book table as `Book.objects.all()` returns it: sorted by title, and
      a rearrangement of the stored rows. The database leaves the order of
      rows with equal titles open; keeping them in the order they are stored
      here is a choice of this model. */
  function OrderedByTitle(s: seq<Book>): (r: seq<Book>)
    ensures TitleSorted(r)
    ensures multiset(r) == multiset(s)
  {
    if s == [] then []
    else
      var rest := OrderedByTitle(s[1..]);
      InsertByTitleSorted(s[0], rest);
      assert s == [s[0]] + s[1..];
      InsertByTitle(s[0], rest)
  }

  // ---------------------------------------------------------------------------
  // Tables and their integrity constraints
  // ---------------------------------------------------------------------------

  predicate HasBook(books: seq<Book>, id: int)
  {
    exists i | 0 <= i < |books| :: books[i].bookId == id
  }

  predicate HasIsbn(books: seq<Book>, isbn: string)
  {
    exists i | 0 <= i < |books| :: books[i].isbn == isbn
  }

  predicate HasAvailability(rows: seq<Availability>, id: int)
  {
    exists i | 0 <= i < |rows| :: rows[i].book == id
  }

  /** `book_id` is a primary key and a `PositiveIntegerField` (a CHECK that it
      is not negative); `isbn` is unique. */
  predicate BookTableValid(books: seq<Book>)
  {
    && (forall i, j | 0 <= i < j < |books| :: books[i].bookId != books[j].bookId)
    && (forall i, j | 0 <= i < j < |books| :: books[i].isbn != books[j].isbn)
    && (forall i | 0 <= i < |books| :: books[i].bookId >= 0)
  }

  /** Availability's primary key is a one-to-one reference to an existing book. */
  predicate AvailabilityTableValid(books: seq<Book>, rows: seq<Availability>)
  {
    && (forall i | 0 <= i < |rows| :: HasBook(books, rows[i].book))
    && (forall i, j | 0 <= i < j < |rows| :: rows[i].book != rows[j].book)
  }

  /** Wishlist rows reference existing books and (user, book) is the key. */
  predicate WishlistTableValid(books: seq<Book>, rows: seq<WishlistItem>)
  {
    && (forall i | 0 <= i < |rows| :: HasBook(books, rows[i].book))
    && (forall i, j | 0 <= i < j < |rows| :: rows[i] != rows[j])
  }

  /** The book with primary key `id`, as `Book.objects.get(book_id=id)` finds it. */
  function FindBook(books: seq<Book>, id: int): (r: Option<Book>)
    ensures r.Some? ==> r.value in books && r.value.bookId == id
    ensures r.None? <==> !HasBook(books, id)
  {
    if books == [] then None
    else if books[0].bookId == id then Some(books[0])
    else
      var r := FindBook(books[1..], id);
      assert HasBook(books, id) ==> HasBook(books[1..], id) by {
        if HasBook(books, id) {
          var i :| 0 <= i < |books| && books[i].bookId == id;
          assert i > 0 && books[1..][i - 1].bookId == id;
        }
      }
      assert HasBook(books[1..], id) ==> HasBook(books, id) by {
        if HasBook(books[1..], id) {
          var i :| 0 <= i < |books[1..]| && books[1..][i].bookId == id;
          assert books[i + 1].bookId == id;
        }
      }
      r
  }

  /** In a valid Book table the key determines the row. */
  lemma FindBookUnique(books: seq<Book>, b: Book)
    requires BookTableValid(books)
    requires b in books
    ensures FindBook(books, b.bookId) == Some(b)
  {
    var r := FindBook(books, b.bookId);
    var i :| 0 <= i < |books| && books[i] == b;
    var j :| 0 <= j < |books| && books[j] == r.value;
    assert i == j;
  }

  /** A valid Availability table gives each book at most one row. */
  lemma AtMostOneAvailability(books: seq<Book>, rows: seq<Availability>, i: int, j: int)
    requires AvailabilityTableValid(books, rows)
    requires 0 <= i < |rows| && 0 <= j < |rows| && rows[i].book == rows[j].book
    ensures i == j
  {
  }

  /** Which constraint refused an INSERT. */
  datatype Constraint =
    | BookPrimaryKey | BookIsbnUnique | BookIdNotNegative
    | AvailabilityPrimaryKey | BookForeignKey | WishlistPrimaryKey

  datatype Insert = Inserted | IntegrityError(constraint: Constraint)

  /** The database's tables, each in storage order. The objects manager's
      `create` inserts a row; a constraint violation raises IntegrityError
      and leaves the table as it was. */
  class Database {
    var books: seq<Book>
    var availabilities: seq<Availability>
    var wishlists: seq<WishlistItem>

    ghost predicate Valid()
      reads this
    {
      && BookTableValid(books)
      && AvailabilityTableValid(books, availabilities)
      && WishlistTableValid(books, wishlists)
    }

    constructor ()
      ensures Valid()
      ensures books == [] && availabilities == [] && wishlists == []
    {
      books, availabilities, wishlists := [], [], [];
    }

    /** `Book.objects.create(...)`. The field validators are not run here. */
    method CreateBook(b: Book) returns (r: Insert)
      requires Valid()
      modifies this
      ensures Valid()
      ensures availabilities == old(availabilities) && wishlists == old(wishlists)
      ensures r.Inserted? <==> b.bookId >= 0 && !HasBook(old(books), b.bookId) && !HasIsbn(old(books), b.isbn)
      ensures r.Inserted? ==> books == old(books) + [b]
      ensures r.IntegrityError? ==> books == old(books)
    {
      if b.bookId < 0 {
        return IntegrityError(BookIdNotNegative);
      }
      if HasBook(books, b.bookId) {
        return IntegrityError(BookPrimaryKey);
      }
      if HasIsbn(books, b.isbn) {
        return IntegrityError(BookIsbnUnique);
      }
      ghost var before := books;
      books := books + [b];
      forall id | HasBook(before, id) ensures HasBook(books, id) {
        var i :| 0 <= i < |before| && before[i].bookId == id;
        assert books[i].bookId == id;
      }
      r := Inserted;
    }

    /** `Availability.objects.create(book=..., ...)`. `clean` is not run here. */
    method CreateAvailability(a: Availability) returns (r: Insert)
      requires Valid()
      modifies this
      ensures Valid()
      ensures books == old(books) && wishlists == old(wishlists)
      ensures r.Inserted? <==> HasBook(books, a.book) && !HasAvailability(old(availabilities), a.book)
      ensures r.Inserted? ==> availabilities == old(availabilities) + [a]
      ensures r.IntegrityError? ==> availabilities == old(availabilities)
    {
      if !HasBook(books, a.book) {
        return IntegrityError(BookForeignKey);
      }
      if HasAvailability(availabilities, a.book) {
        return IntegrityError(AvailabilityPrimaryKey);
      }
      availabilities := availabilities + [a];
      r := Inserted;
    }

    /** `Wishlist.objects.create(user=..., book=...)`. */
    method CreateWishlist(user: int, book: int) returns (r: Insert)
      requires Valid()
      modifies this
      ensures Valid()
      ensures books == old(books) && availabilities == old(availabilities)
      ensures r.Inserted? <==> HasBook(books, book) && WishlistItem(user, book) !in old(wishlists)
      ensures r.Inserted? ==> wishlists == old(wishlists) + [WishlistItem(user, book)]
      ensures r.IntegrityError? ==> wishlists == old(wishlists)
    {
      if !HasBook(books, book) {
        return IntegrityError(BookForeignKey);
      }
      if WishlistItem(user, book) in wishlists {
        return IntegrityError(WishlistPrimaryKey);
      }
      wishlists := wishlists + [WishlistItem(user, book)];
      r := Inserted;
    }
  }
}
