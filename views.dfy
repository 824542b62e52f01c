/** The catalogue's views (catalog/views.py): the landing-page totals, the
    book listing's search filter, the search form's redirect, the wishlist
    insert and the borrow action. */
module Views {
  import opened Text
  import opened Models
  import opened QueryString

  /** A request's GET parameters, one value per name (`QueryDict.get` reads
      the last value sent under a name). */
  type Query = map<string, string>

  /** `request.GET.get(name, "")`: an absent parameter reads as empty. */
  function SearchTerm(q: Query, name: string): string
  {
    if name in q then q[name] else ""
  }

  // ---------------------------------------------------------------------------
  // index
  // ---------------------------------------------------------------------------

  /** `Availability.objects.aggregate(Sum("total_copies", default=0))`. */
  function TotalCopies(rows: seq<Availability>): int
  {
    if rows == [] then 0 else rows[0].totalCopies + TotalCopies(rows[1..])
  }

  /** `Availability.objects.aggregate(Sum("available_copies", default=0))`. */
  function AvailableCopies(rows: seq<Availability>): int
  {
    if rows == [] then 0 else rows[0].availableCopies + AvailableCopies(rows[1..])
  }

  /** Adding a row adds its counts to the totals. */
  lemma {:induction false} SumsAppend(rows: seq<Availability>, a: Availability)
    ensures TotalCopies(rows + [a]) == TotalCopies(rows) + a.totalCopies
    ensures AvailableCopies(rows + [a]) == AvailableCopies(rows) + a.availableCopies
  {
    if rows != [] {
      assert (rows + [a])[1..] == rows[1..] + [a];
      SumsAppend(rows[1..], a);
    }
  }

  /** When every row passes `Availability.clean`, the copies available never
      exceed the copies owned. */
  lemma {:induction false} CleanRowsBound(rows: seq<Availability>)
    ensures (forall i | 0 <= i < |rows| :: Clean(rows[i]).Accepted?) ==>
      AvailableCopies(rows) <= TotalCopies(rows)
  {
    if rows != [] && forall i | 0 <= i < |rows| :: Clean(rows[i]).Accepted? {
      assert Clean(rows[0]).Accepted?;
      forall i | 0 <= i < |rows[1..]| ensures Clean(rows[1..][i]).Accepted? {
        assert rows[1..][i] == rows[i + 1];
      }
      CleanRowsBound(rows[1..]);
    }
  }

  /** With no negative counts, neither total is negative. */
  lemma {:induction false} NonNegativeRowsBound(rows: seq<Availability>)
    requires forall i | 0 <= i < |rows| :: 0 <= rows[i].availableCopies <= rows[i].totalCopies
    ensures 0 <= AvailableCopies(rows) <= TotalCopies(rows)
  {
    if rows != [] {
      NonNegativeRowsBound(rows[1..]);
    }
  }

  datatype IndexContext = IndexContext(numBooks: nat, allBooks: int, totalAvailable: int)

  /** The landing page's context. */
  function Index(books: seq<Book>, rows: seq<Availability>): (ctx: IndexContext)
    ensures ctx.numBooks == |books|
    ensures ctx.allBooks == TotalCopies(rows) && ctx.totalAvailable == AvailableCopies(rows)
    ensures rows == [] ==> ctx.allBooks == 0 && ctx.totalAvailable == 0
    ensures (forall i | 0 <= i < |rows| :: Clean(rows[i]).Accepted?) ==> ctx.totalAvailable <= ctx.allBooks
  {
    CleanRowsBound(rows);
    IndexContext(|books|, TotalCopies(rows), AvailableCopies(rows))
  }

  // ---------------------------------------------------------------------------
  // BookListView.get_queryset
  // ---------------------------------------------------------------------------

  /** The filter `get_queryset` builds: each non-empty term adds one
      conjunct, a substring test on its field. */
  predicate Matches(b: Book, title: string, author: string)
  {
    (title == "" || Contains(b.title, title)) && (author == "" || Contains(b.authors, author))
  }

  function FilterBooks(s: seq<Book>, title: string, author: string): (r: seq<Book>)
    ensures |r| <= |s|
  {
    if s == [] then []
    else if Matches(s[0], title, author) then [s[0]] + FilterBooks(s[1..], title, author)
    else FilterBooks(s[1..], title, author)
  }

  /** The listing for a query: the title-ordered table, filtered. The
      `search_type` parameter is not read. */
  function Listing(books: seq<Book>, q: Query): seq<Book>
  {
    FilterBooks(OrderedByTitle(books), SearchTerm(q, "title"), SearchTerm(q, "author"))
  }

  /** `a` is `b` with some elements left out. */
  predicate IsSubsequence(a: seq<Book>, b: seq<Book>)
    decreases |b|
  {
    a == [] || (b != [] && ((a[0] == b[0] && IsSubsequence(a[1..], b[1..])) || IsSubsequence(a, b[1..])))
  }

  lemma {:induction false} FilterMembership(s: seq<Book>, title: string, author: string, b: Book)
    ensures b in FilterBooks(s, title, author) <==> b in s && Matches(b, title, author)
  {
    if s != [] {
      FilterMembership(s[1..], title, author, b);
      assert b in s <==> b == s[0] || b in s[1..];
    }
  }

  lemma {:induction false} FilterSubsequence(s: seq<Book>, title: string, author: string)
    ensures IsSubsequence(FilterBooks(s, title, author), s)
    ensures multiset(FilterBooks(s, title, author)) <= multiset(s)
  {
    if s != [] {
      FilterSubsequence(s[1..], title, author);
      var r := FilterBooks(s, title, author);
      assert s == [s[0]] + s[1..];
      if Matches(s[0], title, author) {
        assert r[0] == s[0] && r[1..] == FilterBooks(s[1..], title, author);
      }
    }
  }

  lemma {:induction false} FilterSorted(s: seq<Book>, title: string, author: string)
    requires TitleSorted(s)
    ensures TitleSorted(FilterBooks(s, title, author))
  {
    if s != [] {
      FilterSorted(s[1..], title, author);
      if Matches(s[0], title, author) {
        var t := FilterBooks(s[1..], title, author);
        forall k | 0 <= k < |t| ensures LexLe(s[0].title, t[k].title) {
          FilterMembership(s[1..], title, author, t[k]);
          var m :| 0 <= m < |s[1..]| && s[1..][m] == t[k];
          assert s[m + 1] == t[k];
        }
        var r := [s[0]] + t;
        forall i, j | 0 <= i < j < |r| ensures LexLe(r[i].title, r[j].title) {
          if i > 0 {
            assert r[i] == t[i - 1] && r[j] == t[j - 1];
          }
        }
      }
    }
  }

  lemma {:induction false} FilterAll(s: seq<Book>)
    ensures FilterBooks(s, "", "") == s
  {
    if s != [] {
      FilterAll(s[1..]);
      assert s == [s[0]] + s[1..];
    }
  }

  /** A book is listed exactly when it is in the table and matches every
      non-empty term. */
  lemma ListingMembership(books: seq<Book>, q: Query, b: Book)
    ensures b in Listing(books, q) <==>
      && b in books
      && (SearchTerm(q, "title") == "" || Contains(b.title, SearchTerm(q, "title")))
      && (SearchTerm(q, "author") == "" || Contains(b.authors, SearchTerm(q, "author")))
  {
    var ordered := OrderedByTitle(books);
    FilterMembership(ordered, SearchTerm(q, "title"), SearchTerm(q, "author"), b);
    assert b in ordered <==> b in multiset(ordered);
    assert b in books <==> b in multiset(books);
  }

  /** With no title and no author term, every book is listed, in title order. */
  lemma ListingWithoutTerms(books: seq<Book>, q: Query)
    requires SearchTerm(q, "title") == "" && SearchTerm(q, "author") == ""
    ensures Listing(books, q) == OrderedByTitle(books)
    ensures multiset(Listing(books, q)) == multiset(books)
  {
    FilterAll(OrderedByTitle(books));
  }

  /** Filtering only leaves books out: the listing is a subsequence of the
      title-ordered table, is itself in title order, and repeats no row more
      often than the table holds it. */
  lemma ListingOrdered(books: seq<Book>, q: Query)
    ensures IsSubsequence(Listing(books, q), OrderedByTitle(books))
    ensures TitleSorted(Listing(books, q))
    ensures multiset(Listing(books, q)) <= multiset(books)
  {
    var ordered := OrderedByTitle(books);
    FilterSubsequence(ordered, SearchTerm(q, "title"), SearchTerm(q, "author"));
    FilterSorted(ordered, SearchTerm(q, "title"), SearchTerm(q, "author"));
  }

  /** The `search_type` parameter has no effect on the listing. */
  lemma ListingIgnoresSearchType(books: seq<Book>, q: Query, searchType: string)
    ensures Listing(books, q["search_type" := searchType]) == Listing(books, q)
  {
    assert SearchTerm(q["search_type" := searchType], "title") == SearchTerm(q, "title");
    assert SearchTerm(q["search_type" := searchType], "author") == SearchTerm(q, "author");
  }

  // ---------------------------------------------------------------------------
  // books_search
  // ---------------------------------------------------------------------------

  datatype SearchResponse = RenderSearchForm | Redirect(location: string)

  /** `books_search`: any `author` or `title` parameter, even an empty one,
      redirects to the listing with both terms in the query; otherwise the
      form is shown. `booksPath` is the path the "books" route reverses to. */
  function BooksSearch(booksPath: string, q: Query): (r: SearchResponse)
    ensures r.Redirect? <==> "author" in q || "title" in q
    ensures r.Redirect? ==> IsPrefix(booksPath + "?", r.location)
  {
    if "author" in q || "title" in q then
      Redirect(booksPath + "?author=" + SearchTerm(q, "author") + "&title=" + SearchTerm(q, "title"))
    else
      RenderSearchForm
  }

  /** The query component a browser sends for a search redirect location. */
  lemma RedirectQueryComponent(booksPath: string, author: string, title: string)
    requires '?' !in booksPath && '#' !in booksPath
    requires ValueSafe(author) && ValueSafe(title)
    ensures QueryOf(booksPath + "?author=" + author + "&title=" + title) == "author=" + author + "&title=" + title
  {
    var qs := "author=" + author + "&title=" + title;
    var location := booksPath + "?author=" + author + "&title=" + title;
    assert '#' !in qs by {
      forall i | 0 <= i < |qs| ensures qs[i] != '#' {
        if 7 <= i < 7 + |author| {
          assert qs[i] == author[i - 7];
        } else if 14 + |author| <= i {
          assert qs[i] == title[i - 14 - |author|];
        }
      }
    }
    assert location == booksPath + ['?'] + qs;
    NoHashInConcat(booksPath + ['?'], qs);
    assert BeforeFragment(location) == location;
    IndexOfAfter(booksPath, '?', qs);
  }

  /** The query the listing receives when a browser follows a search
      redirect built from `author` and `title` as they stand. */
  lemma RedirectQueryParses(booksPath: string, author: string, title: string)
    requires '?' !in booksPath && '#' !in booksPath
    requires ValueSafe(author) && ValueSafe(title)
    ensures ParseQuery(QueryOf(booksPath + "?author=" + author + "&title=" + title))
         == map["author" := Unescape(author), "title" := Unescape(title)]
  {
    var location := booksPath + "?author=" + author + "&title=" + title;
    var qs := "author=" + author + "&title=" + title;
    RedirectQueryComponent(booksPath, author, title);
    assert QueryOf(location) == qs;
    SearchParameterNames();
    ParseTwoFields("author", author, "title", title);
    SearchQueryLayout(author, title);
    assert ParseQuery(qs) == map["author" := Unescape(author)]["title" := Unescape(title)];
  }

  /** Following the redirect reproduces the search: when neither term holds
      one of the characters & # % +, the listing reached receives the same
      terms and shows the same books as a direct listing request. */
  lemma SearchRedirectKeepsTerms(booksPath: string, q: Query, books: seq<Book>)
    requires '?' !in booksPath && '#' !in booksPath
    requires Plain(SearchTerm(q, "author")) && Plain(SearchTerm(q, "title"))
    requires "author" in q || "title" in q
    ensures var followed := ParseQuery(QueryOf(BooksSearch(booksPath, q).location));
      && SearchTerm(followed, "author") == SearchTerm(q, "author")
      && SearchTerm(followed, "title") == SearchTerm(q, "title")
      && Listing(books, followed) == Listing(books, q)
  {
    var author, title := SearchTerm(q, "author"), SearchTerm(q, "title");
    PlainIsValueSafe(author);
    PlainIsValueSafe(title);
    UnescapePlain(author);
    UnescapePlain(title);
    RedirectQueryParses(booksPath, author, title);
  }

  /** As written, a '#' in a term is not escaped, so the browser keeps
      everything after it as the fragment: a search for the title "C#"
      reaches the listing as a search for the title "C". */
  lemma HashTermTruncated(booksPath: string, books: seq<Book>)
    requires '?' !in booksPath && '#' !in booksPath
    ensures var followed := ParseQuery(QueryOf(BooksSearch(booksPath, map["title" := "C#"]).location));
      && SearchTerm(followed, "title") == "C"
      && Listing(books, followed) == Listing(books, map["title" := "C"])
  {
    HashCutsLocation(booksPath);
    var shortQ := map["title" := "C"];
    assert SearchTerm(shortQ, "author") == "" && SearchTerm(shortQ, "title") == "C";
    assert Plain("C") && Plain("");
    SearchRedirectKeepsTerms(booksPath, shortQ, books);
  }

  /** The location for "C#" is the location for "C" followed by a fragment. */
  lemma HashCutsLocation(booksPath: string)
    requires '?' !in booksPath && '#' !in booksPath
    ensures QueryOf(BooksSearch(booksPath, map["title" := "C#"]).location)
         == QueryOf(BooksSearch(booksPath, map["title" := "C"]).location)
  {
    var location := BooksSearch(booksPath, map["title" := "C#"]).location;
    var short := BooksSearch(booksPath, map["title" := "C"]).location;
    assert SearchTerm(map["title" := "C#"], "author") == "";
    assert short == booksPath + "?author=" + "" + "&title=" + "C";
    assert location == booksPath + "?author=" + "" + "&title=" + "C#";
    assert "C#" == "C" + "#";
    assert location == short + "#" + "";
    NoHashInConcat(booksPath, "?author=" + "" + "&title=" + "C");
    assert booksPath + ("?author=" + "" + "&title=" + "C") == short;
    BeforeFragmentCut(short, "");
    assert BeforeFragment(location) == BeforeFragment(short);
  }

  /** "Clean Code" matches the title term "C" and not "C#". */
  lemma CleanCodeListings(cleanCode: Book)
    requires cleanCode.title == "Clean Code"
    ensures Listing([cleanCode], map["title" := "C#"]) == []
    ensures Listing([cleanCode], map["title" := "C"]) == [cleanCode]
  {
    assert OrderedByTitle([cleanCode]) == [cleanCode];
    assert Contains(cleanCode.title, "C") by {
      assert IsPrefix("C", cleanCode.title);
    }
    assert !Contains(cleanCode.title, "C#") by {
      assert "C#"[1] == '#' && '#' !in cleanCode.title;
      MissingCharNotContained(cleanCode.title, "C#", 1);
    }
  }

  /** The discrepancy end to end: searching for the title "C#" through the
      search form lists "Clean Code", which a direct search for "C#" does not. */
  lemma SearchRedirectTruncatesAtHash(booksPath: string)
    requires '?' !in booksPath && '#' !in booksPath
    ensures var q := map["title" := "C#"];
      var followed := ParseQuery(QueryOf(BooksSearch(booksPath, q).location));
      var cleanCode := Book(1, "9780132350884", "Robert C. Martin", 2008, "Clean Code", "English");
      && SearchTerm(followed, "title") == "C"
      && Listing([cleanCode], q) == []
      && Listing([cleanCode], followed) == [cleanCode]
  {
    var cleanCode := Book(1, "9780132350884", "Robert C. Martin", 2008, "Clean Code", "English");
    HashTermTruncated(booksPath, [cleanCode]);
    CleanCodeListings(cleanCode);
  }

  /** The search redirect with each term escaped ("%23" for '#', and so on
      for & = % +). */
  function BooksSearchEscaped(booksPath: string, q: Query): (r: SearchResponse)
    ensures r.Redirect? <==> "author" in q || "title" in q
    ensures r.Redirect? ==> IsPrefix(booksPath + "?", r.location)
  {
    if "author" in q || "title" in q then
      Redirect(booksPath + "?author=" + Escape(SearchTerm(q, "author"))
                         + "&title=" + Escape(SearchTerm(q, "title")))
    else
      RenderSearchForm
  }

  /** With escaping, following the redirect reproduces the search for every
      pair of terms. */
  lemma EscapedSearchRedirectKeepsTerms(booksPath: string, q: Query, books: seq<Book>)
    requires '?' !in booksPath && '#' !in booksPath
    requires "author" in q || "title" in q
    ensures var followed := ParseQuery(QueryOf(BooksSearchEscaped(booksPath, q).location));
      && SearchTerm(followed, "author") == SearchTerm(q, "author")
      && SearchTerm(followed, "title") == SearchTerm(q, "title")
      && Listing(books, followed) == Listing(books, q)
  {
    var author, title := SearchTerm(q, "author"), SearchTerm(q, "title");
    EscapeNoSeparators(author);
    EscapeNoSeparators(title);
    UnescapeEscape(author);
    UnescapeEscape(title);
    RedirectQueryParses(booksPath, Escape(author), Escape(title));
  }

  // ---------------------------------------------------------------------------
  // wishlist and borrow
  // ---------------------------------------------------------------------------

  datatype ServerError = BookDoesNotExist | WishlistIntegrityError

  datatype Response = RedirectTo(location: string) | Failed(error: ServerError)

  /** `wishlist`: looks the book up (an unknown id raises DoesNotExist) and
      inserts the pair (user, book) (an existing pair raises IntegrityError);
      on success redirects to the listing. It never removes a pair. */
  method Wishlist(db: Database, booksPath: string, user: int, bookId: int) returns (r: Response)
    requires db.Valid()
    modifies db
    ensures db.Valid()
    ensures db.books == old(db.books) && db.availabilities == old(db.availabilities)
    ensures !HasBook(db.books, bookId) ==> r == Failed(BookDoesNotExist) && db.wishlists == old(db.wishlists)
    ensures HasBook(db.books, bookId) && WishlistItem(user, bookId) in old(db.wishlists) ==>
      r == Failed(WishlistIntegrityError) && db.wishlists == old(db.wishlists)
    ensures HasBook(db.books, bookId) && WishlistItem(user, bookId) !in old(db.wishlists) ==>
      && r == RedirectTo(booksPath)
      && db.wishlists == old(db.wishlists) + [WishlistItem(user, bookId)]
      && forall w :: w in db.wishlists <==> w in old(db.wishlists) || w == WishlistItem(user, bookId)
  {
    var book := FindBook(db.books, bookId);
    if book.None? {
      return Failed(BookDoesNotExist);
    }
    var created := db.CreateWishlist(user, book.value.bookId);
    if created.IntegrityError? {
      return Failed(WishlistIntegrityError);
    }
    r := RedirectTo(booksPath);
  }

  /** `borrow`: redirects to the listing and touches no table. */
  method Borrow(db: Database, booksPath: string, user: int, bookId: int) returns (r: Response)
    ensures r == RedirectTo(booksPath)
    ensures unchanged(db)
  {
    r := RedirectTo(booksPath);
  }
}
