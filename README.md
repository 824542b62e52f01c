# Library catalogue: a Dafny model

This project models the core of a small Django library catalogue.

- **Views** (`views.dfy`, module `Views`):
  - the landing page's three totals (`index`);
  - the listing's title/author filter (`BookListView.get_queryset`);
  - the search form's redirect (`books_search`);
  - the wishlist insert (`wishlist`);
  - the borrow action, which does nothing (`borrow`).
- **Entities and constraints** (`models.dfy`, module `Models`):
  - the `Book`, `Availability` and `Wishlist` rows;
  - the field validators, `Availability.clean` and `Book.__str__`;
  - the default title ordering;
  - the database tables with the integrity constraints enforced on insert, as a `Database` class whose `create` methods append rows.
- **Access-control middleware** (`redirector.dfy`, module `Redirector`):
  - `RedirectUnauthenticatedMiddleware` is a class with the persistent login-redirect flag as a mutable field;
  - a trace semantics (`Step`, `Run`) gives the flag's meaning across a sequence of calls.
- **Helpers**:
  - `text.dfy` (module `Text`): prefix and substring tests, code-point ordering of strings, and decimal rendering of integers with its round trip;
  - `querystring.dfy` (module `QueryString`): how a browser and Django turn a redirect location back into GET parameters. It drops the fragment at the first `#`, splits on `&` and the first `=`, decodes `+` and `%XX`, and lets a later value win. It also defines an escaping function for the corrected redirect.

Modelling choices:
- **Substring match:** `__contains` is modelled as case-sensitive substring containment (`Text.Contains`).
- **Title order:** it is code-point order (`Text.LexLe`), the database's binary collation.
- **Validators vs. insert:** `Model.objects.create` does not run the field validators or `clean`. So year range, maximum lengths and `clean` are separate functions, not table invariants. On insert, the tables enforce:
  - primary keys and the unique ISBN;
  - the non-negative `book_id`;
  - foreign keys;
  - the one-to-one Availability key;
  - the composite Wishlist key.
- **Upper publication year:** its bound is computed once, when `catalog/models.py` is imported. It is a parameter (`importYear`).
- **Framework values as parameters:**
  - the path `reverse("books")` yields (`booksPath`);
  - the two reversed public paths, `STATIC_URL` and `LOGIN_REDIRECT_URL`;
  - whether the user is authenticated;
  - the requesting user's id.
- **Passing a request on:** a call to `get_response` becomes the marker response `Forwarded`.

The model follows the code where the code and its tests disagree:
- **Search:** the listing always ANDs the two terms and never reads `search_type`. The tests in `catalog/tests/test_views.py` also expect an OR search, and expect the search redirect to carry `search_type`.
- **Landing page:** it has no borrow-based statistics (`total_with_customer`, `average_lending`), which the tests expect.
- **Listing annotation:** the listing carries no `is_wishlisted`/`is_borrowed` flags, which the tests expect.
- **Book text:** the `Book.__str__` test in `catalog/tests/test_models.py` expects a ", Book ID" suffix the code does not produce.
- **Search form methods:** `books_search` accepts every HTTP method, so a POST shows the form; `catalog/tests/test_views.py` expects a 405 for it.
- **Borrows:** both test files import a `Borrows` model that `catalog/models.py` does not define.

The wishlist view never removes a pair, and the borrow view changes nothing. No test in `catalog/tests` calls either view.

## Model

| member | source | states |
|---|---|---|
| Text.ContainsIff | catalog/views.py:46-50 | the `__contains` scan succeeds exactly when the term occurs at some position of the field |
| Text.LexLeTotal | catalog/models.py:27 | any two titles are comparable in the ordering |
| Text.LexLeTransitive | catalog/models.py:27 | the title ordering is transitive |
| Text.LexLeAntisymmetric | catalog/models.py:27 | two titles ordered both ways are equal |
| Text.IntToStringRoundTrip | catalog/models.py:22 | the decimal rendering of a year (with its minus sign) parses back to the same year |
| Models.BookFieldErrors | catalog/models.py:9-19 | a year is valid iff -1000 <= year <= import year + 1 and it lies in the backend's integer range; `book_id` iff 0 <= id <= the backend's largest integer; ISBN iff at most 13 characters; no field fails iff all six field constraints hold |
| Models.Clean | catalog/models.py:42-46 | rejects exactly when total copies < available copies; equal counts are accepted |
| Models.BookStr | catalog/models.py:21-22 | `str(book)` is the title, then " by " and the authors, then " (", the year in decimal and ")"; its length is title + authors + year + 7 |
| Models.BookStrYear | catalog/models.py:21-22 | `str(book)` ends with the year in parentheses, and that year reads back as `publication_year` |
| Models.InsertByTitle | catalog/models.py:27 | inserting a book adds exactly that book to the multiset of rows |
| Models.InsertByTitleSorted | catalog/models.py:27 | inserting into a title-sorted sequence keeps it title-sorted |
| Models.OrderedByTitle | catalog/models.py:27 | `Book.objects.all()` is sorted by title ascending and is a permutation of the stored rows |
| Models.FindBook | catalog/views.py:101 | `Book.objects.get(book_id=id)` finds a stored book with that id, and finds none exactly when no row has that id |
| Models.FindBookUnique | catalog/models.py:9 | in a table with a primary key on `book_id`, looking a stored book's id up returns that book |
| Models.AtMostOneAvailability | catalog/models.py:33-38 | with the book as Availability's primary key, each book has at most one Availability row |
| Models.Database.constructor | catalog/models.py:8-67 | the empty tables satisfy every integrity constraint |
| Models.Database.CreateBook | catalog/models.py:9-10 | the insert succeeds iff `book_id` >= 0, the id is new and the ISBN is new; it appends exactly the book, and otherwise leaves every table unchanged; the constraints are preserved |
| Models.Database.CreateAvailability | catalog/models.py:33-38 | the insert succeeds iff the book exists and has no Availability row yet; it appends exactly that row, and otherwise nothing changes; the constraints are preserved |
| Models.Database.CreateWishlist | catalog/models.py:56-67 | the insert succeeds iff the book exists and the (user, book) pair is new; it appends exactly that pair, and otherwise nothing changes; the constraints are preserved |
| Views.SumsAppend | catalog/views.py:22-27 | adding an Availability row adds its counts to both sums |
| Views.CleanRowsBound | catalog/views.py:22-27 | when every row passes `clean`, `total_available` <= `all_books` |
| Views.NonNegativeRowsBound | catalog/views.py:22-27 | with non-negative rows where available <= total, 0 <= `total_available` <= `all_books` |
| Views.Index | catalog/views.py:20-34 | `num_books` is the number of Book rows; `all_books` is the sum of `total_copies` and `total_available` the sum of `available_copies` over all Availability rows, both 0 with no rows; with clean rows, `total_available` <= `all_books` |
| Views.FilterBooks | catalog/views.py:44-52 | filtering never yields more rows than it is given |
| Views.FilterMembership | catalog/views.py:44-52 | a book survives the filter iff it is in the input and matches every non-empty term |
| Views.FilterSubsequence | catalog/views.py:52 | the filter's result is a subsequence of its input, with no row more often than in the input |
| Views.FilterSorted | catalog/views.py:52 | filtering a title-sorted sequence keeps it title-sorted |
| Views.FilterAll | catalog/views.py:46-50 | with both terms empty the filter returns its input unchanged |
| Views.ListingMembership | catalog/views.py:41-52 | a book is listed iff it is stored, the title term is empty or occurs in its title, and the author term is empty or occurs in its authors |
| Views.ListingWithoutTerms | catalog/views.py:41-52 | with `title` and `author` absent or empty, the listing is every book in title order |
| Views.ListingOrdered | catalog/views.py:52 | the listing is a subsequence of the title-ordered table, is title-sorted, and adds or duplicates no book |
| Views.ListingIgnoresSearchType | catalog/views.py:41-43 | setting `search_type` to any value leaves the listing unchanged |
| Views.BooksSearch | catalog/views.py:55-64 | redirects iff the query has an `author` or a `title` key, even an empty one, and the location is the listing's path followed by "?"; otherwise shows the form |
| Views.RedirectQueryParses | catalog/views.py:61 | when the terms hold no `&` or `#` (a `=` is allowed), the followed redirect location decodes to exactly {author: author, title: title}, decoded |
| Views.SearchRedirectKeepsTerms | catalog/views.py:55-61 | for terms without `& # % +`, following the redirect reaches a listing with the same terms and the same books |
| Views.HashTermTruncated | catalog/views.py:61 | following the redirect for the title "C#" reaches the listing with the title term "C" |
| Views.SearchRedirectTruncatesAtHash | catalog/views.py:61 | for the title "C#", the listing reached through the redirect shows "Clean Code", while a direct "C#" listing shows nothing |
| Views.BooksSearchEscaped | catalog/views.py:55-64 | the corrected view redirects under the same condition as `books_search`, to the listing's path followed by "?" |
| Views.EscapedSearchRedirectKeepsTerms | catalog/views.py:61 | with escaped terms, following the redirect reproduces both terms and the listing for every query |
| Views.Wishlist | catalog/views.py:98-103 | an unknown `book_id` fails with no change; an existing pair fails with no change; otherwise exactly the pair (user, book) is added, every other pair is kept, and the response redirects to the listing |
| Views.Borrow | catalog/views.py:106-108 | redirects to the listing and changes no table |
| Redirector.RedirectUnauthenticatedMiddleware.constructor | the_library/middleware/redirector.py:6-15 | the flag starts false; the public paths are the landing page and the admin login; the only public prefix is the static URL; these are constants and never change |
| Redirector.RedirectUnauthenticatedMiddleware.IsPublic | the_library/middleware/redirector.py:20-21 | a path is public iff it equals a public path or starts with a public prefix |
| Redirector.RedirectUnauthenticatedMiddleware.Call | the_library/middleware/redirector.py:17-32 | anonymous + non-public: redirect to the landing page, flag set; anonymous + public: forwarded, flag unchanged; authenticated with flag set: redirect to `LOGIN_REDIRECT_URL`, flag cleared; authenticated without it: forwarded, flag stays false |
| Redirector.RunFlag | the_library/middleware/redirector.py:23-29 | after any sequence of calls the flag is set iff some anonymous request was turned away with no authenticated request since, or it was set at the start and no authenticated request came |
| Redirector.RunResponse | the_library/middleware/redirector.py:17-32 | the k-th response of a sequence of calls is one call's response under the flag the first k calls left |
| Redirector.AuthenticatedResponse | the_library/middleware/redirector.py:26-31 | an authenticated request is redirected to the post-login page iff a post-login redirect is owed, and is forwarded otherwise |
| Redirector.LandingPageServed | the_library/middleware/redirector.py:9-12 | an anonymous request for the landing page is forwarded and leaves the flag alone, so the redirect does not loop |

## Left out

- `filldb` (catalog/views.py:67-95): reads a CSV file and draws random counts; this is I/O and randomness.
- Rendering and routing:
  - template rendering and `logout`;
  - the 405 responses that `require_http_methods` gives `index`, `wishlist` and `borrow` (`books_search` has no such decorator);
  - the pagination of `BookListView` (20 per page);
  - the authentication and session machinery. These are framework code, not code of these files.
- `catalog/urls.py` and `catalog/forms.py` are not part of this model; they only declare routes and form fields.
- `AmazonLink` and the `__str__` of `Availability` and `Wishlist` carry no logic the views use.
- The `print` of the request path in the middleware is output only.
- Concurrency: several requests sharing the middleware's flag, or racing on the same insert, are not modelled. Calls are a sequential trace.
- Text.Contains: SQLite's case-insensitive `LIKE` for ASCII letters is not modelled; containment is case-sensitive.
- Models.BookFieldErrors: covers the validators declared on the fields and the backend's integer-range validators (as the parameters `minInteger` and `maxInteger`). It leaves out:
  - `full_clean`'s blank checks;
  - its uniqueness queries;
  - the order of its messages.
- Models.Database.CreateBook: it reports only the first violated constraint, in a fixed order; the database's own reporting order is not modelled. It does not enforce `max_length`, because SQLite does not. It does not reject a `book_id` beyond the backend's integer range either; the insert then fails in the database driver, which is not modelled.
- Models.Database: Availability counts and years are not constrained by the tables, because `create` does not run the validators.
- Views.Wishlist: an anonymous user (no user id) is not modelled. The middleware turns such requests away before the view runs.
- Views.BooksSearch: `redirect`'s IRI-to-URI conversion and the UTF-8 decoding of `%XX` codes of 0x80 and above are not modelled. Terms are treated as code points.
- Views.Index: the sums are unbounded integers. The database's integer overflow is not modelled.
- Behaviour only the tests expect, and the code lacks:
  - OR search, and `search_type` in the search redirect;
  - the `total_with_customer` and `average_lending` totals;
  - the `is_wishlisted`/`is_borrowed` annotation;
  - the `Borrows` model.

## Findings

| source | as written | input that shows it | evidently intended | confidence | as-written member | corrected member |
|---|---|---|---|---|---|---|
| catalog/views.py:61 | the redirect location is built by pasting the raw terms after `?author=` and `&title=` | title "C#": the browser drops "#" and all after it, so the listing searches for "C" and shows "Clean Code"; a direct search for "C#" shows nothing (also `&`, `+`, `%` in a term) | each term escaped, so the listing receives exactly the terms that were typed | not executed | Views.SearchRedirectTruncatesAtHash | Views.EscapedSearchRedirectKeepsTerms |
