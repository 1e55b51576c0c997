/**
 * The books API: resolving a book's type, the URL-signing guards, the page-read
 * gateway with its flat per-type ceiling and on-demand build, and the book list
 * with its per-book metrics.
 */
module BooksViews {
  import opened Wrappers
  import opened Models
  import opened Sets
  import PageBuild

  /**
   * `_get_book_type(book)`: the `book_type` attribute when set, else a `type`
   * attribute when set, else "premium"/"free" from an `is_premium` attribute,
   * else "free".
   */
  function GetBookType(b: Book): (t: string)
    ensures t != ""
    ensures b.bookType != "" ==> t == b.bookType
    ensures b.bookType == "" && b.legacyType.Some? && b.legacyType.value != "" ==> t == b.legacyType.value
    ensures b.bookType == "" && (b.legacyType.None? || b.legacyType.value == "") ==>
      t == (if b.isPremium == Some(true) then "premium" else "free")
  {
    if b.bookType != "" then b.bookType
    else if b.legacyType.Some? && b.legacyType.value != "" then b.legacyType.value
    else if b.isPremium.Some? then (if b.isPremium.value then "premium" else "free")
    else "free"
  }

  /** On the books.models schema, which has neither `type` nor `is_premium`, a blank type reads as "free". */
  lemma SchemaBookType(b: Book)
    requires b.legacyType.None? && b.isPremium.None?
    ensures GetBookType(b) == (if b.bookType == "" then "free" else b.bookType)
    ensures GetBookType(b) == "premium" <==> b.bookType == "premium"
  {
  }

  /** `_filefield_key(f)`: the field's storage name, or "" when there is none. */
  function FilefieldKey(name: Option<string>): (key: string)
    ensures name.None? ==> key == ""
    ensures name.Some? ==> key == name.value
  {
    name.GetOr("")
  }

  /**
   * `_presign_get(key, expires)`: "" without a key or without a bucket name; only
   * then is the signer (an S3 client call) asked for a URL.
   */
  function PresignGet(key: string, bucket: string, expires: nat, sign: (string, string, nat) -> string): (url: string)
    ensures key == "" || bucket == "" ==> url == ""
    ensures key != "" && bucket != "" ==> url == sign(bucket, key, expires)
  {
    if key == "" then "" else if bucket == "" then "" else sign(bucket, key, expires)
  }

  /** The default lifetime of a presigned URL, in seconds. */
  const PresignExpiry: nat := 900

  /** The "unlimited" ceiling a non-premium book gets while its page count is unknown. */
  const UnknownTotalCeiling: nat := 999999

  /**
   * `allowed_until_page` in `read_page_api`: a flat 10 pages for premium whatever the
   * book's length; a non-premium book may read all its pages.
   */
  function ApiCeiling(bookType: string, totalPages: nat): (c: nat)
    ensures bookType == "premium" ==> c == 10
    ensures bookType != "premium" && totalPages > 0 ==> c == totalPages
    ensures bookType != "premium" && totalPages == 0 ==> c == UnknownTotalCeiling
  {
    if bookType == "premium" then 10 else if totalPages != 0 then totalPages else UnknownTotalCeiling
  }

  /** A non-premium book with a known length lets through exactly the pages it has. */
  lemma FreeReadsWholeBook(bookType: string, totalPages: nat, n: nat)
    requires bookType != "premium" && totalPages > 0
    ensures n <= ApiCeiling(bookType, totalPages) <==> n <= totalPages
  {
  }

  /** `book.cover.name` turned into a URL by the storage, or "" when the book has no cover. */
  function CoverUrl(b: Book, url: string -> string): (u: string)
    ensures b.cover == "" ==> u == ""
    ensures b.cover != "" ==> u == url(b.cover)
  {
    if b.cover == "" then "" else url(b.cover)
  }

  /** The exits of `read_page_api`. */
  datatype PageApiResponse =
    | AuthRequired
    | BookNotFound
    | LimitReached(allowedUntilPage: nat, totalPages: nat)
    | PagesNotReady
    | PageNotFound(pageNumber: nat, totalPages: nat)
    | PageServed(bookId: BookId, title: string, bookType: string, pageNumber: nat, totalPages: nat,
                 allowedUntilPage: nat, pageImage: string, coverUrl: string)
  {
    function Status(): int {
      match this
      case AuthRequired => 401
      case BookNotFound => 404
      case LimitReached(_, _) => 403
      case PagesNotReady => 409
      case PageNotFound(_, _) => 404
      case PageServed(_, _, _, _, _, _, _, _) => 200
    }
  }

  /**
   * `read_page_api(request, book_id, page_number)`. Authentication, then the book,
   * then the flat ceiling (before any build), then an on-demand build when the book
   * has no rows (any build error is 409), then the row lookup. `total_pages` in the
   * 403 and 404 answers is the value read before the build; the 200 answer re-reads it.
   */
  method ReadPageApi(
    db: Database, store: ObjectStore, config: PageBuild.StorageConfig, pdf: PageBuild.PdfBlob,
    url: string -> string, authenticated: bool, bookId: BookId, pageNumber: nat)
    returns (r: PageApiResponse)
    requires db.Valid()
    modifies db`pages, db`books, store`objects
    ensures db.Valid()
    ensures RowsBacked(old(db.pages), old(store.objects)) ==> RowsBacked(db.pages, store.objects)
    ensures !authenticated ==> r == AuthRequired
    ensures authenticated && bookId !in old(db.books) ==> r == BookNotFound
    ensures authenticated && bookId in old(db.books) ==>
      var book := old(db.books[bookId]);
      var total := book.totalPages.GetOr(0);
      var ceiling := ApiCeiling(GetBookType(book), total);
      pageNumber > ceiling ==> r == LimitReached(ceiling, total)
    ensures r.AuthRequired? || r.BookNotFound? || r.LimitReached? ==>
      db.pages == old(db.pages) && db.books == old(db.books) && store.objects == old(store.objects)
    ensures PageCount(old(db.pages), bookId) > 0 ==>
      db.pages == old(db.pages) && db.books == old(db.books) && store.objects == old(store.objects)
    ensures authenticated && bookId in old(db.books) ==>
      var book := old(db.books[bookId]);
      var total := book.totalPages.GetOr(0);
      var t := GetBookType(book);
      var ceiling := ApiCeiling(t, total);
      pageNumber <= ceiling ==>
        && (r.PagesNotReady? <==>
              PageCount(old(db.pages), bookId) == 0 && PageBuild.BuildFails(bookId, book, config, pdf, store.refused))
        && (r.PagesNotReady? ==> db.pages == old(db.pages) && db.books == old(db.books))
        && (!r.PagesNotReady? ==>
              && bookId in db.books
              && match FindPage(db.pages, bookId, pageNumber)
                 case None => r == PageNotFound(pageNumber, total)
                 case Some(p) =>
                   r == PageServed(bookId, book.title, t, p.pageNumber, db.books[bookId].totalPages.GetOr(0),
                                   ceiling, url(p.imageKey), CoverUrl(book, url)))
    ensures authenticated && bookId in old(db.books) ==>
      var book := old(db.books[bookId]);
      var ceiling := ApiCeiling(GetBookType(book), book.totalPages.GetOr(0));
      pageNumber <= ceiling && PageCount(old(db.pages), bookId) == 0 ==>
        && store.objects == PageBuild.ObjectsAfterBuild(bookId, book, config, pdf, store.refused, old(store.objects))
        && (!r.PagesNotReady? ==>
              && pdf.Readable?
              && db.pages == old(db.pages) + PageBuild.RowsFor(PageBuild.KeyPrefix(config.location), bookId,
                                                               PageBuild.RenderPdfPages(pdf.doc))
              && db.books == old(db.books)[bookId := book.(totalPages := Some(|pdf.doc.rasters|))])
  {
    if !authenticated {
      return AuthRequired;
    }
    if bookId !in db.books {
      return BookNotFound;
    }
    var book := db.books[bookId];
    var bookType := GetBookType(book);
    var totalPages := book.totalPages.GetOr(0);
    var allowedUntil := ApiCeiling(bookType, totalPages);
    if pageNumber > allowedUntil {
      return LimitReached(allowedUntil, totalPages);
    }
    if PageCount(db.pages, bookId) == 0 {
      var built := PageBuild.BuildPagesIfMissing(db, store, bookId, config, pdf);
      if built.Failure? {
        return PagesNotReady;
      }
    }
    var found := FindPage(db.pages, bookId, pageNumber);
    if found.None? {
      return PageNotFound(pageNumber, totalPages);
    }
    var page := found.value;
    var pageUrl := url(page.imageKey);
    var coverUrl := CoverUrl(book, url);
    return PageServed(bookId, book.title, bookType, page.pageNumber, db.books[bookId].totalPages.GetOr(0),
                      allowedUntil, pageUrl, coverUrl);
  }

  /** One entry of the book list. */
  datatype BookSummary = BookSummary(
    id: BookId,
    title: string,
    author: string,
    description: string,
    genre: string,
    bookType: string,
    cover: string,
    createdAt: int,
    ratingsCount: nat,
    readersCount: nat,
    activeReaders: nat)

  /** The rating rows of a book. */
  function RatingsOf(ratings: map<(UserId, BookId), Rating>, b: BookId): set<(UserId, BookId)> {
    set k | k in ratings && k.1 == b
  }

  /** The distinct users with a progress row for a book updated at or after `since`. */
  function ReadersOf(progress: map<(UserId, BookId), Progress>, b: BookId, since: Option<int>): set<UserId> {
    set k | k in progress && k.1 == b && (since.None? || progress[k].updatedAt >= since.value) :: k.0
  }

  /** `Rating.objects.values("book_id").annotate(cnt=Count("id"))` as a map: only rated books appear. */
  function RatingCounts(ratings: map<(UserId, BookId), Rating>): (m: map<BookId, nat>)
    ensures forall b | b in m :: m[b] == |RatingsOf(ratings, b)|
    ensures forall k | k in ratings :: k.1 in m
  {
    map b | b in (set k | k in ratings :: k.1) :: |RatingsOf(ratings, b)|
  }

  /** The readers aggregates: books with at least one (recent enough) progress row, and their distinct users. */
  function ReaderCounts(progress: map<(UserId, BookId), Progress>, since: Option<int>): (m: map<BookId, nat>)
    ensures forall b | b in m :: m[b] == |ReadersOf(progress, b, since)|
    ensures forall k | k in progress && (since.None? || progress[k].updatedAt >= since.value) :: k.1 in m
  {
    map b | b in (set k | k in progress && (since.None? || progress[k].updatedAt >= since.value) :: k.1) ::
      |ReadersOf(progress, b, since)|
  }

  /** `aggregate_map.get(book.id, 0) or 0`. */
  function CountOrZero(m: map<BookId, nat>, b: BookId): nat {
    if b in m then m[b] else 0
  }

  /** The genre shown for a book: `genre`, else a `category` attribute, else "". */
  function Genre(b: Book): (g: string)
    ensures b.genre != "" ==> g == b.genre
    ensures b.genre == "" ==> g == "" || b.category == Some(g)
  {
    if b.genre != "" then b.genre
    else if b.category.Some? && b.category.value != "" then b.category.value
    else ""
  }

  lemma GenreFallback(b: Book)
    ensures Genre(b) == "" <==> b.genre == "" && (b.category.None? || b.category.value == "")
    ensures Genre(b) != "" ==> Genre(b) == b.genre || (b.genre == "" && b.category == Some(Genre(b)))
  {
  }

  /** The length of the "reading now" window, in seconds. */
  const ActiveWindow: int := 24 * 60 * 60

  function Summarize(b: Book, url: string -> string, ratingCounts: map<BookId, nat>,
                     readers: map<BookId, nat>, active: map<BookId, nat>): (s: BookSummary)
    ensures s.id == b.id && s.title == b.title && s.author == b.author && s.description == b.description
    ensures s.createdAt == b.createdAt && s.genre == Genre(b) && s.bookType == GetBookType(b) && s.bookType != ""
    ensures s.cover == CoverUrl(b, url)
    ensures b.id in ratingCounts ==> s.ratingsCount == ratingCounts[b.id]
    ensures b.id !in ratingCounts ==> s.ratingsCount == 0
    ensures b.id in readers ==> s.readersCount == readers[b.id]
    ensures b.id !in readers ==> s.readersCount == 0
    ensures b.id in active ==> s.activeReaders == active[b.id]
    ensures b.id !in active ==> s.activeReaders == 0
  {
    BookSummary(b.id, b.title, b.author, b.description, Genre(b), GetBookType(b), CoverUrl(b, url), b.createdAt,
                CountOrZero(ratingCounts, b.id), CountOrZero(readers, b.id), CountOrZero(active, b.id))
  }

  /**
   * Defaulting a missing aggregate entry to 0 gives the true count: a book absent
   * from an aggregate map has no rows to count.
   */
  lemma {:induction false} SummaryCounts(b: Book, url: string -> string,
                                         ratings: map<(UserId, BookId), Rating>,
                                         progress: map<(UserId, BookId), Progress>, now: int)
    ensures var s := Summarize(b, url, RatingCounts(ratings), ReaderCounts(progress, None),
                               ReaderCounts(progress, Some(now - ActiveWindow)));
      s.ratingsCount == |RatingsOf(ratings, b.id)|
      && s.readersCount == |ReadersOf(progress, b.id, None)|
      && s.activeReaders == |ReadersOf(progress, b.id, Some(now - ActiveWindow))|
  {
    if b.id !in RatingCounts(ratings) {
      assert RatingsOf(ratings, b.id) == {};
    }
    if b.id !in ReaderCounts(progress, None) {
      assert ReadersOf(progress, b.id, None) == {};
    }
    if b.id !in ReaderCounts(progress, Some(now - ActiveWindow)) {
      assert ReadersOf(progress, b.id, Some(now - ActiveWindow)) == {};
    }
  }

  /** `Book.objects.all().order_by("-id")`: the primary keys, each once, largest first. */
  method NewestFirst(keys: set<BookId>) returns (ids: seq<BookId>)
    ensures forall i | 0 <= i < |ids| :: ids[i] in keys
    ensures forall b | b in keys :: b in ids
    ensures forall i, j | 0 <= i < j < |ids| :: ids[i] > ids[j]
  {
    ids := OrderByDescending(keys, (n: nat) => n as int);
  }

  /**
   * `books_list_api`: every book once, newest id first, each summarised with its
   * metrics from the aggregate maps computed up front.
   */
  method BooksListApi(db: Database, url: string -> string, now: int) returns (data: seq<BookSummary>)
    requires db.Valid()
    ensures forall i | 0 <= i < |data| :: data[i].id in db.books
    ensures forall b | b in db.books :: exists i | 0 <= i < |data| :: data[i].id == b
    ensures forall i, j | 0 <= i < j < |data| :: data[i].id > data[j].id
    ensures forall i | 0 <= i < |data| ::
      data[i] == Summarize(db.books[data[i].id], url, RatingCounts(db.ratings), ReaderCounts(db.progress, None),
                           ReaderCounts(db.progress, Some(now - ActiveWindow)))
  {
    var ratingCounts := RatingCounts(db.ratings);
    var readers := ReaderCounts(db.progress, None);
    var active := ReaderCounts(db.progress, Some(now - ActiveWindow));
    var ids := NewestFirst(db.books.Keys);
    data := [];
    for k := 0 to |ids|
      invariant |data| == k
      invariant forall i | 0 <= i < k :: data[i].id == ids[i]
      invariant forall i | 0 <= i < k :: data[i] == Summarize(db.books[ids[i]], url, ratingCounts, readers, active)
    {
      data := data + [Summarize(db.books[ids[k]], url, ratingCounts, readers, active)];
    }
    forall b | b in db.books
      ensures exists i | 0 <= i < |data| :: data[i].id == b
    {
      var i :| 0 <= i < |ids| && ids[i] == b;
      assert data[i].id == b;
    }
  }
}
