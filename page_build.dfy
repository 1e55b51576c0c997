/**
 * The pagination build: render a book's PDF into page images, upload each image
 * under a deterministic key, and create one BookPage row per page, at most once per book.
 */
module PageBuild {
  import opened Wrappers
  import opened Text
  import opened Models

  /** One page as the PDF rasteriser and the WEBP encoder leave it. */
  datatype Raster = Raster(webp: Bytes, width: nat, height: nat)

  /**
   * What rendering a PDF does: it produces `rasters` in document order and, when
   * `broken`, raises right after them (with `rasters == []` when the document does
   * not even open).
   */
  datatype PdfDocument = PdfDocument(rasters: seq<Raster>, broken: bool)

  /** Opening and reading the book's `pdf_file` from storage, before rendering starts. */
  datatype PdfBlob = Unreadable | Readable(doc: PdfDocument)

  /** One item the page generator yields: `(page_number, webp_bytes, width, height)`. */
  datatype RenderedPage = RenderedPage(number: nat, webp: Bytes, width: nat, height: nat)

  /** The storage settings the build reads: the bucket name and AWS_LOCATION ("" when unset). */
  datatype StorageConfig = StorageConfig(bucket: string, location: string)

  datatype BuildError =
    | MissingPdfFile
    | PdfUnreadable
    | MissingBucket
    | RenderFailed
    | UploadFailed(key: string)

  /**
   * The key prefix: AWS_LOCATION without surrounding slashes, followed by one slash,
   * or nothing when the location is empty or only slashes.
   */
  function KeyPrefix(location: string): (prefix: string)
    ensures prefix == "" <==> forall k | 0 <= k < |location| :: location[k] == '/'
    ensures prefix != "" ==> prefix == Strip(location, IsSlash) + "/"
    ensures prefix != "" ==> |prefix| >= 2 && prefix[0] != '/' && prefix[|prefix| - 1] == '/' && prefix[|prefix| - 2] != '/'
  {
    var loc := Strip(location, IsSlash);
    if loc != "" then loc + "/" else ""
  }

  /** The `{book.id}/{page_number:04d}` part of a page key. */
  function PagePath(book: BookId, n: nat): string {
    NatStr(book) + "/" + Pad4(n)
  }

  /** `f"{prefix}pages/{book.id}/{page_number:04d}.webp"`. */
  function PageKey(prefix: string, book: BookId, n: nat): (k: string)
    ensures |k| >= |prefix| + 6 && k[..|prefix|] == prefix && k[|prefix|..|prefix| + 6] == "pages/"
    ensures k[|k| - 5..] == ".webp"
  {
    prefix + "pages/" + PagePath(book, n) + ".webp"
  }

  /** The last nine characters of a page key are the four-digit page field and ".webp". */
  lemma PageKeyLayout(prefix: string, book: BookId, n: nat)
    requires 1 <= n <= 9999
    ensures var k := PageKey(prefix, book, n);
      |k| >= 10 && k[|k| - 5..] == ".webp" && k[|k| - 10] == '/'
      && k[|k| - 9..|k| - 5] == Pad4(n) && AllDigits(k[|k| - 9..|k| - 5])
      && ParseDecimal(k[|k| - 9..|k| - 5]) == n
      && k[|prefix| + 6..|k| - 10] == NatStr(book)
  {
    Pad4RoundTrip(n);
    var head := prefix + "pages/" + NatStr(book);
    var k := PageKey(prefix, book, n);
    assert k == head + "/" + Pad4(n) + ".webp";
    assert k[|k| - 5..] == ".webp";
    assert k[|k| - 9..|k| - 5] == Pad4(n);
  }

  /** In `x + "/" + y` with `x` all digits, the first slash sits at index |x|. */
  lemma FirstSlash(x: string, y: string)
    requires AllDigits(x)
    ensures (x + "/" + y)[|x|] == '/'
    ensures forall k | 0 <= k < |x| :: (x + "/" + y)[k] != '/'
  {
    assert forall k | 0 <= k < |x| :: (x + "/" + y)[k] == x[k];
  }

  /** Splitting at the first slash: a digit string cannot hide a slash. */
  lemma SplitAtSlash(x: string, y: string, x': string, y': string)
    requires AllDigits(x) && AllDigits(x')
    requires x + "/" + y == x' + "/" + y'
    ensures x == x' && y == y'
  {
    var s := x + "/" + y;
    FirstSlash(x, y);
    FirstSlash(x', y');
    assert |x| == |x'|;
    assert x == s[..|x|] && x' == s[..|x'|];
    assert y == s[|x| + 1..] && y' == s[|x'| + 1..];
  }

  /** Equal strings with a common head and tail have equal middles. */
  lemma CancelAround(a: string, m1: string, m2: string, e: string)
    requires a + m1 + e == a + m2 + e
    ensures m1 == m2
  {
    var k := a + m1 + e;
    assert |m1| == |m2|;
    assert m1 == k[|a|..|a| + |m1|];
    assert m2 == (a + m2 + e)[|a|..|a| + |m2|];
  }

  /** Keys are collision-free: the same key never names two (book, page) pairs. */
  lemma PageKeyInjective(prefix: string, b1: BookId, n1: nat, b2: BookId, n2: nat)
    requires PageKey(prefix, b1, n1) == PageKey(prefix, b2, n2)
    ensures b1 == b2 && n1 == n2
  {
    CancelAround(prefix + "pages/", PagePath(b1, n1), PagePath(b2, n2), ".webp");
    SplitAtSlash(NatStr(b1), Pad4(n1), NatStr(b2), Pad4(n2));
    NatStrInjective(b1, b2);
    Pad4Injective(n1, n2);
  }

  /** The page generator: raster i is yielded as page number i + 1. */
  function RenderPdfPages(doc: PdfDocument): (pages: seq<RenderedPage>)
    ensures |pages| == |doc.rasters|
    ensures forall i | 0 <= i < |pages| :: pages[i].number == i + 1
    ensures forall i | 0 <= i < |pages| ::
      pages[i].webp == doc.rasters[i].webp && pages[i].width == doc.rasters[i].width && pages[i].height == doc.rasters[i].height
  {
    seq(|doc.rasters|, i requires 0 <= i < |doc.rasters| =>
      RenderedPage(i + 1, doc.rasters[i].webp, doc.rasters[i].width, doc.rasters[i].height))
  }

  /** The rendered numbers are exactly 1..N, strictly increasing. */
  lemma RenderedNumbers(doc: PdfDocument)
    ensures var pages := RenderPdfPages(doc);
      (forall i, j | 0 <= i < j < |pages| :: pages[i].number < pages[j].number)
      && (forall i | 0 <= i < |pages| :: 1 <= pages[i].number <= |pages|)
  {
  }

  /** Page i of a sequence carries number i + 1, as the generator yields it. */
  ghost predicate Numbered(pages: seq<RenderedPage>) {
    forall i | 0 <= i < |pages| :: pages[i].number == i + 1
  }

  /** The row `BookPage.objects.create` makes for one rendered page. */
  function RowFor(prefix: string, book: BookId, page: RenderedPage): (row: BookPage)
    ensures row.book == book && row.pageNumber == page.number
    ensures row.imageKey == PageKey(prefix, book, page.number)
    ensures row.width == page.width && row.height == page.height
  {
    BookPage(book, page.number, PageKey(prefix, book, page.number), page.width, page.height)
  }

  /** The rows a build creates for `pages`, one per page. */
  function RowsFor(prefix: string, book: BookId, pages: seq<RenderedPage>): set<BookPage>
  {
    if pages == [] then {} else RowsFor(prefix, book, pages[..|pages| - 1]) + {RowFor(prefix, book, pages[|pages| - 1])}
  }

  /** The objects a build puts for `pages`, in order (a later put of a key wins). */
  function UploadsFor(prefix: string, book: BookId, pages: seq<RenderedPage>): map<string, Bytes>
  {
    if pages == [] then map[]
    else
      var last := pages[|pages| - 1];
      UploadsFor(prefix, book, pages[..|pages| - 1])[PageKey(prefix, book, last.number) := last.webp]
  }

  /** The index of the first key in `refused`, or |keys| when there is none. */
  function FirstIn(keys: seq<string>, refused: set<string>): (i: nat)
    ensures i <= |keys|
    ensures forall j | 0 <= j < i :: keys[j] !in refused
    ensures i < |keys| ==> keys[i] in refused
  {
    if keys == [] then 0
    else if keys[0] in refused then 0
    else 1 + FirstIn(keys[1..], refused)
  }

  /** The index of the first page whose upload the store refuses, or |pages| when none is. */
  function FirstRefused(prefix: string, book: BookId, pages: seq<RenderedPage>, refused: set<string>): (i: nat)
    ensures i <= |pages|
    ensures forall j | 0 <= j < i :: PageKey(prefix, book, pages[j].number) !in refused
    ensures i < |pages| ==> PageKey(prefix, book, pages[i].number) in refused
  {
    var keys := seq(|pages|, j requires 0 <= j < |pages| => PageKey(prefix, book, pages[j].number));
    assert forall j | 0 <= j < |pages| :: PageKey(prefix, book, pages[j].number) == keys[j];
    FirstIn(keys, refused)
  }

  /** Every row of a build belongs to the book, has a number in 1..N and its page's key. */
  lemma {:induction false} RowsForShape(prefix: string, book: BookId, pages: seq<RenderedPage>)
    requires Numbered(pages)
    ensures forall r | r in RowsFor(prefix, book, pages) ::
      r.book == book && 1 <= r.pageNumber <= |pages| && r.imageKey == PageKey(prefix, book, r.pageNumber)
  {
    if pages != [] {
      var init := pages[..|pages| - 1];
      assert Numbered(init);
      RowsForShape(prefix, book, init);
    }
  }

  /** A build creates exactly one row per page, with no (book, page) duplicate. */
  lemma {:induction false} RowsForCount(prefix: string, book: BookId, pages: seq<RenderedPage>)
    requires Numbered(pages)
    ensures |RowsFor(prefix, book, pages)| == |pages|
    ensures UniquePages(RowsFor(prefix, book, pages))
  {
    if pages != [] {
      var init := pages[..|pages| - 1];
      var last := RowFor(prefix, book, pages[|pages| - 1]);
      assert Numbered(init);
      RowsForCount(prefix, book, init);
      RowsForShape(prefix, book, init);
      assert RowsFor(prefix, book, pages) == RowsFor(prefix, book, init) + {last};
      assert last.pageNumber == |pages|;
      assert last !in RowsFor(prefix, book, init);
    }
  }

  /** Every page number 1..N has its row: the rows have no gaps. */
  lemma {:induction false} RowsForComplete(prefix: string, book: BookId, pages: seq<RenderedPage>)
    requires Numbered(pages)
    ensures forall i | 0 <= i < |pages| ::
      RowFor(prefix, book, pages[i]) in RowsFor(prefix, book, pages) && RowFor(prefix, book, pages[i]).pageNumber == i + 1
  {
    if pages != [] {
      var init := pages[..|pages| - 1];
      assert Numbered(init);
      RowsForComplete(prefix, book, init);
      forall i | 0 <= i < |pages| - 1
        ensures RowFor(prefix, book, pages[i]) in RowsFor(prefix, book, pages)
      {
        assert pages[i] == init[i];
      }
    }
  }

  /** Every row's key is among the objects the build put. */
  lemma {:induction false} RowsForUploaded(prefix: string, book: BookId, pages: seq<RenderedPage>)
    ensures forall r | r in RowsFor(prefix, book, pages) :: r.imageKey in UploadsFor(prefix, book, pages)
  {
    if pages != [] {
      RowsForUploaded(prefix, book, pages[..|pages| - 1]);
    }
  }

  /** No row of `pages` belongs to `book`. */
  lemma NoPagesOfBook(pages: set<BookPage>, book: BookId)
    requires PageCount(pages, book) == 0
    ensures forall p | p in pages :: p.book != book
  {
    forall p | p in pages ensures p.book == book ==> p in PagesOf(pages, book) {
    }
  }

  /** Adding a build's rows to a table without rows for that book keeps (book, page) unique and counts N rows. */
  lemma CommitFacts(before: set<BookPage>, prefix: string, book: BookId, pages: seq<RenderedPage>)
    requires UniquePages(before) && PageCount(before, book) == 0 && Numbered(pages)
    ensures UniquePages(before + RowsFor(prefix, book, pages))
    ensures PageCount(before + RowsFor(prefix, book, pages), book) == |pages|
  {
    RowsForCount(prefix, book, pages);
    RowsForShape(prefix, book, pages);
    NoPagesOfBook(before, book);
    assert PagesOf(before + RowsFor(prefix, book, pages), book) == RowsFor(prefix, book, pages);
  }

  /** One more page: its row joins the rows and its object the uploads. */
  lemma BuildStep(prefix: string, book: BookId, pages: seq<RenderedPage>, c: nat, objects: map<string, Bytes>)
    requires c < |pages|
    ensures RowsFor(prefix, book, pages[..c + 1]) == RowsFor(prefix, book, pages[..c]) + {RowFor(prefix, book, pages[c])}
    ensures (objects + UploadsFor(prefix, book, pages[..c]))[PageKey(prefix, book, pages[c].number) := pages[c].webp]
         == objects + UploadsFor(prefix, book, pages[..c + 1])
  {
    assert pages[..c + 1][..c] == pages[..c];
  }

  /** What the transaction of a build leaves behind, from the state it started in. */
  ghost predicate TransactionOutcome(
    r: Result<nat, BuildError>, prefix: string, bookId: BookId, pages: seq<RenderedPage>, broken: bool, refused: set<string>,
    pagesBefore: set<BookPage>, pagesAfter: set<BookPage>, booksBefore: map<BookId, Book>, booksAfter: map<BookId, Book>,
    objectsBefore: map<string, Bytes>, objectsAfter: map<string, Bytes>)
    requires bookId in booksBefore
  {
    var i := FirstRefused(prefix, bookId, pages, refused);
    if i < |pages| then
      r == Failure(UploadFailed(PageKey(prefix, bookId, pages[i].number)))
      && pagesAfter == pagesBefore && booksAfter == booksBefore
      && objectsAfter == objectsBefore + UploadsFor(prefix, bookId, pages[..i])
    else if broken then
      r == Failure(RenderFailed)
      && pagesAfter == pagesBefore && booksAfter == booksBefore
      && objectsAfter == objectsBefore + UploadsFor(prefix, bookId, pages)
    else
      r == Success(|pages|)
      && pagesAfter == pagesBefore + RowsFor(prefix, bookId, pages)
      && booksAfter == booksBefore[bookId := booksBefore[bookId].(totalPages := Some(|pages|))]
      && objectsAfter == objectsBefore + UploadsFor(prefix, bookId, pages)
  }

  /**
   * The loop of the `transaction.atomic()` block: for each rendered page, put its
   * object and then create its row, stopping at the first put the store refuses.
   */
  method PutPages(db: Database, store: ObjectStore, prefix: string, bookId: BookId, pages: seq<RenderedPage>)
    returns (created: nat)
    modifies db`pages, store`objects
    ensures created == FirstRefused(prefix, bookId, pages, store.refused)
    ensures db.pages == old(db.pages) + RowsFor(prefix, bookId, pages[..created])
    ensures store.objects == old(store.objects) + UploadsFor(prefix, bookId, pages[..created])
  {
    ghost var first := FirstRefused(prefix, bookId, pages, store.refused);
    created := 0;
    while created < |pages|
      invariant 0 <= created <= |pages| && created <= first
      invariant db.pages == old(db.pages) + RowsFor(prefix, bookId, pages[..created])
      invariant store.objects == old(store.objects) + UploadsFor(prefix, bookId, pages[..created])
    {
      var page := pages[created];
      var key := PageKey(prefix, bookId, page.number);
      var ok := store.Put(key, page.webp);
      if !ok {
        assert first == created;
        return;
      }
      assert created != first;
      db.pages := db.pages + {BookPage(bookId, page.number, key, page.width, page.height)};
      BuildStep(prefix, bookId, pages, created, old(store.objects));
      created := created + 1;
    }
  }

  /**
   * The `transaction.atomic()` block: the puts and row creations of `PutPages`; when
   * every page is in and the renderer did not raise, `total_pages` is set to the
   * number created. A refused put or a render error rolls the rows back; the objects
   * already put stay.
   */
  method AtomicBuild(db: Database, store: ObjectStore, prefix: string, bookId: BookId, pages: seq<RenderedPage>, broken: bool)
    returns (r: Result<nat, BuildError>)
    requires db.Valid() && bookId in db.books && PageCount(db.pages, bookId) == 0 && Numbered(pages)
    modifies db`pages, db`books, store`objects
    ensures db.Valid()
    ensures TransactionOutcome(r, prefix, bookId, pages, broken, store.refused,
      old(db.pages), db.pages, old(db.books), db.books, old(store.objects), store.objects)
    ensures r.Success? ==> PageCount(db.pages, bookId) == r.value
    ensures RowsBacked(old(db.pages), old(store.objects)) ==> RowsBacked(db.pages, store.objects)
  {
    var before := db.pages;
    var created := PutPages(db, store, prefix, bookId, pages);
    if created < |pages| {
      db.pages := before;
      return Failure(UploadFailed(PageKey(prefix, bookId, pages[created].number)));
    }
    assert pages[..created] == pages;
    if broken {
      db.pages := before;
      return Failure(RenderFailed);
    }
    CommitFacts(before, prefix, bookId, pages);
    RowsForUploaded(prefix, bookId, pages);
    db.books := db.books[bookId := db.books[bookId].(totalPages := Some(created))];
    return Success(created);
  }

  /** The conditions under which a build of a book without rows raises. */
  predicate BuildFails(bookId: BookId, book: Book, config: StorageConfig, pdf: PdfBlob, refused: set<string>) {
    book.pdfFile == "" || pdf.Unreadable? || config.bucket == ""
    || pdf.doc.broken
    || FirstRefused(KeyPrefix(config.location), bookId, RenderPdfPages(pdf.doc), refused) < |pdf.doc.rasters|
  }

  /**
   * The store after a build of a book without rows: the checks before the transaction
   * put nothing, and the transaction leaves the objects of every page up to the first
   * refused put, whether it commits or rolls back.
   */
  function ObjectsAfterBuild(bookId: BookId, book: Book, config: StorageConfig, pdf: PdfBlob, refused: set<string>,
                             objects: map<string, Bytes>): map<string, Bytes>
  {
    if book.pdfFile == "" || pdf.Unreadable? || config.bucket == "" then objects
    else
      var prefix := KeyPrefix(config.location);
      var pages := RenderPdfPages(pdf.doc);
      objects + UploadsFor(prefix, bookId, pages[..FirstRefused(prefix, bookId, pages, refused)])
  }

  /** A build of a book without rows succeeds exactly when every check passes, the renderer does not raise and no put is refused. */
  lemma BuildFailsIff(bookId: BookId, book: Book, config: StorageConfig, pdf: PdfBlob, refused: set<string>)
    ensures !BuildFails(bookId, book, config, pdf, refused) <==>
      && book.pdfFile != "" && pdf.Readable? && config.bucket != "" && !pdf.doc.broken
      && var pages := RenderPdfPages(pdf.doc);
         forall i | 0 <= i < |pages| :: PageKey(KeyPrefix(config.location), bookId, pages[i].number) !in refused
  {
  }

  /**
   * `build_pages_if_missing(book)`. A book that already has rows is returned untouched
   * with its row count. Otherwise the pdf_file, readability and bucket checks come
   * first, and then the transaction of `AtomicBuild` runs over the rendered pages.
   */
  method BuildPagesIfMissing(db: Database, store: ObjectStore, bookId: BookId, config: StorageConfig, pdf: PdfBlob)
    returns (r: Result<nat, BuildError>)
    requires db.Valid() && bookId in db.books
    modifies db`pages, db`books, store`objects
    ensures db.Valid()
    ensures RowsBacked(old(db.pages), old(store.objects)) ==> RowsBacked(db.pages, store.objects)
    ensures db.books.Keys == old(db.books.Keys)
    ensures PageCount(old(db.pages), bookId) > 0 ==>
      r == Success(PageCount(old(db.pages), bookId))
      && db.pages == old(db.pages) && db.books == old(db.books) && store.objects == old(store.objects)
    ensures PageCount(old(db.pages), bookId) == 0 && old(db.books[bookId].pdfFile) == "" ==>
      r == Failure(MissingPdfFile)
      && db.pages == old(db.pages) && db.books == old(db.books) && store.objects == old(store.objects)
    ensures PageCount(old(db.pages), bookId) == 0 && old(db.books[bookId].pdfFile) != "" && pdf.Unreadable? ==>
      r == Failure(PdfUnreadable)
      && db.pages == old(db.pages) && db.books == old(db.books) && store.objects == old(store.objects)
    ensures PageCount(old(db.pages), bookId) == 0 && old(db.books[bookId].pdfFile) != "" && pdf.Readable? && config.bucket == "" ==>
      r == Failure(MissingBucket)
      && db.pages == old(db.pages) && db.books == old(db.books) && store.objects == old(store.objects)
    ensures PageCount(old(db.pages), bookId) == 0 && old(db.books[bookId].pdfFile) != "" && pdf.Readable? && config.bucket != "" ==>
      TransactionOutcome(r, KeyPrefix(config.location), bookId, RenderPdfPages(pdf.doc), pdf.doc.broken, store.refused,
        old(db.pages), db.pages, old(db.books), db.books, old(store.objects), store.objects)
    ensures r.Success? ==> PageCount(db.pages, bookId) == r.value
    ensures PageCount(old(db.pages), bookId) == 0 ==>
      (r.Failure? <==> BuildFails(bookId, old(db.books[bookId]), config, pdf, store.refused))
    ensures r.Failure? ==> db.pages == old(db.pages) && db.books == old(db.books)
    ensures PageCount(old(db.pages), bookId) == 0 ==>
      store.objects == ObjectsAfterBuild(bookId, old(db.books[bookId]), config, pdf, store.refused, old(store.objects))
    ensures PageCount(old(db.pages), bookId) == 0 && r.Success? ==>
      && pdf.Readable?
      && db.pages == old(db.pages) + RowsFor(KeyPrefix(config.location), bookId, RenderPdfPages(pdf.doc))
      && db.books == old(db.books)[bookId := old(db.books[bookId]).(totalPages := Some(|pdf.doc.rasters|))]
  {
    var existing := PageCount(db.pages, bookId);
    if existing > 0 {
      return Success(existing);
    }
    if db.books[bookId].pdfFile == "" {
      return Failure(MissingPdfFile);
    }
    if pdf.Unreadable? {
      return Failure(PdfUnreadable);
    }
    if config.bucket == "" {
      return Failure(MissingBucket);
    }
    var prefix := KeyPrefix(config.location);
    var pages := RenderPdfPages(pdf.doc);
    r := AtomicBuild(db, store, prefix, bookId, pages, pdf.doc.broken);
    assert pages[..|pages|] == pages;
  }

  /** `book` has a row numbered `n`. */
  ghost predicate HasPage(pages: set<BookPage>, book: BookId, n: nat) {
    exists p | p in pages :: p.book == book && p.pageNumber == n
  }

  /** The page numbers of a book's rows are exactly 1..n. */
  ghost predicate Dense(pages: set<BookPage>, book: BookId, n: nat) {
    (forall p | p in PagesOf(pages, book) :: 1 <= p.pageNumber <= n)
    && forall k | 1 <= k <= n :: HasPage(pages, book, k)
  }

  /**
   * On success the count returned, the number of rows of the book, the number of
   * rendered pages and the book's `total_pages` are one and the same N.
   */
  lemma BuildSuccessCount(
    r: Result<nat, BuildError>, prefix: string, bookId: BookId, doc: PdfDocument, refused: set<string>,
    pagesBefore: set<BookPage>, pagesAfter: set<BookPage>, booksBefore: map<BookId, Book>, booksAfter: map<BookId, Book>,
    objectsBefore: map<string, Bytes>, objectsAfter: map<string, Bytes>)
    requires bookId in booksBefore && PageCount(pagesBefore, bookId) == 0 && UniquePages(pagesBefore)
    requires TransactionOutcome(r, prefix, bookId, RenderPdfPages(doc), doc.broken, refused,
      pagesBefore, pagesAfter, booksBefore, booksAfter, objectsBefore, objectsAfter)
    requires r.Success?
    ensures r.value == |doc.rasters| == PageCount(pagesAfter, bookId)
    ensures bookId in booksAfter && booksAfter[bookId].totalPages == Some(r.value)
    ensures !doc.broken
  {
    CommitFacts(pagesBefore, prefix, bookId, RenderPdfPages(doc));
  }

  /**
   * On success the book's rows are numbered exactly 1..N, and each row's key is its
   * page's key and names an object in the store.
   */
  lemma BuildSuccessRows(
    r: Result<nat, BuildError>, prefix: string, bookId: BookId, doc: PdfDocument, refused: set<string>,
    pagesBefore: set<BookPage>, pagesAfter: set<BookPage>, booksBefore: map<BookId, Book>, booksAfter: map<BookId, Book>,
    objectsBefore: map<string, Bytes>, objectsAfter: map<string, Bytes>)
    requires bookId in booksBefore && PageCount(pagesBefore, bookId) == 0
    requires TransactionOutcome(r, prefix, bookId, RenderPdfPages(doc), doc.broken, refused,
      pagesBefore, pagesAfter, booksBefore, booksAfter, objectsBefore, objectsAfter)
    requires r.Success?
    ensures Dense(pagesAfter, bookId, r.value)
    ensures forall p | p in PagesOf(pagesAfter, bookId) ::
      p.imageKey == PageKey(prefix, bookId, p.pageNumber) && p.imageKey in objectsAfter
  {
    var pages := RenderPdfPages(doc);
    var rows := RowsFor(prefix, bookId, pages);
    RowsForShape(prefix, bookId, pages);
    RowsForUploaded(prefix, bookId, pages);
    RowsForComplete(prefix, bookId, pages);
    NoPagesOfBook(pagesBefore, bookId);
    assert PagesOf(pagesAfter, bookId) == rows;
    forall k | 1 <= k <= |pages| ensures HasPage(pagesAfter, bookId, k) {
      assert RowFor(prefix, bookId, pages[k - 1]) in rows;
    }
  }
}
