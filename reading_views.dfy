/**
 * The session-authenticated reader: the percentage preview ceiling, the progress
 * percentage, and `read_page`, which falls back to the BookPageImage table for a
 * book's length and records progress when it serves a page.
 */
module ReadingViews {
  import opened Wrappers
  import opened Text
  import opened Models
  import BooksViews

  /** The share of a book readable before the paywall: 5% for premium, 10% otherwise. */
  function PreviewPercent(premium: bool): (p: nat)
    ensures premium ==> p == 5
    ensures !premium ==> p == 10
  {
    if premium then 5 else 10
  }

  /** `max(1, math.ceil(total_pages * rate))`, computed on exact rationals. */
  function PreviewCeiling(premium: bool, total: nat): (c: nat)
    ensures c >= 1
    ensures total >= 1 ==> c <= total
    ensures var p := PreviewPercent(premium);
      total * p > 0 ==> (c - 1) * 100 < total * p <= c * 100
    ensures total == 0 ==> c == 1
  {
    var p := PreviewPercent(premium);
    var up := (total * p + 99) / 100;
    if up < 1 then 1 else up
  }

  /** A longer book never has a shorter preview. */
  lemma PreviewMonotone(premium: bool, t1: nat, t2: nat)
    requires t1 <= t2
    ensures PreviewCeiling(premium, t1) <= PreviewCeiling(premium, t2)
  {
    var p := PreviewPercent(premium);
    assert t1 * p <= t2 * p;
  }

  /** A premium preview is never longer than the free one for the same book. */
  lemma PremiumPreviewShorter(total: nat)
    ensures PreviewCeiling(true, total) <= PreviewCeiling(false, total)
  {
  }

  /** From two pages on, the preview leaves at least the last page locked. */
  lemma PreviewLeavesLastPageLocked(premium: bool, total: nat)
    requires total >= 2
    ensures PreviewCeiling(premium, total) < total
  {
  }

  /** Python's `round(num / den)`: the nearest integer, ties to the even one. */
  function RoundHalfEven(num: nat, den: nat): (r: nat)
    requires den > 0
    ensures 2 * num <= 2 * r * den + den
    ensures 2 * r * den <= 2 * num + den
    ensures 2 * num == 2 * r * den + den || 2 * num + den == 2 * r * den ==> r % 2 == 0
  {
    var q, rem := num / den, num % den;
    DivisionSteps(num, den);
    if 2 * rem < den then q
    else if 2 * rem > den then q + 1
    else if q % 2 == 0 then q
    else q + 1
  }

  /** The quotient and remainder, and the products the rounding bounds are stated in. */
  lemma DivisionSteps(num: nat, den: nat)
    requires den > 0
    ensures num == (num / den) * den + num % den && 0 <= num % den < den
    ensures 2 * (num / den) * den == 2 * ((num / den) * den)
    ensures 2 * (num / den + 1) * den == 2 * ((num / den) * den) + 2 * den
  {
  }

  /** A positive factor cancels from both sides of an inequality. */
  lemma CancelFactor(a: int, b: int, t: int)
    requires t > 0 && a * t <= b * t
    ensures a <= b
  {
  }

  /** The rounded percentage of a page at or past the end is at least 100; within the book at most 100. */
  lemma RoundedPercentBounds(page: nat, total: nat)
    requires total > 0
    ensures page >= total ==> RoundHalfEven(page * 100, total) >= 100
    ensures page <= total ==> RoundHalfEven(page * 100, total) <= 100
  {
    var r := RoundHalfEven(page * 100, total);
    if page >= total {
      assert 200 * total <= 2 * (page * 100);
      assert 200 * total <= (2 * r + 1) * total;
      CancelFactor(200, 2 * r + 1, total);
    }
    if page <= total {
      assert 2 * (page * 100) <= 200 * total;
      assert (2 * r - 1) * total <= 200 * total;
      CancelFactor(2 * r - 1, 200, total);
    }
  }

  /** `max(0, min(100, int(round(page / total_pages * 100))))`. */
  function ProgressPercent(page: nat, total: nat): (pct: nat)
    requires total > 0
    ensures pct <= 100
    ensures page >= total ==> pct == 100
    ensures page == 0 ==> pct == 0
  {
    RoundedPercentBounds(page, total);
    var r := RoundHalfEven(page * 100, total);
    if r > 100 then 100 else r
  }

  /** Within the book the clamp never bites: the percentage is the rounded ratio itself. */
  lemma ProgressUnclamped(page: nat, total: nat)
    requires 0 < total && page <= total
    ensures ProgressPercent(page, total) == RoundHalfEven(page * 100, total)
  {
    RoundedPercentBounds(page, total);
  }

  /** `(book.book_type or "free").lower()`. */
  function ReadingType(b: Book): (t: string)
    ensures b.bookType == "" ==> t == "free"
    ensures b.bookType != "" ==> SameIgnoringCase(t, b.bookType) && |t| == |b.bookType|
    ensures Lower(t) == t
    ensures t == "premium" <==> SameIgnoringCase(b.bookType, "premium")
  {
    LowerIdempotent(if b.bookType == "" then "free" else b.bookType);
    Lower(if b.bookType == "" then "free" else b.bookType)
  }

  /** `int(book.total_pages or 0)`, replaced by the image-row count when not positive. */
  function EffectiveTotal(b: Book, images: set<BookPageImage>): (t: nat)
    ensures b.totalPages.GetOr(0) > 0 ==> t == b.totalPages.value
    ensures b.totalPages.GetOr(0) == 0 ==> t == ImageCount(images, b.id)
  {
    var stored := b.totalPages.GetOr(0);
    if stored > 0 then stored else ImageCount(images, b.id)
  }

  /** The exits of `read_page`. */
  datatype ReadResponse =
    | LoginRedirect
    | BookNotFound
    | NoPages(book: string, bookType: string, cover: string)
    | Blocked(cta: string, book: string, bookType: string, totalPages: nat, allowedUntilPage: nat, cover: string)
    | ImageMissing(book: string, bookType: string, totalPages: nat, allowedUntilPage: nat, cover: string)
    | UrlUnavailable(book: string, bookType: string, totalPages: nat, allowedUntilPage: nat, cover: string)
    | Served(book: string, bookType: string, totalPages: nat, allowedUntilPage: nat, cover: string, pageImage: string)
  {
    function Status(): int {
      match this
      case LoginRedirect => 302
      case BookNotFound => 404
      case NoPages(_, _, _) => 400
      case Blocked(_, _, _, _, _, _) => 403
      case ImageMissing(_, _, _, _, _) => 404
      case UrlUnavailable(_, _, _, _, _) => 500
      case Served(_, _, _, _, _, _) => 200
    }
  }

  /** The call to action on a blocked page: pay for premium, share otherwise. */
  function Cta(bookType: string): (cta: string)
    ensures cta == "pay" <==> bookType == "premium"
    ensures cta == "pay" || cta == "share"
  {
    if bookType == "premium" then "pay" else "share"
  }

  /**
   * `read_page(request, book_id, page)`. `requester` is the logged-in user (None:
   * `login_required` redirects), `url` the storage's URL for an image name ("" when it
   * cannot make one), `now` the clock that `auto_now` reads.
   */
  method ReadPage(db: Database, url: string -> string, requester: Option<UserId>, bookId: BookId, page: nat, now: int)
    returns (r: ReadResponse)
    requires db.Valid()
    modifies db`books, db`progress
    ensures db.Valid()
    ensures !r.Served? ==> db.progress == old(db.progress)
    ensures requester.None? ==> r == LoginRedirect && db.books == old(db.books)
    ensures requester.Some? && bookId !in old(db.books) ==> r == BookNotFound && db.books == old(db.books)
    ensures requester.Some? && bookId in old(db.books) ==>
      var book := old(db.books[bookId]);
      var t := ReadingType(book);
      var cover := BooksViews.CoverUrl(book, url);
      var total := EffectiveTotal(book, db.pageImages);
      var allowed := PreviewCeiling(t == "premium", total);
      && (total == 0 ==> r == NoPages(book.title, t, cover) && db.books == old(db.books))
      && (total > 0 ==>
            && db.books == (if book.totalPages.GetOr(0) > 0 then old(db.books)
                            else old(db.books)[bookId := book.(totalPages := Some(total))])
            && (page > allowed ==> r == Blocked(Cta(t), book.title, t, total, allowed, cover))
            && (page <= allowed ==>
                  match FindPageImage(db.pageImages, bookId, page)
                  case None => r == ImageMissing(book.title, t, total, allowed, cover)
                  case Some(img) =>
                    if img.image == "" then r == ImageMissing(book.title, t, total, allowed, cover)
                    else if url(img.image) == "" then r == UrlUnavailable(book.title, t, total, allowed, cover)
                    else
                      && r == Served(book.title, t, total, allowed, cover, url(img.image))
                      && db.progress == old(db.progress)[(requester.value, bookId) :=
                                                           Progress(page, ProgressPercent(page, total), now)]))
  {
    if requester.None? {
      return LoginRedirect;
    }
    if bookId !in db.books {
      return BookNotFound;
    }
    var book := db.books[bookId];
    var title := book.title;
    var bookType := ReadingType(book);
    var cover := BooksViews.CoverUrl(book, url);

    var totalPages := book.totalPages.GetOr(0);
    if totalPages <= 0 {
      totalPages := ImageCount(db.pageImages, bookId);
      if totalPages <= 0 {
        return NoPages(title, bookType, cover);
      }
      book := book.(totalPages := Some(totalPages));
      db.books := db.books[bookId := book];
    }

    var allowed := PreviewCeiling(bookType == "premium", totalPages);
    if page > allowed {
      return Blocked(Cta(bookType), title, bookType, totalPages, allowed, cover);
    }

    var obj := FindPageImage(db.pageImages, bookId, page);
    if obj.None? || obj.value.image == "" {
      return ImageMissing(title, bookType, totalPages, allowed, cover);
    }
    var pageImageUrl := url(obj.value.image);
    if pageImageUrl == "" {
      return UrlUnavailable(title, bookType, totalPages, allowed, cover);
    }

    var percent := ProgressPercent(page, totalPages);
    db.progress := db.progress[(requester.value, bookId) := Progress(page, percent, now)];
    return Served(title, bookType, totalPages, allowed, cover, pageImageUrl);
  }

  /** A served page lies inside the book, so its recorded percentage is the exact rounded ratio. */
  lemma ServedPageInsideBook(premium: bool, total: nat, page: nat)
    requires total > 0 && page <= PreviewCeiling(premium, total)
    ensures page <= total
    ensures ProgressPercent(page, total) == RoundHalfEven(page * 100, total)
  {
    ProgressUnclamped(page, total);
  }

  /** The exits of `unlock_share`. */
  datatype ShareResponse = ShareLoginRedirect | ShareRecorded(ok: bool)

  /** `unlock_share`: a stub that records nothing and always answers ok to a logged-in user. */
  method UnlockShare(db: Database, requester: Option<UserId>, bookId: BookId) returns (r: ShareResponse)
    ensures requester.None? <==> r == ShareLoginRedirect
    ensures requester.Some? ==> r == ShareRecorded(true)
  {
    if requester.None? {
      return ShareLoginRedirect;
    }
    return ShareRecorded(true);
  }
}
