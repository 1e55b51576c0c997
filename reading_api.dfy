/**
 * The reader's JSON API: the requester's progress and favourites, the favourite
 * toggle, and the one-rating-per-reader upsert.
 */
module ReadingApi {
  import opened Wrappers
  import opened Json
  import opened Models
  import opened Sets
  import BooksViews

  /** One entry of `progress_me`. */
  datatype ProgressEntry = ProgressEntry(bookId: BookId, lastPage: nat, percent: nat, updatedAt: int)

  /** The exits of `progress_me`. */
  datatype ProgressResponse = ProgressLoginRedirect | ProgressList(entries: seq<ProgressEntry>)

  /** The books the user has a progress row for. */
  function ProgressBooks(progress: map<(UserId, BookId), Progress>, u: UserId): set<BookId> {
    set k | k in progress && k.0 == u :: k.1
  }

  function EntryFor(progress: map<(UserId, BookId), Progress>, u: UserId, b: BookId): ProgressEntry
    requires (u, b) in progress
  {
    var p := progress[(u, b)];
    ProgressEntry(b, p.lastPage, p.percent, p.updatedAt)
  }

  /**
   * `progress_me`: the requester's progress rows and no one else's, each once, most
   * recently updated first.
   */
  method ProgressMe(db: Database, requester: Option<UserId>) returns (r: ProgressResponse)
    ensures requester.None? <==> r == ProgressLoginRedirect
    ensures r.ProgressList? ==>
      var u, data := requester.value, r.entries;
      && (forall i | 0 <= i < |data| :: (u, data[i].bookId) in db.progress && data[i] == EntryFor(db.progress, u, data[i].bookId))
      && (forall b | (u, b) in db.progress :: exists i | 0 <= i < |data| :: data[i].bookId == b)
      && (forall i, j | 0 <= i < j < |data| :: data[i].bookId != data[j].bookId && data[i].updatedAt >= data[j].updatedAt)
  {
    if requester.None? {
      return ProgressLoginRedirect;
    }
    var u := requester.value;
    var progress := db.progress;
    var books := ProgressBooks(progress, u);
    var ids := OrderByDescending(books, (b: nat) => if (u, b) in progress then progress[(u, b)].updatedAt else 0);
    var data: seq<ProgressEntry> := [];
    for k := 0 to |ids|
      invariant |data| == k
      invariant forall i | 0 <= i < k :: (u, ids[i]) in progress && data[i] == EntryFor(progress, u, ids[i])
    {
      assert ids[k] in books;
      data := data + [EntryFor(progress, u, ids[k])];
    }
    forall b | (u, b) in progress
      ensures exists i | 0 <= i < |data| :: data[i].bookId == b
    {
      assert b in books;
      var i :| 0 <= i < |ids| && ids[i] == b;
      assert data[i].bookId == b;
    }
    return ProgressList(data);
  }

  /** The exits of `favorites_me`. */
  datatype FavoritesResponse = FavoritesLoginRedirect | FavoritesList(bookIds: seq<BookId>)

  /** The books the user has marked as favourite. */
  function FavoriteBooks(favorites: set<(UserId, BookId)>, u: UserId): set<BookId> {
    set k | k in favorites && k.0 == u :: k.1
  }

  /** `favorites_me`: exactly the book ids of the requester's favourites, each once. */
  method FavoritesMe(db: Database, requester: Option<UserId>) returns (r: FavoritesResponse)
    ensures requester.None? <==> r == FavoritesLoginRedirect
    ensures r.FavoritesList? ==>
      var ids := r.bookIds;
      && (forall i | 0 <= i < |ids| :: (requester.value, ids[i]) in db.favorites)
      && (forall b | (requester.value, b) in db.favorites :: b in ids)
      && (forall i, j | 0 <= i < j < |ids| :: ids[i] != ids[j])
  {
    if requester.None? {
      return FavoritesLoginRedirect;
    }
    var u := requester.value;
    var remaining := FavoriteBooks(db.favorites, u);
    var ids: seq<BookId> := [];
    while remaining != {}
      invariant forall b | b in remaining :: (u, b) in db.favorites
      invariant forall i | 0 <= i < |ids| :: (u, ids[i]) in db.favorites && ids[i] !in remaining
      invariant forall b | (u, b) in db.favorites && b !in remaining :: b in ids
      invariant forall i, j | 0 <= i < j < |ids| :: ids[i] != ids[j]
      decreases |remaining|
    {
      var b :| b in remaining;
      ids := ids + [b];
      remaining := remaining - {b};
    }
    return FavoritesList(ids);
  }

  /** Deleting `k` when present, adding it when absent. */
  function Toggled(s: set<(UserId, BookId)>, k: (UserId, BookId)): (r: set<(UserId, BookId)>)
    ensures k in r <==> k !in s
    ensures forall x | x in s || x in r :: x != k ==> (x in r <==> x in s)
  {
    if k in s then s - {k} else s + {k}
  }

  /** Toggling the same favourite twice restores the original table. */
  lemma ToggleTwice(s: set<(UserId, BookId)>, k: (UserId, BookId))
    ensures Toggled(Toggled(s, k), k) == s
  {
  }

  /** The exits of `favorites_toggle`. */
  datatype ToggleResponse = ToggleLoginRedirect | ToggleBookNotFound | ToggleDone(favorited: bool)
  {
    function Status(): int {
      match this
      case ToggleLoginRedirect => 302
      case ToggleBookNotFound => 404
      case ToggleDone(_) => 200
    }
  }

  /** `favorites_toggle(request, book_id)`. */
  method FavoritesToggle(db: Database, requester: Option<UserId>, bookId: BookId) returns (r: ToggleResponse)
    requires db.Valid()
    modifies db`favorites
    ensures db.Valid()
    ensures requester.None? ==> r == ToggleLoginRedirect && db.favorites == old(db.favorites)
    ensures requester.Some? && bookId !in db.books ==> r == ToggleBookNotFound && db.favorites == old(db.favorites)
    ensures requester.Some? && bookId in db.books ==>
      var k := (requester.value, bookId);
      && r == ToggleDone(k !in old(db.favorites))
      && db.favorites == Toggled(old(db.favorites), k)
  {
    if requester.None? {
      return ToggleLoginRedirect;
    }
    if bookId !in db.books {
      return ToggleBookNotFound;
    }
    var k := (requester.value, bookId);
    if k in db.favorites {
      db.favorites := db.favorites - {k};
      return ToggleDone(false);
    }
    db.favorites := db.favorites + {k};
    return ToggleDone(true);
  }

  /**
   * `int(payload.get("stars") or 0)` for `payload = json.loads(body.decode("utf-8") or "{}")`,
   * with a malformed document read as `{}`. `parse` is `json.loads` (None where it raises
   * JSONDecodeError). None here is an exception the view does not catch: a body that is
   * not UTF-8, a payload that is not an object, or a `stars` that `int()` rejects.
   */
  function ReadStars(body: Body, parse: string -> Option<Json>): (stars: Option<int>)
    ensures body.NotUtf8? ==> stars.None?
    ensures body == Utf8("") ==> stars == Some(0)
    ensures body.Utf8? && body.text != "" && parse(body.text).None? ==> stars == Some(0)
    ensures body.Utf8? && body.text != "" && parse(body.text).Some? ==>
      match parse(body.text).value
      case JObject(fields) => stars == IntValue(Get(fields, "stars"))
      case _ => stars.None?
  {
    match body
    case NotUtf8 => None
    case Utf8(text) =>
      var payload := if text == "" then JObject(map[]) else parse(text).GetOr(JObject(map[]));
      match payload
      case JObject(fields) => IntValue(Get(fields, "stars"))
      case _ => None
  }

  /** A body without a `stars` member reads as 0 stars, which the range check turns away. */
  lemma MissingStarsIsZero(text: string, parse: string -> Option<Json>)
    requires text != "" && parse(text).Some? && parse(text).value.JObject?
    requires "stars" !in parse(text).value.fields
    ensures ReadStars(Utf8(text), parse) == Some(0)
  {
  }

  /** The exits of `rate_book`. */
  datatype RateResponse = RateLoginRedirect | RateBookNotFound | StarsOutOfRange | RateServerError | Rated(ratingsCount: nat)
  {
    function Status(): int {
      match this
      case RateLoginRedirect => 302
      case RateBookNotFound => 404
      case StarsOutOfRange => 400
      case RateServerError => 500
      case Rated(_) => 200
    }
  }

  /**
   * `rate_book(request, book_id)`: with 1 <= stars <= 5 the requester's single rating of
   * the book is created or overwritten (`updated_at` set to `now`), and the answer counts
   * the book's ratings afterwards.
   */
  method RateBook(db: Database, requester: Option<UserId>, bookId: BookId, body: Body,
                  parse: string -> Option<Json>, now: int) returns (r: RateResponse)
    requires db.Valid()
    modifies db`ratings
    ensures db.Valid()
    ensures !r.Rated? ==> db.ratings == old(db.ratings)
    ensures requester.None? ==> r == RateLoginRedirect
    ensures requester.Some? && bookId !in db.books ==> r == RateBookNotFound
    ensures requester.Some? && bookId in db.books ==>
      match ReadStars(body, parse)
      case None => r == RateServerError
      case Some(stars) =>
        if stars < 1 || stars > 5 then r == StarsOutOfRange
        else
          && db.ratings == old(db.ratings)[(requester.value, bookId) := Rating(stars, now)]
          && r == Rated(|BooksViews.RatingsOf(db.ratings, bookId)|)
  {
    if requester.None? {
      return RateLoginRedirect;
    }
    if bookId !in db.books {
      return RateBookNotFound;
    }
    var stars := ReadStars(body, parse);
    if stars.None? {
      return RateServerError;
    }
    if stars.value < 1 || stars.value > 5 {
      return StarsOutOfRange;
    }
    db.ratings := db.ratings[(requester.value, bookId) := Rating(stars.value, now)];
    return Rated(|BooksViews.RatingsOf(db.ratings, bookId)|);
  }

  /**
   * After the upsert the book has at least one rating (so the average's "no ratings"
   * default cannot be reached), one more than before exactly when the reader had not
   * rated it, and every other reader's and book's rating is as it was.
   */
  lemma {:induction false} UpsertCount(ratings: map<(UserId, BookId), Rating>, u: UserId, b: BookId, rating: Rating)
    ensures var after := ratings[(u, b) := rating];
      && |BooksViews.RatingsOf(after, b)| >= 1
      && |BooksViews.RatingsOf(after, b)| ==
           |BooksViews.RatingsOf(ratings, b)| + (if (u, b) in ratings then 0 else 1)
      && (forall k | k in ratings && k != (u, b) :: k in after && after[k] == ratings[k])
  {
    var after := ratings[(u, b) := rating];
    var k := (u, b);
    if k in ratings {
      assert BooksViews.RatingsOf(after, b) == BooksViews.RatingsOf(ratings, b);
    } else {
      assert BooksViews.RatingsOf(after, b) == BooksViews.RatingsOf(ratings, b) + {k};
    }
  }
}
