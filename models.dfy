/**
 * Record shapes and uniqueness constraints of the tables the views work on
 * (books.models and reading.models, plus Django's user table), the database that
 * holds them, and the object store the page images go to.
 */
module Models {
  import opened Wrappers

  type BookId = nat
  type UserId = nat

  newtype byte = x: int | 0 <= x < 256
  type Bytes = seq<byte>

  /**
   * A catalogue book. `bookType` and `genre` are the schema's columns ("" when blank);
   * `legacyType`, `isPremium` and `category` are attributes the views probe for with
   * `hasattr`, which this schema does not have (None). `cover` and `pdfFile` are the
   * storage names of the two file fields ("" when empty). `createdAt` is in seconds.
   */
  datatype Book = Book(
    id: BookId,
    title: string,
    author: string,
    genre: string,
    description: string,
    bookType: string,
    totalPages: Option<nat>,
    cover: string,
    pdfFile: string,
    createdAt: int,
    legacyType: Option<string>,
    isPremium: Option<bool>,
    category: Option<string>)

  /** A row of books.BookPage: one rendered page and the storage key of its image. */
  datatype BookPage = BookPage(book: BookId, pageNumber: nat, imageKey: string, width: nat, height: nat)

  /** A row of reading.BookPageImage; `image` is the storage name of the image, "" when null. */
  datatype BookPageImage = BookPageImage(book: BookId, pageNumber: nat, image: string)

  /** A row of reading.ReadingProgress, keyed by (user, book). */
  datatype Progress = Progress(lastPage: nat, percent: nat, updatedAt: int)

  /** A row of reading.Rating, keyed by (user, book). */
  datatype Rating = Rating(stars: int, updatedAt: int)

  /** A stored password: Django's unusable marker, or the secret as given (hashing is not modelled). */
  datatype Password = Unusable | Secret(text: string)

  datatype User = User(
    id: UserId,
    username: string,
    email: string,
    firstName: string,
    lastName: string,
    isActive: bool,
    password: Password)

  /** The rows of `pages` that belong to `book`. */
  function PagesOf(pages: set<BookPage>, book: BookId): (r: set<BookPage>)
    ensures r <= pages
    ensures forall p | p in r :: p.book == book
    ensures forall p | p in pages && p.book == book :: p in r
  {
    set p | p in pages && p.book == book
  }

  /** `BookPage.objects.filter(book=book).count()`. */
  function PageCount(pages: set<BookPage>, book: BookId): (n: nat)
    ensures n == 0 <==> forall p | p in pages :: p.book != book
  {
    |PagesOf(pages, book)|
  }

  /**
   * `BookPage.objects.get(book=book, page_number=n)`: the row for (book, n), which the
   * unique constraint makes the only one.
   */
  function FindPage(pages: set<BookPage>, book: BookId, n: nat): (r: Option<BookPage>)
    requires UniquePages(pages)
    ensures r.Some? ==> r.value in pages && r.value.book == book && r.value.pageNumber == n
    ensures r.None? ==> forall p | p in pages :: !(p.book == book && p.pageNumber == n)
  {
    if exists p | p in pages :: p.book == book && p.pageNumber == n then
      var p :| p in pages && p.book == book && p.pageNumber == n;
      Some(p)
    else
      None
  }

  /**
   * `BookPageImage.objects.filter(book_id=book, page_number=n).first()`: the row for
   * (book, n), which the unique constraint makes the only one.
   */
  function FindPageImage(images: set<BookPageImage>, book: BookId, n: nat): (r: Option<BookPageImage>)
    requires UniquePageImages(images)
    ensures r.Some? ==> r.value in images && r.value.book == book && r.value.pageNumber == n
    ensures r.None? ==> forall p | p in images :: !(p.book == book && p.pageNumber == n)
  {
    if exists p | p in images :: p.book == book && p.pageNumber == n then
      var p :| p in images && p.book == book && p.pageNumber == n;
      Some(p)
    else
      None
  }

  /** `BookPageImage.objects.filter(book_id=book).count()`. */
  function ImageCount(images: set<BookPageImage>, book: BookId): (n: nat)
    ensures n == 0 <==> forall p | p in images :: p.book != book
  {
    var own := set p | p in images && p.book == book;
    assert forall p | p in images && p.book == book :: p in own;
    |own|
  }

  /** The `(book, page_number)` unique constraint of BookPage. */
  ghost predicate UniquePages(pages: set<BookPage>) {
    forall p, q | p in pages && q in pages :: p.book == q.book && p.pageNumber == q.pageNumber ==> p == q
  }

  /** The `(book, page_number)` unique constraint of BookPageImage. */
  ghost predicate UniquePageImages(images: set<BookPageImage>) {
    forall p, q | p in images && q in images :: p.book == q.book && p.pageNumber == q.pageNumber ==> p == q
  }

  /** Users in primary-key order, with Django's unique `username`. */
  ghost predicate UsersWellFormed(users: seq<User>) {
    (forall i, j | 0 <= i < j < |users| :: users[i].id < users[j].id)
    && (forall i, j | 0 <= i < j < |users| :: users[i].username != users[j].username)
  }

  /** The primary key given to a new user: one more than the largest existing key (ids of deleted users are not tracked). */
  function NextUserId(users: seq<User>): (id: UserId)
    ensures UsersWellFormed(users) ==> forall i | 0 <= i < |users| :: users[i].id < id
  {
    if users == [] then 1 else users[|users| - 1].id + 1
  }

  /** The set of usernames in the user table. */
  function Usernames(users: seq<User>): set<string> {
    set i | 0 <= i < |users| :: users[i].username
  }

  /** Appending a user with the next id and an unused username keeps the table well formed. */
  lemma AppendUser(users: seq<User>, u: User)
    requires UsersWellFormed(users)
    requires u.id == NextUserId(users) && u.username !in Usernames(users)
    ensures UsersWellFormed(users + [u])
  {
    var all := users + [u];
    forall i, j | 0 <= i < j < |all| ensures all[i].id < all[j].id && all[i].username != all[j].username {
      if j == |users| {
        assert all[i] == users[i];
        assert users[i].username in Usernames(users);
      }
    }
  }

  /** The application database: one field per table. */
  class Database {
    var books: map<BookId, Book>
    var pages: set<BookPage>
    var pageImages: set<BookPageImage>
    var progress: map<(UserId, BookId), Progress>
    var favorites: set<(UserId, BookId)>
    var ratings: map<(UserId, BookId), Rating>
    var users: seq<User>

    ghost predicate Valid()
      reads this
    {
      (forall id | id in books :: books[id].id == id)
      && UniquePages(pages)
      && UniquePageImages(pageImages)
      && UsersWellFormed(users)
    }

    constructor ()
      ensures Valid()
      ensures books == map[] && pages == {} && pageImages == {} && progress == map[]
      ensures favorites == {} && ratings == map[] && users == []
    {
      books, pages, pageImages := map[], {}, {};
      progress, favorites, ratings, users := map[], {}, map[], [];
    }
  }

  /**
   * The S3-compatible bucket. `refused` is the set of keys on which `put_object`
   * raises (credentials, network), which the model takes as given.
   */
  class ObjectStore {
    var objects: map<string, Bytes>
    const refused: set<string>

    constructor (refused: set<string>)
      ensures objects == map[] && this.refused == refused
    {
      objects := map[];
      this.refused := refused;
    }

    /** `put_object(Key=key, Body=body)`: overwrites the object, or raises (`ok` false) and stores nothing. */
    method Put(key: string, body: Bytes) returns (ok: bool)
      modifies this`objects
      ensures ok <==> key !in refused
      ensures objects == if ok then old(objects)[key := body] else old(objects)
    {
      ok := key !in refused;
      if ok {
        objects := objects[key := body];
      }
    }
  }

  /** Every page row points at an object that exists: uploads happen before rows. */
  ghost predicate RowsBacked(pages: set<BookPage>, objects: map<string, Bytes>) {
    forall p | p in pages :: p.imageKey in objects
  }
}
