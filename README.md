# owlsight reading core in Dafny

This project models the page-reading pipeline of the owlsight Django site and proves properties of it.

- **Pagination build.** A book's PDF is rendered into WEBP page images. Each image is put into an S3-compatible bucket under a deterministic key, and a `BookPage` row is created for it. The rows and the book's `total_pages` commit together in one database transaction, while an uploaded object stays in the bucket even when the transaction rolls back. A build runs only while the book has no rows, so a failed build, or a PDF with no pages, is rendered and uploaded again on the next request.
- **Two page-read gateways.** Each is modelled as written.
  - The books API (`read_page_api`) has a flat ceiling: 10 pages for premium; otherwise `total_pages` when it is set, and 999999 when the total is unknown. It checks the ceiling before building pages on demand.
  - The session reader (`read_page`) allows `max(1, ceil(total × 5% | 10%))` pages. It falls back to the `BookPageImage` rows for the book's length, and records reading progress only when it serves a page.
- **The book list with its per-book counts**, the reader's favourites and ratings, registration validation, and the two login endpoints (password and Google identity token).

The database is one class, `Models.Database`, with one field per table:

- `books` is a map from id to `Book`.
- `pages` and `pageImages` are sets of rows. The `(book, page_number)` uniqueness constraints are part of `Valid()`.
- `progress` and `ratings` are maps keyed by `(user, book)`. Those keys are unique by construction.
- `favorites` is a set of `(user, book)` pairs.
- `users` is a sequence in primary-key order, since `QuerySet.first()` picks the smallest key.

The bucket is `Models.ObjectStore`, a map from key to bytes. A fixed set of keys on which `put_object` raises stands in for network and credential failures.

Views are methods over these two objects. They return a datatype with one constructor per HTTP exit. Where a view has more than one status code, `Status()` gives each exit's code; `ProgressResponse`, `FavoritesResponse` and `ShareResponse` have only a login redirect besides their single 200 answer, and carry no `Status()`. Python's truthiness, `dict.get`, `(x or "")`, `int(x or 0)`, `str.strip`, `str.lower` and `str(n)` are written out in the modules `Json` and `Text`.

Parameters stand in for everything the code calls but does not define, and the model takes them as given:

- the PDF renderer (`PageBuild.PdfDocument`, `PageBuild.PdfBlob`);
- the storage URL function;
- the URL signer;
- `json.loads`;
- Django's `authenticate`;
- the Google token verifier;
- the clock.

Arithmetic is exact: `ceil` is computed by integer division and `round` half-to-even on the exact ratio.

## Model

| member | source | states |
|---|---|---|
| Text.Strip | books/page_build.py:26 | the result is the input without its leading and trailing dropped characters: empty exactly when every character is dropped, otherwise a contiguous slice whose two ends are kept characters |
| Text.StripKeepsEnds | accounts/views.py:27 | a string whose first and last characters are not stripped is unchanged by strip |
| Text.Trim | accounts/views.py:27 | `strip()` is empty exactly when the input is all whitespace, and otherwise starts and ends with a non-space |
| Text.SameIgnoringCaseEquivalence | accounts/views.py:42-44 | `__iexact` is reflexive, symmetric and transitive |
| Text.SameIgnoringCaseLower | accounts/views.py:42-44 | strings of different lengths never match ignoring case, and a string matches its own lowercase |
| Text.Lower | accounts/views.py:28 | lowercasing keeps the length and maps each character to its lowercase form |
| Text.LowerIdempotent | accounts/views.py:28 | lowercasing twice is lowercasing once, so a lowercased email stays lowercase |
| Text.NatStr | books/page_build.py:76 | `str(n)` is a non-empty digit string, with at least two digits from 10 up; the absence of a leading zero is `Text.NatStrNoLeadingZero` |
| Text.NatStrNoLeadingZero | books/page_build.py:76 | `str(n)` is "0" for 0 and otherwise starts with a non-zero digit |
| Text.ParseNatStr | books/page_build.py:76 | `str(n)` reads back as `n` |
| Text.NatStrInjective | books/page_build.py:76 | different book ids have different decimal strings |
| Text.Pad4RoundTrip | books/page_build.py:76 | `{n:04d}` has at least 4 characters, exactly 4 for n ≤ 9999, and reads back as n |
| Text.Pad4Injective | books/page_build.py:76 | different page numbers give different padded fields |
| Text.Take | frontend/api_views.py:126-127 | `s[:150]` is a prefix of `s`: all of `s` when it has at most 150 characters, otherwise exactly its first 150 |
| Text.BeforeFirst | frontend/api_views.py:116 | `split("@")[0]` is the longest prefix without "@", followed in the input by "@" when shorter than the input |
| Json.FalsyValues | accounts/views.py:25-31 | exactly None, False, 0, "", [] and {} are falsy |
| Json.Get | reading/api_views.py:71 | a present key reads as its value, a missing key as null |
| Json.StringValue | accounts/views.py:27-31 | a falsy value becomes "", a string is kept, and every truthy value that is not a string has no string methods (an exception) |
| Json.Truncate | reading/api_views.py:71 | `int()` of a number truncates toward zero |
| Json.ParseTrimmed | reading/api_views.py:71 | a digit string reads as its decimal value, a `+` or `-` followed by digits as that value signed, and every other ASCII-digit form raises (underscores and Unicode digits are not modelled) |
| Json.ParseInt | reading/api_views.py:71 | `int(s)` ignores surrounding whitespace and reads the rest as `ParseTrimmed` does |
| Json.IntValue | reading/api_views.py:71 | `int(v or 0)` is 0 for a falsy value, 1 for True, the truncation for a number, `int(s)` for a non-empty string, and raises for a non-empty list or dict |
| Json.ParseIntNatStr | reading/api_views.py:71 | `int(str(n))` is n and `int("-" + str(n))` is -n |
| Models.PagesOf | books/page_build.py:55 | the rows selected for a book are exactly the table's rows that belong to that book |
| Models.PageCount | books/page_build.py:55-57 | the count is 0 exactly when no row belongs to the book |
| Models.ImageCount | reading/views.py:33 | the BookPageImage count is 0 exactly when no image row belongs to the book |
| Models.FindPage | books/views.py:245 | the returned row is the table's row for (book, n); when there is none, no row has that book and number |
| Models.FindPageImage | reading/views.py:70 | the same for the BookPageImage table |
| Models.NextUserId | accounts/views.py:51-55 | the next user id is larger than every existing id |
| Models.AppendUser | accounts/views.py:51-61 | appending a user with the id `Models.NextUserId` allocates and an unused username keeps ids increasing and usernames unique |
| Models.ObjectStore.Put | books/page_build.py:78-84 | a put succeeds exactly when the store accepts the key, and then overwrites that key alone; a refused put changes nothing |
| Sets.ArgMaxExists | reading/api_views.py:20 | every finite non-empty set has an element where the ordering key is largest |
| Sets.OrderByDescending | reading/api_views.py:16-21 | `order_by("-f")` lists every key exactly once, with f non-increasing |
| PageBuild.KeyPrefix | books/page_build.py:24-27 | the prefix is "" exactly when the location is all slashes; otherwise it is the slash-stripped location plus one "/", and starts and ends with a single slash boundary |
| PageBuild.PageKey | books/page_build.py:76 | the key starts with the prefix followed by `pages/` and ends in `.webp` |
| PageBuild.PageKeyLayout | books/page_build.py:76 | for 1 ≤ n ≤ 9999 the key ends in "/" + a 4-digit field + ".webp", and the field parses back to n; between `pages/` and that slash stands `str(book.id)` |
| PageBuild.PageKeyInjective | books/page_build.py:76 | equal keys mean the same book and page number, so no two pages share an object |
| PageBuild.RenderPdfPages | books/page_build.py:30-47 | one page per raster, numbered i + 1, carrying that raster's bytes and size |
| PageBuild.RenderedNumbers | books/page_build.py:36-47 | rendered numbers are strictly increasing and lie in 1..N |
| PageBuild.FirstRefused | books/page_build.py:75-84 | the index of the first refused upload: every earlier key was accepted, and this one is refused |
| PageBuild.RowFor | books/page_build.py:86-92 | the created row has the book, the page number, the page key and the rendered width and height |
| PageBuild.RowsForShape | books/page_build.py:86-92 | every created row belongs to the book, has a number in 1..N and is keyed by its page key |
| PageBuild.RowsForCount | books/page_build.py:86-93 | a build creates exactly N rows, with no (book, page) duplicate |
| PageBuild.RowsForComplete | books/page_build.py:75-92 | page i's row is among the created rows, numbered i + 1 |
| PageBuild.RowsForUploaded | books/page_build.py:78-92 | every created row's key is among the uploaded objects |
| PageBuild.CommitFacts | books/page_build.py:86-96 | adding a build's rows to a table with no rows for that book keeps the unique constraint, and the book then has N rows |
| PageBuild.BuildStep | books/page_build.py:75-93 | one loop step adds that page's row to the rows and its object to the uploads |
| PageBuild.PutPages | books/page_build.py:75-93 | the loop stops at the first refused put; rows and objects are exactly those of the pages before it, each object put before its row |
| PageBuild.AtomicBuild | books/page_build.py:74-96 | all or nothing: on a refused put or a render error the rows and `total_pages` are rolled back while the objects already put stay; on success the rows are added and `total_pages` is N |
| PageBuild.BuildFailsIff | books/page_build.py:59-96 | a build of a book without rows succeeds exactly when it has a pdf_file that reads, a bucket is set, the renderer does not raise and no page's put is refused |
| PageBuild.BuildPagesIfMissing | books/page_build.py:50-98 | a book with rows is returned with its count and nothing changes; missing pdf_file, unreadable file and empty bucket fail in that order, before any upload; otherwise the transaction outcome; it fails exactly under `BuildFails`, and a failure leaves rows and books unchanged; for a book without rows the store keeps the objects of every page put before the first refusal, and a success adds the rows of every rendered page and sets `total_pages` to their number; rows stay backed by objects |
| PageBuild.BuildSuccessCount | books/page_build.py:86-98 | on success the return value, the rendered page count, the book's row count and `total_pages` are the same N |
| PageBuild.BuildSuccessRows | books/page_build.py:75-96 | on success the book's rows are numbered exactly 1..N, and each row's key is its page key and names an uploaded object |
| BooksViews.GetBookType | books/views.py:83-93 | `book_type` when set, else `type` when set, else "premium"/"free" from `is_premium`, else "free"; never empty |
| BooksViews.SchemaBookType | books/views.py:83-93 | on the books schema, a blank type reads as "free", and only a "premium" column makes a book premium |
| BooksViews.FilefieldKey | books/views.py:72-80 | a file field's key is its name, or "" without one |
| BooksViews.PresignGet | books/views.py:47-69 | no URL is signed without a key or without a bucket; otherwise the signer's URL for (bucket, key, expiry) |
| BooksViews.ApiCeiling | books/views.py:216-222 | 10 for premium whatever the length; otherwise `total_pages`, or 999999 when it is 0 or unset |
| BooksViews.FreeReadsWholeBook | books/views.py:219-222 | a non-premium book of known length lets through exactly its pages |
| BooksViews.CoverUrl | books/views.py:257-262 | "" without a cover, the storage URL of the cover otherwise |
| BooksViews.ReadPageApi | books/views.py:191-275 | 401 before any lookup; 404 for an unknown book; 403 with the ceiling and stored total when page > ceiling, with nothing built; a build only for a book with no rows, with 409 exactly when it fails; then 404 echoing the number and the pre-build total, or 200 with the row's number, the post-build total and the ceiling; after an on-demand build the store holds the objects put before the first refusal, and a successful build adds the rows of every rendered page and sets `total_pages` to their number N, which the 200 reports |
| BooksViews.RatingCounts | books/views.py:110-115 | the count map holds, for each rated book, its number of ratings |
| BooksViews.ReaderCounts | books/views.py:117-130 | the readers map holds, for each book with a progress row in the window, its number of distinct users |
| BooksViews.Genre | books/views.py:153-157 | a set genre is shown; without one, either "" or the category |
| BooksViews.GenreFallback | books/views.py:153-157 | genre, else category, else "" |
| BooksViews.Summarize | books/views.py:151-180 | an entry copies the book's id, title, author, description and creation time, shows its genre, its non-empty type and its cover, and takes each count from its aggregate map or 0 |
| BooksViews.SummaryCounts | books/views.py:159-164 | defaulting a missing map entry to 0 gives the true count of ratings, readers and active readers |
| BooksViews.NewestFirst | books/views.py:132 | every book id exactly once, strictly decreasing |
| BooksViews.BooksListApi | books/views.py:100-182 | every book exactly once, newest id first, each entry its summary computed from the aggregate maps |
| ReadingViews.PreviewPercent | reading/views.py:50 | the preview share is 5% for premium and 10% otherwise |
| ReadingViews.PreviewCeiling | reading/views.py:50 | at least 1, at most the total for a non-empty book, exactly the ceiling of total × share when that is positive, and 1 for an empty book |
| ReadingViews.PreviewMonotone | reading/views.py:50 | a longer book never has a shorter preview |
| ReadingViews.PremiumPreviewShorter | reading/views.py:50 | a premium preview is never longer than the free one |
| ReadingViews.PreviewLeavesLastPageLocked | reading/views.py:50 | from two pages on, the preview stops before the last page |
| ReadingViews.RoundHalfEven | reading/views.py:98 | the result is within half a unit of num/den, and even on an exact tie |
| ReadingViews.RoundedPercentBounds | reading/views.py:98 | the rounded percentage is at least 100 at or past the end, and at most 100 within the book |
| ReadingViews.ProgressPercent | reading/views.py:98-102 | the stored percentage is at most 100, is 100 at or past the last page, and is 0 on page 0 |
| ReadingViews.ProgressUnclamped | reading/views.py:98-102 | within the book the clamp changes nothing |
| ReadingViews.ReadingType | reading/views.py:27 | "free" when blank, otherwise the type in lowercase; premium exactly when the stored type is "premium" in any case |
| ReadingViews.EffectiveTotal | reading/views.py:31-33 | the stored total when positive, else the number of BookPageImage rows of the book |
| ReadingViews.Cta | reading/views.py:56 | "pay" exactly for premium, "share" otherwise |
| ReadingViews.ReadPage | reading/views.py:19-112 | login redirect; 404 for an unknown book; 400 when neither the total nor the image rows give a length; the fallback count saved to the book; 403 with "pay"/"share" past the ceiling; 404 for a missing row or empty image; 500 for an empty URL; 200 upserting exactly the requester's progress for the book with the page and its percentage; progress untouched on every other exit |
| ReadingViews.ServedPageInsideBook | reading/views.py:50-102 | a page inside the preview is inside the book, so its percentage is the exact rounded ratio |
| ReadingViews.UnlockShare | reading/views.py:115-118 | a logged-in request always gets ok, and nothing is stored |
| ReadingApi.ProgressMe | reading/api_views.py:13-31 | the requester's progress rows and no one else's, each book once, most recently updated first |
| ReadingApi.FavoritesMe | reading/api_views.py:34-39 | exactly the book ids of the requester's favourites, each once |
| ReadingApi.Toggled | reading/api_views.py:50-55 | the toggled pair's membership flips and every other pair keeps its membership |
| ReadingApi.ToggleTwice | reading/api_views.py:50-55 | toggling twice restores the table |
| ReadingApi.FavoritesToggle | reading/api_views.py:42-55 | 404 and no change for an unknown book; otherwise the (user, book) favourite flips and the response says whether it now exists |
| ReadingApi.ReadStars | reading/api_views.py:66-71 | an empty or malformed body reads as 0 stars; a body that is not UTF-8 or a payload that is not an object raises |
| ReadingApi.MissingStarsIsZero | reading/api_views.py:71 | a payload without `stars` reads as 0 |
| ReadingApi.RateBook | reading/api_views.py:58-90 | stars outside 1..5 give 400 with no write; valid stars set the requester's one rating for the book, and the count is the book's ratings after the upsert |
| ReadingApi.UpsertCount | reading/api_views.py:75-89 | after the upsert the book has at least one rating, exactly one more than before when the reader had not rated it, and every other rating is unchanged |
| AccountsViews.RegistrationErrors | accounts/views.py:34-45 | a field is in the error map exactly when it has a problem, and the map holds that problem |
| AccountsViews.AcceptedIff | accounts/views.py:34-47 | the error map is empty exactly when username and email are present and unused (ignoring case) and the password has at least 6 characters |
| AccountsViews.CollectErrors | accounts/views.py:34-45 | the view's field-by-field construction equals the declarative per-field error map; the uniqueness checks run only on a non-empty name or email, so they never replace a "required" entry |
| AccountsViews.PayloadFields | accounts/views.py:25 | a falsy payload reads as `{}`, an object as its fields, and anything else raises |
| AccountsViews.ReadSignUp | accounts/views.py:25-31 | reads all five fields or raises; the username is trimmed, the email trimmed and lowercased (so already lowercase), the password kept as given, and first and last name trimmed |
| AccountsViews.Register | accounts/views.py:24-71 | 500 exactly when a field cannot be read; otherwise the registration outcome |
| AccountsViews.CreateAccount | accounts/views.py:34-70 | 400 with the error map and no user when it is non-empty; otherwise exactly one active user with the id `Models.NextUserId` allocates is appended, and 201 returns its id, username and email |
| AccountsViews.NewNameIsFree | accounts/views.py:42-43 | a name that matches no username ignoring case is not in the table |
| AccountsViews.RegisteredNameTaken | accounts/views.py:42-43 | once a username is registered, the same name in any case is refused as taken |
| FrontendApi.JsonBody | frontend/api_views.py:22-26 | `{}` for a body that is not UTF-8, empty, or malformed; otherwise the parsed document |
| FrontendApi.FirstEmailMatch | frontend/api_views.py:48 | the first user in key order whose email matches ignoring case, with no match before it |
| FrontendApi.FirstUserByEmail | frontend/api_views.py:113 | none exactly when no email matches; otherwise that first match |
| FrontendApi.ResolveLoginName | frontend/api_views.py:45-50 | input without "@" is kept; with "@" it becomes the username of the first matching user, or is kept when none matches |
| FrontendApi.Login | frontend/api_views.py:29-68 | 500 for a payload that is not an object or a username that is not a string; 400 for an empty body, an empty trimmed name or a falsy password, before authenticating; 401 when authentication fails; 403 for an inactive user; otherwise a session of 1209600 s with `remember`, else one that ends with the browser |
| FrontendApi.CheckClaims | frontend/api_views.py:101-110 | the claims fail in order: empty email, then unverified, then missing `sub`; on success the trimmed, lowercased email |
| FrontendApi.Candidate | frontend/api_views.py:117-121 | the first attempt is `base` itself, and attempt i ≥ 2 is `base` followed by `str(i)` |
| FrontendApi.CandidateInjective | frontend/api_views.py:116-121 | different attempts try different usernames |
| FrontendApi.FreshUsername | frontend/api_views.py:116-121 | the first of `base`, `base2`, `base3`, … that no existing username equals; every earlier attempt is taken |
| FrontendApi.GoogleAccount | frontend/api_views.py:123-131 | the new account has an id above every existing one, the chosen username and the email, is active with an unusable password, and keeps the first 150 characters of each name |
| FrontendApi.GoogleLogin | frontend/api_views.py:71-136 | 400 without a credential; 500 without a client id; 401 for a rejected token; the ordered claim errors; an account with the same email (ignoring case) is reused with no user created; otherwise exactly one account is appended, with a free username derived from the local part, names cut to 150 characters and an unusable password; a two-week session |
| FrontendApi.SecondGoogleLoginReuses | frontend/api_views.py:113-114 | after a Google sign-up, the same email finds the created account |

## Left out

- PDF rasterisation and WEBP encoding (pypdfium2, PIL) are foreign libraries. The renderer is an abstract document: it yields some rasters and may raise after them.
- BooksViews.ReadPageApi: the storage URL function is total here. At books/views.py:254 the page URL is made outside any `try`, so a storage error there answers 500, while the cover URL (books/views.py:257-262) falls back to ""; the model has neither exception.
- S3/B2 clients, `default_storage.url` and presigned URLs do network I/O. Puts are modelled by `Models.ObjectStore`. URLs and signatures are function parameters, and only the empty-key and empty-bucket guards are modelled.
- Django's `authenticate`, `login`, sessions and the Google token verifier are library calls. They are parameters, and the session expiry is returned as a value. Since `authenticate` is abstract, the model does not know that Django's backend already refuses inactive users.
- The `BookPage is None` branch (books/views.py:209-213) cannot happen with the books models shown.
- Floating point is not modelled.
  - `math.ceil(total * 0.05)` and `round(page / total * 100)` are computed on exact ratios. The float expressions can differ on exact halves: 23/40 × 100 is just below 57.5 as a double, so Python gives 57, where the exact ratio rounds to 58.
- ReadingApi.RateBook: the float `avg_rating` is not returned, only the ratings count.
- BooksViews.BooksListApi: the float `avg_rating` of each entry is not modelled; the three counts are.
- Text.Lower and Text.SameIgnoringCase cover ASCII letters only. Python's full Unicode `lower()` and SQL's `iexact` folding are not modelled.
- Request parsing by Django REST framework is not modelled. A registration body that is not valid JSON raises a parse error when `post` first reads `request.data` (accounts/views.py:25), and the framework's exception handler answers 400; `AccountsViews.Register` starts from the already-parsed `request.data`.
- Models.NextUserId: the database's id sequence is modelled as the largest existing id plus one (1 for an empty table). The auto-increment key never reissues a deleted user's id, so after deletions the real id is larger; the ids stay increasing and unique either way.
- NFKC username normalisation in `create_user` is not modelled.
- Json.ParseTrimmed and Json.ParseInt accept ASCII digits with an optional sign. Underscores and Unicode digits are not modelled, and neither are `int()` of NaN or infinity (which raises).
- Json.StringValue: a truthy non-string password is read as an exception. In Python, `len()` works on a list or dict password (so registration would go on), while a number raises.
- FrontendApi.GoogleLogin: token claims are modelled as strings and a boolean, with absent claims as "". A claim of another JSON type is not modelled.
- Timestamps are integers (seconds). `isoformat()` strings in the list and progress responses are not modelled, and neither are `created_at` values.
- Concurrency is not modelled: two first builds racing, and transaction isolation. The world is sequential, and the unique constraints are invariants rather than a locking protocol.
- Database errors that the code does not provoke are not modelled: column length limits (an image key over 500 characters, names over 150 in registration) and a failing `BookPage.objects.create`.
- `books_list`, `MeAPIView.get` and `csrf_view` are simple projections with no rule to state.
- books/urls.py:13-20 routes to views that books/views.py does not define. They are not part of this model.
- Routing decorators (`require_GET`, `require_POST`) are not modelled; each method models the handler body for an allowed HTTP method.
