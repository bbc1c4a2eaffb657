# Book catalog with reviews — a verified model

This project models the core of a small book-review HTTP service. The service keeps three pieces of
in-memory state:

- a catalog of ten seeded books, each with an author, a title, an ISBN and a map from username to
  review text;
- a registry of username/password records;
- a per-client session that login binds a username into.

The public routes register users and query the catalog. The customer routes log in, and add,
update or delete the session user's review of a book.

The model follows the source files one module each:

- `BooksDb` (`booksdb.dfy`) holds the seed catalog, the `Catalog` object whose `books` field is a
  `seq<Book>` in id order, and the lookups. The lookups are first match by ISBN, first match by
  title, and filter by author. They are pure functions over that sequence.
- `UsersDb` (`usersdb.dfy`) holds the `Registry` object with its `users` sequence and the two
  queries `IsValid` and `AuthenticatedUser`.
- `General` (`general.dfy`) holds the public routes. `Register` is a method that appends to the
  registry after its guards. The GET routes are functions from a lookup result to a status code and
  payload.
- `AuthUsers` (`auth_users.dfy`) holds the `Session` object and the customer routes. `Login`,
  `PutReview` and `DeleteReview` are methods that run the source's chain of early-return guards and
  then make their one in-place change.
- `Wrappers` holds `Option`. `Request` holds `Missing`: a request field is missing when JavaScript
  treats it as falsy, that is when it is absent or the empty string.
- `Scenario` replays a sample review exchange through the handlers' contracts.

**The ISBN lookup returns the stored record.** The source writes reviews through the book object
that the ISBN lookup hands back. The model represents that object by its position in the catalog.
`FindIndex` returns the position, and `WithReviews` is the write through it. `ReviewWriteVisible`
proves that the write is seen by every later lookup that lands on the record and by no other
lookup.

**Catalog invariant.** `Catalog.Valid` holds for the seed and is preserved by every write. It says
that ISBNs and titles are pairwise distinct, and that every review has a non-empty username and a
non-empty text. Registration keeps usernames in the registry unique and non-empty
(`Registry.Valid`).

**The added/updated defect is reproduced.** The PUT route decides between "added" and "updated"
with `Object.keys(book.reviews).find((username) => username === username)` (auth_users.js:71-73).
The arrow's parameter shadows the session username, so every key matches itself. The route
therefore reports "added" exactly when the book had no reviews before the call, whoever wrote
them. `PutReview` returns that verb (`AsWrittenVerb`), because that is what clients of the service
observe. Beside it, `IntendedVerb` gives the verb the message evidently means. `VerbsAgreeIff`
characterises when the two differ, and `ShadowedVerbMisreports` exhibits a case: alice's first
review of a book that bob has reviewed is reported as "updated". The found key could only be
falsy if it were the empty string, which the catalog invariant rules out.

**DELETE's guard follows the code exactly.** It tests the truthiness of `book.reviews[username]`,
not key presence (`HasReview`). `HasReviewIffPresent` proves that the two agree under the catalog
invariant.

## Model

| member | source | states |
|---|---|---|
| `Request.Missing` | final_project/router/auth_users.js:25-30 | a field is missing, as the handlers' `!field` guards test it, iff it is absent or the empty string; a present field is a non-empty string |
| `BooksDb.Catalog.constructor` | final_project/router/booksdb.js:1-62 | the catalog starts as the ten seeded books and satisfies the catalog invariant |
| `BooksDb.SeedCatalog` | final_project/router/booksdb.js:1-62 | the seed has ten books, none with a review, with pairwise distinct ISBNs and titles |
| `BooksDb.SeedUnknownAuthor` | final_project/router/booksdb.js:20-43 | the author lookup for "Unknown" on the seed returns exactly the books with ids 4, 5, 6, 7, in that order |
| `BooksDb.FindIndex` | final_project/router/booksdb.js:81-88 | the result is the position of the first book in id order whose field equals the argument exactly, or none when no book's does |
| `BooksDb.FetchBookByIsbn` | final_project/router/booksdb.js:81-88 | a book is returned iff some book has that ISBN, and it is the first book in id order with that ISBN |
| `BooksDb.FetchBookByTitle` | final_project/router/booksdb.js:111-118 | a book is returned iff some book has that title, and it is the first book in id order with that title |
| `BooksDb.Filter` | final_project/router/booksdb.js:97-99 | the result holds exactly the books whose field equals the argument, and is no longer than the catalog |
| `BooksDb.FetchBookByAuthor` | final_project/router/booksdb.js:95-104 | the result holds exactly the catalog's books by that author, possibly none |
| `BooksDb.FilterAppend` | final_project/router/booksdb.js:97-99 | filtering distributes over concatenation, so the author lookup keeps catalog order |
| `BooksDb.IsbnLookupFindsRecord` | final_project/router/booksdb.js:83-85 | with distinct ISBNs, looking up a stored book's ISBN finds exactly that record |
| `BooksDb.FindIgnoresReviews` | final_project/router/booksdb.js:83-85 | writing a record's reviews (`WithReviews`) changes no first-match lookup result |
| `BooksDb.ReviewWriteVisible` | final_project/router/booksdb.js:83-85 | after a write through the record the ISBN lookup returned (`WithReviews`), a later lookup of that ISBN returns the record with the new reviews, every first-match lookup lands where it did, and every other record is unchanged |
| `UsersDb.Registry.constructor` | final_project/router/usersdb.js:1 | the registry starts empty |
| `UsersDb.IsValid` | final_project/router/usersdb.js:8-10 | true iff no stored record has exactly that username |
| `UsersDb.AuthenticatedUser` | final_project/router/usersdb.js:19-27 | true iff some stored record has exactly that username and that password |
| `UsersDb.FreeNameCannotAuthenticate` | final_project/router/usersdb.js:8-27 | a name that is still free fails authentication for every password |
| `UsersDb.AppendUser` | final_project/router/general.js:31 | after the append the name is taken, the new password authenticates, and the earlier records are unchanged |
| `UsersDb.AppendUserKeepsUnique` | final_project/router/general.js:22-31 | appending a free, non-empty name keeps the usernames pairwise distinct and non-empty |
| `General.Register` | final_project/router/general.js:20-33 | missing username gives 400 first, then missing password gives 400, then a taken name gives 400 "already exists", each leaving users unchanged; otherwise exactly one record is appended, 201, and the registry invariant is kept |
| `General.GetBooks` | final_project/router/general.js:42-46 | 200 with the whole catalog as it is |
| `General.GetByIsbn` | final_project/router/general.js:64-82 | 400 when the ISBN is missing; otherwise 404 iff no book has it, a found ISBN gives 200 with a body, and 200 carries the first book with that ISBN |
| `General.GetByAuthor` | final_project/router/general.js:93-106 | 400 when the author is missing; otherwise 200 with exactly the books by that author, possibly none |
| `General.GetByTitle` | final_project/router/general.js:118-136 | 400 when the title is missing; otherwise 404 iff no book has it, a found title gives 200 with a body, and 200 carries the first book with that title |
| `General.GetReviews` | final_project/router/general.js:148-166 | 400 when the ISBN is missing; otherwise 404 iff no book has it, a found ISBN gives 200 with a body, and 200 carries the reviews map of the first book with that ISBN |
| `AuthUsers.Session.constructor` | final_project/index.js:14-18 | a new session carries no authorization |
| `AuthUsers.Session.Username` | final_project/router/auth_users.js:59 | the session username is present iff login stored an authorization, and then it is the username stored there |
| `AuthUsers.Login` | final_project/router/auth_users.js:21-43 | missing username gives 400, then missing password gives 400, then non-matching credentials give 401, each with the session unchanged; otherwise 200 and the session holds the token and that username |
| `AuthUsers.PutReview` | final_project/router/auth_users.js:57-82 | no session user gives 401, then an unknown ISBN gives 404, then a missing review gives 400, each with the catalog unchanged; otherwise the user's review of the first matching book is set, the catalog invariant is kept, and the verb is the as-written one |
| `AuthUsers.DeleteReview` | final_project/router/auth_users.js:94-112 | no session user gives 401, then an unknown ISBN gives 404, then no truthy review by the user gives 404, each with the catalog unchanged; otherwise exactly that user's key is removed, 200 |
| `AuthUsers.AsWrittenVerb` | final_project/router/auth_users.js:71-75 | the shadowed `find` (`ShadowedKeyFound`) succeeds iff the map has a key, so the verb is "added" iff the book had no reviews at all before the call |
| `AuthUsers.IntendedVerb` | final_project/router/auth_users.js:71-75 | the verb the message means: "added" iff this user had no review of the book |
| `AuthUsers.VerbsAgreeIff` | final_project/router/auth_users.js:71-75 | the as-written verb equals the intended one iff the book had no reviews or this user already had one |
| `AuthUsers.ShadowedVerbMisreports` | final_project/router/auth_users.js:71-73 | alice's first review of a book bob reviewed is reported "updated" where "added" is meant |
| `AuthUsers.HasReviewIffPresent` | final_project/router/auth_users.js:104 | on a well-formed reviews map the truthiness test of DELETE (`HasReview`) holds iff the user has a key in the map |
| `AuthUsers.SetReviewFrame` | final_project/router/auth_users.js:74 | a review write (`SetReview`) changes only that user's entry of that book, which becomes the text; every other entry, the book's other fields and all other books stay as they were; one entry per user |
| `AuthUsers.SetReviewKeepsInvariant` | final_project/router/auth_users.js:59-74 | writing a non-empty user's non-empty review (`SetReview`) keeps the catalog invariant |
| `AuthUsers.RemoveReviewKeepsInvariant` | final_project/router/auth_users.js:107 | deleting a review (`RemoveReview`) keeps the catalog invariant |
| `AuthUsers.PutIdempotent` | final_project/router/auth_users.js:63-74 | a repeated successful PUT finds the same book and leaves the catalog as the first PUT left it |
| `AuthUsers.PutThenDelete` | final_project/router/auth_users.js:74-107 | after a successful PUT (`SetReview`) the same user's DELETE finds a truthy review (`HasReview`), and afterwards the book's reviews equal the earlier ones minus that user's key |
| `Scenario.SignIn` | final_project/router/auth_users.js:21-39 | registering then logging in as alice succeeds and binds alice into the session |
| `Scenario.ReviewExample` | final_project/router/auth_users.js:71-78 | on the seed, alice's first PUT on book 1 reports "added", her second "updated", and GET /review then shows only her latest text |

## Left out

- The Express wiring, the session middleware and `app.listen` (final_project/index.js) are not modelled. The session is an object passed to the handlers.
- The auth gate (final_project/index.js:21-34) is not modelled. Its 401 branch repeats the handlers' own session check, and its 403 branch rests on `jwt.verify`, a cryptographic and clock-dependent call.
- JWT signing and its one-hour expiry (auth_users.js:35-37) and the secret read from the environment (auth_users.js:8) are not modelled. The access token is an opaque string that the caller passes to `Login`.
- The `setTimeout` and Promise latency of every store call is not modelled. Every call returns synchronously, so interleaving between a lookup and the write that follows it is not captured.
- The 500 `catch` branches, `console.log`, and the JSON and message text are not modelled. Each reply is its outcome and status code, plus the added/updated verb for PUT.
- The implicit global assignment `user = ...` (usersdb.js:24) is not modelled; it has no effect on the modelled state.
- Request fields are modelled as strings or absent. A non-string JSON value (a number, an object) and its JavaScript truthiness are not modelled.
- Reviews are a plain dictionary. Usernames that collide with `Object.prototype` property names (such as `toString` or `__proto__`) are not modelled; for those, JavaScript property lookup and assignment behave differently.
- GetBooks: GET / (general.js:44-46) replies with the object the catalog store resolves, keyed by ids 1 to 10. The model returns the books as a sequence in id order instead; a book's id is implicit as its index plus one.
- Path parameters of the customer routes are always present strings (Express requires them). The public GET routes keep their "missing parameter" 400 branch.
