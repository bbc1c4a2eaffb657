/** The customer routes: login binds a username into the session, and the review routes add,
    update or delete the session user's review on a book, writing through the record that
    the ISBN lookup returned. */
module AuthUsers {
  import opened Wrappers
  import opened Request
  import opened BooksDb
  import opened UsersDb

  /** What login stores in the session. The access token is signed by a library this model does
      not include, so it is an opaque string supplied by the caller. */
  datatype Authorization = Authorization(accessToken: string, username: string)

  /** The server-side session of one client. */
  class Session {
    var authorization: Option<Authorization>

    constructor ()
      ensures authorization == None
    {
      authorization := None;
    }

    /** `req.session?.authorization?.username` */
    function Username(): (r: Param)
      reads this
      ensures r.Some? <==> authorization.Some?
      ensures r.Some? ==> r.value == authorization.value.username
    {
      match authorization
      case None => None
      case Some(a) => Some(a.username)
    }
  }

  /** The word the review route uses in its success message. */
  datatype Verb = Added | Updated

  /** The outcomes of the customer routes, each with its status code. */
  datatype Reply =
    | UsernameRequired | PasswordRequired | InvalidCredentials | LoggedIn
    | Unauthorized | BookNotFound | ReviewRequired | ReviewSaved(verb: Verb)
    | ReviewNotFound | ReviewDeleted
  {
    function Status(): int {
      match this
      case UsernameRequired => 400
      case PasswordRequired => 400
      case ReviewRequired => 400
      case InvalidCredentials => 401
      case Unauthorized => 401
      case BookNotFound => 404
      case ReviewNotFound => 404
      case LoggedIn => 200
      case ReviewSaved(_) => 200
      case ReviewDeleted => 200
    }
  }

  /** The catalog after `username`'s review of the book at position `i` is set to `text`. */
  function SetReview(books: seq<Book>, i: nat, username: string, text: string): seq<Book>
    requires i < |books|
  {
    WithReviews(books, i, books[i].reviews[username := text])
  }

  /** The catalog after `username`'s review of the book at position `i` is deleted. */
  function RemoveReview(books: seq<Book>, i: nat, username: string): seq<Book>
    requires i < |books|
  {
    WithReviews(books, i, books[i].reviews - {username})
  }

  /** `book.reviews[username]` is truthy: the user has a review and it is not the empty string. */
  predicate HasReview(reviews: map<string, string>, username: string) {
    username in reviews && reviews[username] != ""
  }

  /** The presence test of the review route as written:
      `Object.keys(book.reviews).find((username) => username === username)`. The arrow's
      parameter shadows the session username, so each key is compared with itself and the
      first key, if any, is found. The found key is truthy because review keys are non-empty
      usernames (ReviewsWellFormed). */
  predicate ShadowedKeyFound(reviews: map<string, string>, username: string) {
    exists key | key in reviews :: key == key
  }

  /** The verb the review route reports, as written. */
  function AsWrittenVerb(reviews: map<string, string>, username: string): (v: Verb)
    ensures v == Added <==> reviews == map[]
  {
    if ShadowedKeyFound(reviews, username) then Updated else Added
  }

  /** The verb the route's message evidently means: "updated" when this user had a review. */
  function IntendedVerb(reviews: map<string, string>, username: string): (v: Verb)
    ensures v == Added <==> username !in reviews
  {
    if username in reviews then Updated else Added
  }

  /** POST /customer/login: the username check, then the password check, then the credential
      check; only on success is the session bound to the username. */
  method Login(registry: Registry, session: Session, username: Param, password: Param, accessToken: string)
    returns (reply: Reply)
    modifies session
    ensures Missing(username) ==> reply == UsernameRequired
    ensures !Missing(username) && Missing(password) ==> reply == PasswordRequired
    ensures !Missing(username) && !Missing(password)
            && !AuthenticatedUser(registry.users, username.value, password.value)
            ==> reply == InvalidCredentials
    ensures reply == LoggedIn
            <==> !Missing(username) && !Missing(password)
                 && AuthenticatedUser(registry.users, username.value, password.value)
    ensures reply == LoggedIn ==> session.authorization == Some(Authorization(accessToken, username.value))
    ensures reply != LoggedIn ==> session.authorization == old(session.authorization)
  {
    if Missing(username) {
      return UsernameRequired;
    }
    if Missing(password) {
      return PasswordRequired;
    }
    if !AuthenticatedUser(registry.users, username.value, password.value) {
      return InvalidCredentials;
    }
    session.authorization := Some(Authorization(accessToken, username.value));
    reply := LoggedIn;
  }

  /** PUT /customer/auth/review/:isbn: 401 without a session user, 404 for an unknown ISBN,
      400 without a review; otherwise the session user's review of the first book with that
      ISBN is set, and the reply carries the verb as the code computes it. */
  method PutReview(catalog: Catalog, session: Session, isbn: string, review: Param) returns (reply: Reply)
    requires catalog.Valid()
    modifies catalog
    ensures catalog.Valid()
    ensures Missing(session.Username()) ==> reply == Unauthorized
    ensures !Missing(session.Username()) && FindIndex(old(catalog.books), Isbn, isbn).None?
            ==> reply == BookNotFound
    ensures !Missing(session.Username()) && FindIndex(old(catalog.books), Isbn, isbn).Some? && Missing(review)
            ==> reply == ReviewRequired
    ensures reply.ReviewSaved?
            <==> !Missing(session.Username()) && FindIndex(old(catalog.books), Isbn, isbn).Some? && !Missing(review)
    ensures reply.ReviewSaved?
            ==> var i := FindIndex(old(catalog.books), Isbn, isbn).value;
                && catalog.books == SetReview(old(catalog.books), i, session.Username().value, review.value)
                && reply.verb == AsWrittenVerb(old(catalog.books)[i].reviews, session.Username().value)
    ensures !reply.ReviewSaved? ==> catalog.books == old(catalog.books)
  {
    var username := session.Username();
    if Missing(username) {
      return Unauthorized;
    }
    var found := FindIndex(catalog.books, Isbn, isbn);
    if found.None? {
      return BookNotFound;
    }
    if Missing(review) {
      return ReviewRequired;
    }
    var i := found.value;
    var verb := AsWrittenVerb(catalog.books[i].reviews, username.value);
    SetReviewKeepsInvariant(catalog.books, i, username.value, review.value);
    catalog.books := SetReview(catalog.books, i, username.value, review.value);
    reply := ReviewSaved(verb);
  }

  /** DELETE /customer/auth/review/:isbn: 401 without a session user, 404 for an unknown ISBN,
      404 when the user has no (truthy) review there; otherwise that review is deleted. */
  method DeleteReview(catalog: Catalog, session: Session, isbn: string) returns (reply: Reply)
    modifies catalog
    ensures Missing(session.Username()) ==> reply == Unauthorized
    ensures !Missing(session.Username()) && FindIndex(old(catalog.books), Isbn, isbn).None?
            ==> reply == BookNotFound
    ensures !Missing(session.Username()) && FindIndex(old(catalog.books), Isbn, isbn).Some?
            && !HasReview(old(catalog.books)[FindIndex(old(catalog.books), Isbn, isbn).value].reviews, session.Username().value)
            ==> reply == ReviewNotFound
    ensures reply == ReviewDeleted
            <==> && !Missing(session.Username())
                 && FindIndex(old(catalog.books), Isbn, isbn).Some?
                 && HasReview(old(catalog.books)[FindIndex(old(catalog.books), Isbn, isbn).value].reviews, session.Username().value)
    ensures reply == ReviewDeleted
            ==> catalog.books == RemoveReview(old(catalog.books), FindIndex(old(catalog.books), Isbn, isbn).value, session.Username().value)
    ensures reply != ReviewDeleted ==> catalog.books == old(catalog.books)
    ensures old(catalog.Valid()) ==> catalog.Valid()
  {
    var username := session.Username();
    if Missing(username) {
      return Unauthorized;
    }
    var found := FindIndex(catalog.books, Isbn, isbn);
    if found.None? {
      return BookNotFound;
    }
    var i := found.value;
    if !HasReview(catalog.books[i].reviews, username.value) {
      return ReviewNotFound;
    }
    if catalog.Valid() {
      RemoveReviewKeepsInvariant(catalog.books, i, username.value);
    }
    catalog.books := RemoveReview(catalog.books, i, username.value);
    reply := ReviewDeleted;
  }

  /** The DELETE route's truthiness test and key presence agree on a well-formed reviews map,
      where no review text is empty. */
  lemma HasReviewIffPresent(reviews: map<string, string>, username: string)
    requires ReviewsWellFormed(reviews)
    ensures HasReview(reviews, username) <==> username in reviews
  {
  }

  /** Setting a review touches one key of one book: that user's entry of the book at `i`
      becomes `text`, every other entry of that book, its author, title and ISBN, and every
      other book stay as they were. */
  lemma SetReviewFrame(books: seq<Book>, i: nat, username: string, text: string)
    requires i < |books|
    ensures var after := SetReview(books, i, username, text);
            && |after| == |books|
            && (forall j :: 0 <= j < |books| && j != i ==> after[j] == books[j])
            && after[i].author == books[i].author && after[i].title == books[i].title && after[i].isbn == books[i].isbn
            && after[i].reviews.Keys == books[i].reviews.Keys + {username}
            && after[i].reviews[username] == text
            && (forall u :: u in books[i].reviews && u != username ==> after[i].reviews[u] == books[i].reviews[u])
  {
  }

  /** A non-empty user's non-empty review keeps the catalog invariant. */
  lemma SetReviewKeepsInvariant(books: seq<Book>, i: nat, username: string, text: string)
    requires CatalogInvariant(books)
    requires i < |books| && username != "" && text != ""
    ensures CatalogInvariant(SetReview(books, i, username, text))
  {
  }

  /** Deleting a review keeps the catalog invariant. */
  lemma RemoveReviewKeepsInvariant(books: seq<Book>, i: nat, username: string)
    requires CatalogInvariant(books)
    requires i < |books|
    ensures CatalogInvariant(RemoveReview(books, i, username))
  {
  }

  /** Repeating a successful PUT: the second request finds the same book (a review write changes
      no ISBN) and leaves the catalog as the first one left it. */
  lemma PutIdempotent(books: seq<Book>, isbn: string, username: string, text: string)
    requires FindIndex(books, Isbn, isbn).Some?
    ensures var i := FindIndex(books, Isbn, isbn).value;
            var once := SetReview(books, i, username, text);
            && FindIndex(once, Isbn, isbn) == Some(i)
            && SetReview(once, i, username, text) == once
  {
    var i := FindIndex(books, Isbn, isbn).value;
    var once := SetReview(books, i, username, text);
    FindIgnoresReviews(books, i, books[i].reviews[username := text], Isbn, isbn);
    assert once[i].reviews[username := text] == once[i].reviews;
  }

  /** A successful PUT followed by a DELETE from the same user: the DELETE finds the review and
      succeeds, and the book's reviews end as before minus that user's entry. */
  lemma PutThenDelete(books: seq<Book>, isbn: string, username: string, text: string)
    requires FindIndex(books, Isbn, isbn).Some?
    requires text != ""
    ensures var i := FindIndex(books, Isbn, isbn).value;
            var once := SetReview(books, i, username, text);
            && FindIndex(once, Isbn, isbn) == Some(i)
            && HasReview(once[i].reviews, username)
            && RemoveReview(once, i, username) == WithReviews(books, i, books[i].reviews - {username})
  {
    var i := FindIndex(books, Isbn, isbn).value;
    var once := SetReview(books, i, username, text);
    FindIgnoresReviews(books, i, books[i].reviews[username := text], Isbn, isbn);
    WithReviewsTwice(books, i, books[i].reviews[username := text], once[i].reviews - {username});
    assert once[i].reviews - {username} == books[i].reviews - {username};
  }

  /** The verb as written agrees with the intended one exactly when the book had no reviews at
      all or this user already had one; it is wrong only for a first review of a book that
      someone else has reviewed. */
  lemma VerbsAgreeIff(reviews: map<string, string>, username: string)
    ensures AsWrittenVerb(reviews, username) == IntendedVerb(reviews, username)
            <==> reviews == map[] || username in reviews
  {
  }

  /** The shadowing shows on a book reviewed by someone else: a first review by "alice" of a
      book "bob" reviewed is reported as "updated". */
  lemma ShadowedVerbMisreports()
    ensures AsWrittenVerb(map["bob" := "fine"], "alice") == Updated
    ensures IntendedVerb(map["bob" := "fine"], "alice") == Added
  {
    assert "bob" in map["bob" := "fine"];
  }
}
