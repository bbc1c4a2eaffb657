/** The public routes: registration, which appends to the user registry, and the book
    queries, which map a catalog lookup to a status code without changing the catalog. */
module General {
  import opened Wrappers
  import opened Request
  import opened BooksDb
  import opened UsersDb

  /** The outcomes of POST /register, each with its status code. */
  datatype RegisterReply = UsernameRequired | PasswordRequired | UserAlreadyExists | UserRegistered
  {
    function Status(): int {
      match this
      case UsernameRequired => 400
      case PasswordRequired => 400
      case UserAlreadyExists => 400
      case UserRegistered => 201
    }
  }

  /** A GET reply: the status code and, on 200, the payload. */
  datatype Response<T> = Response(status: int, body: Option<T>)

  /** POST /register: the username check comes first, then the password check, then the
      uniqueness check; only when all pass is the record appended. */
  method Register(registry: Registry, username: Param, password: Param) returns (reply: RegisterReply)
    modifies registry
    ensures Missing(username) ==> reply == UsernameRequired
    ensures !Missing(username) && Missing(password) ==> reply == PasswordRequired
    ensures !Missing(username) && !Missing(password) && !IsValid(old(registry.users), username.value)
            ==> reply == UserAlreadyExists
    ensures reply == UserRegistered
            <==> !Missing(username) && !Missing(password) && IsValid(old(registry.users), username.value)
    ensures reply == UserRegistered ==> registry.users == old(registry.users) + [User(username.value, password.value)]
    ensures reply != UserRegistered ==> registry.users == old(registry.users)
    ensures old(registry.Valid()) ==> registry.Valid()
  {
    if Missing(username) {
      return UsernameRequired;
    }
    if Missing(password) {
      return PasswordRequired;
    }
    if !IsValid(registry.users, username.value) {
      return UserAlreadyExists;
    }
    if registry.Valid() {
      AppendUserKeepsUnique(registry.users, username.value, password.value);
    }
    registry.users := registry.users + [User(username.value, password.value)];
    reply := UserRegistered;
  }

  /** GET /: the whole catalog, as it is. */
  function GetBooks(books: seq<Book>): (r: Response<seq<Book>>)
    ensures r.status == 200
    ensures r.body == Some(books)
  {
    Response(200, Some(books))
  }

  /** GET /isbn/:isbn: 400 without an ISBN, 200 with the first book whose ISBN matches, else 404. */
  function GetByIsbn(books: seq<Book>, isbn: Param): (r: Response<Book>)
    ensures Missing(isbn) ==> r == Response(400, None)
    ensures !Missing(isbn)
            ==> ((forall j :: 0 <= j < |books| ==> books[j].isbn != isbn.value) <==> r == Response(404, None))
    ensures !Missing(isbn) && (exists j :: 0 <= j < |books| && books[j].isbn == isbn.value)
            ==> r.status == 200 && r.body.Some?
    ensures r.status == 200
            ==> exists j :: 0 <= j < |books| && r.body == Some(books[j]) && books[j].isbn == isbn.value
                            && forall k :: 0 <= k < j ==> books[k].isbn != isbn.value
    ensures r.status in {200, 400, 404}
  {
    if Missing(isbn) then Response(400, None)
    else match FetchBookByIsbn(books, isbn.value)
      case Some(b) => Response(200, Some(b))
      case None => Response(404, None)
  }

  /** GET /author/:author: 400 without an author, otherwise 200 with exactly the books by that
      author (possibly none). */
  function GetByAuthor(books: seq<Book>, author: Param): (r: Response<seq<Book>>)
    ensures Missing(author) ==> r == Response(400, None)
    ensures !Missing(author) ==> r.status == 200 && r.body.Some?
    ensures r.body.Some? ==> forall b :: b in r.body.value <==> b in books && b.author == author.value
  {
    if Missing(author) then Response(400, None)
    else Response(200, Some(FetchBookByAuthor(books, author.value)))
  }

  /** GET /title/:title: 400 without a title, 200 with the first book whose title matches, else 404. */
  function GetByTitle(books: seq<Book>, title: Param): (r: Response<Book>)
    ensures Missing(title) ==> r == Response(400, None)
    ensures !Missing(title)
            ==> ((forall j :: 0 <= j < |books| ==> books[j].title != title.value) <==> r == Response(404, None))
    ensures !Missing(title) && (exists j :: 0 <= j < |books| && books[j].title == title.value)
            ==> r.status == 200 && r.body.Some?
    ensures r.status == 200
            ==> exists j :: 0 <= j < |books| && r.body == Some(books[j]) && books[j].title == title.value
                            && forall k :: 0 <= k < j ==> books[k].title != title.value
    ensures r.status in {200, 400, 404}
  {
    if Missing(title) then Response(400, None)
    else match FetchBookByTitle(books, title.value)
      case Some(b) => Response(200, Some(b))
      case None => Response(404, None)
  }

  /** GET /review/:isbn: 400 without an ISBN, 200 with the reviews of the first book whose
      ISBN matches, else 404. */
  function GetReviews(books: seq<Book>, isbn: Param): (r: Response<map<string, string>>)
    ensures Missing(isbn) ==> r == Response(400, None)
    ensures !Missing(isbn)
            ==> ((forall j :: 0 <= j < |books| ==> books[j].isbn != isbn.value) <==> r == Response(404, None))
    ensures !Missing(isbn) && (exists j :: 0 <= j < |books| && books[j].isbn == isbn.value)
            ==> r.status == 200 && r.body.Some?
    ensures r.status == 200
            ==> exists j :: 0 <= j < |books| && r.body == Some(books[j].reviews) && books[j].isbn == isbn.value
                            && forall k :: 0 <= k < j ==> books[k].isbn != isbn.value
    ensures r.status in {200, 400, 404}
  {
    if Missing(isbn) then Response(400, None)
    else match FetchBookByIsbn(books, isbn.value)
      case Some(b) => Response(200, Some(b.reviews))
      case None => Response(404, None)
  }
}
