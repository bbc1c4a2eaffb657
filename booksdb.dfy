/** The in-memory book catalog: ten seeded books in id order and the three lookups the
    request handlers use (first match by ISBN, first match by title, filter by author). */
module BooksDb {
  import opened Wrappers

  /** A catalog entry; `reviews` maps a username to that user's review text. */
  datatype Book = Book(author: string, title: string, reviews: map<string, string>, isbn: string)

  /** The book property a lookup compares against. */
  datatype Field = Author | Title | Isbn

  function FieldOf(b: Book, f: Field): string {
    match f
    case Author => b.author
    case Title => b.title
    case Isbn => b.isbn
  }

  /** The seed catalog in id order: the book with id k sits at index k - 1. */
  const Seed: seq<Book> := [
    Book("Chinua Achebe", "Things Fall Apart", map[], "9780385474542"),
    Book("Hans Christian Andersen", "Fairy tales", map[], "9780143039525"),
    Book("Dante Alighieri", "The Divine Comedy", map[], "9780142437223"),
    Book("Unknown", "The Epic Of Gilgamesh", map[], "9780140449198"),
    Book("Unknown", "The Book Of Job", map[], "9780199538895"),
    Book("Unknown", "One Thousand and One Nights", map[], "9780140442892"),
    Book("Unknown", "Nj\U{e1}l's Saga", map[], "9780140447699"),
    Book("Jane Austen", "Pride and Prejudice", map[], "9780141439518"),
    Book("Honor\U{e9} de Balzac", "Le P\U{e8}re Goriot", map[], "9780140449723"),
    Book("Samuel Beckett", "Molloy, Malone Dies, The Unnamable, the trilogy", map[], "9780802144478")
  ]

  /** No two books share a value of `f`. */
  ghost predicate DistinctBy(books: seq<Book>, f: Field) {
    forall i, j :: 0 <= i < j < |books| ==> FieldOf(books[i], f) != FieldOf(books[j], f)
  }

  /** Every review is keyed by a non-empty username and holds a non-empty text: the only
      writer is the review handler, which refuses an empty session username and an empty review. */
  ghost predicate ReviewsWellFormed(reviews: map<string, string>) {
    forall u :: u in reviews ==> u != "" && reviews[u] != ""
  }

  ghost predicate CatalogInvariant(books: seq<Book>) {
    && DistinctBy(books, Isbn)
    && DistinctBy(books, Title)
    && forall i :: 0 <= i < |books| ==> ReviewsWellFormed(books[i].reviews)
  }

  /** The catalog object. Only the reviews of its books ever change, through the record
      that the ISBN lookup hands out. */
  class Catalog {
    var books: seq<Book>

    ghost predicate Valid()
      reads this
    {
      CatalogInvariant(books)
    }

    constructor ()
      ensures books == Seed
      ensures Valid()
    {
      books := Seed;
      SeedCatalog();
    }
  }

  /** `Object.values(books).find(b => b[f] === v)`: the position of the first book, in id
      order, whose `f` equals `v` exactly. The position stands for the stored record itself. */
  function FindIndex(books: seq<Book>, f: Field, v: string): (r: Option<nat>)
    ensures r.Some? ==> r.value < |books| && FieldOf(books[r.value], f) == v
    ensures r.Some? ==> forall j :: 0 <= j < r.value ==> FieldOf(books[j], f) != v
    ensures r.None? ==> forall j :: 0 <= j < |books| ==> FieldOf(books[j], f) != v
  {
    if |books| == 0 then None
    else if FieldOf(books[0], f) == v then Some(0)
    else match FindIndex(books[1..], f, v)
      case None => None
      case Some(i) => Some(i + 1)
  }

  /** `Object.values(books).filter(b => b[f] === v)`: the matching books in catalog order. */
  function Filter(books: seq<Book>, f: Field, v: string): (r: seq<Book>)
    ensures |r| <= |books|
    ensures forall b :: b in r <==> b in books && FieldOf(b, f) == v
  {
    if |books| == 0 then []
    else if FieldOf(books[0], f) == v then [books[0]] + Filter(books[1..], f, v)
    else Filter(books[1..], f, v)
  }

  /** `Object.values(books).find(b => b.isbn === isbn)`: the first book in id order with that ISBN. */
  function FetchBookByIsbn(books: seq<Book>, isbn: string): (r: Option<Book>)
    ensures r.Some? <==> exists j :: 0 <= j < |books| && books[j].isbn == isbn
    ensures r.Some? ==> exists j :: 0 <= j < |books| && r.value == books[j] && books[j].isbn == isbn
                                    && forall k :: 0 <= k < j ==> books[k].isbn != isbn
  {
    match FindIndex(books, Isbn, isbn)
    case None => None
    case Some(i) => Some(books[i])
  }

  /** `Object.values(books).find(b => b.title === title)`: the first book in id order with that title. */
  function FetchBookByTitle(books: seq<Book>, title: string): (r: Option<Book>)
    ensures r.Some? <==> exists j :: 0 <= j < |books| && books[j].title == title
    ensures r.Some? ==> exists j :: 0 <= j < |books| && r.value == books[j] && books[j].title == title
                                    && forall k :: 0 <= k < j ==> books[k].title != title
  {
    match FindIndex(books, Title, title)
    case None => None
    case Some(i) => Some(books[i])
  }

  /** `Object.values(books).filter(b => b.author === author)`: the books by that author. */
  function FetchBookByAuthor(books: seq<Book>, author: string): (r: seq<Book>)
    ensures forall b :: b in r <==> b in books && b.author == author
  {
    Filter(books, Author, author)
  }

  /** The catalog after the reviews of the record at position `i` are replaced: the effect of
      writing through the object the ISBN lookup returned. */
  function WithReviews(books: seq<Book>, i: nat, reviews: map<string, string>): seq<Book>
    requires i < |books|
  {
    books[i := books[i].(reviews := reviews)]
  }

  lemma SeedIsbnsDistinct()
    ensures DistinctBy(Seed, Isbn)
  {
  }

  lemma SeedTitlesDistinct()
    ensures DistinctBy(Seed, Title)
  {
  }

  /** The seed holds ten books, none reviewed yet, with pairwise distinct ISBNs and titles. */
  lemma SeedCatalog()
    ensures |Seed| == 10
    ensures forall i :: 0 <= i < |Seed| ==> Seed[i].reviews == map[]
    ensures CatalogInvariant(Seed)
  {
    SeedIsbnsDistinct();
    SeedTitlesDistinct();
  }

  /** Filtering distributes over concatenation, so the filter keeps catalog order. */
  lemma {:induction false} FilterAppend(a: seq<Book>, b: seq<Book>, f: Field, v: string)
    ensures Filter(a + b, f, v) == Filter(a, f, v) + Filter(b, f, v)
  {
    if |a| == 0 {
      assert a + b == b;
    } else {
      assert (a + b)[1..] == a[1..] + b;
      FilterAppend(a[1..], b, f, v);
    }
  }

  /** A filter keeps every book of a run that matches throughout. */
  lemma {:induction false} FilterAllMatch(books: seq<Book>, f: Field, v: string)
    requires forall k :: 0 <= k < |books| ==> FieldOf(books[k], f) == v
    ensures Filter(books, f, v) == books
  {
    if |books| > 0 {
      FilterAllMatch(books[1..], f, v);
    }
  }

  /** A filter drops every book of a run that matches nowhere. */
  lemma {:induction false} FilterNoneMatch(books: seq<Book>, f: Field, v: string)
    requires forall k :: 0 <= k < |books| ==> FieldOf(books[k], f) != v
    ensures Filter(books, f, v) == []
  {
    if |books| > 0 {
      FilterNoneMatch(books[1..], f, v);
    }
  }

  lemma SeedAuthorsAroundUnknown()
    ensures Filter(Seed[..3], Author, "Unknown") == []
    ensures Filter(Seed[7..], Author, "Unknown") == []
  {
    FilterNoneMatch(Seed[..3], Author, "Unknown");
    FilterNoneMatch(Seed[7..], Author, "Unknown");
  }

  /** The seeded books whose author is "Unknown" are those with ids 4 to 7, in id order. */
  lemma SeedUnknownAuthor()
    ensures FetchBookByAuthor(Seed, "Unknown") == Seed[3..7]
  {
    SeedAuthorsAroundUnknown();
    FilterAllMatch(Seed[3..7], Author, "Unknown");
    FilterOneRun(Seed, 3, 7, Author, "Unknown");
  }

  /** A catalog whose matches form one run `i..j` filters to exactly that run. */
  lemma FilterOneRun(books: seq<Book>, i: nat, j: nat, f: Field, v: string)
    requires i <= j <= |books|
    requires Filter(books[..i], f, v) == [] && Filter(books[j..], f, v) == []
    requires Filter(books[i..j], f, v) == books[i..j]
    ensures Filter(books, f, v) == books[i..j]
  {
    var head, middle, tail := books[..i], books[i..j], books[j..];
    FilterAppend(head + middle, tail, f, v);
    FilterAppend(head, middle, f, v);
    SplitThree(books, i, j);
  }

  lemma SplitThree(s: seq<Book>, i: nat, j: nat)
    requires i <= j <= |s|
    ensures s == s[..i] + s[i..j] + s[j..]
  {
  }

  /** With distinct ISBNs, looking up a stored book's ISBN finds exactly that record. */
  lemma IsbnLookupFindsRecord(books: seq<Book>, k: nat)
    requires DistinctBy(books, Isbn)
    requires k < |books|
    ensures FindIndex(books, Isbn, books[k].isbn) == Some(k)
  {
  }

  /** A first-match lookup sees only the compared field: two catalogs that agree on it
      position by position give the same answer. */
  lemma FindSeesOnlyField(a: seq<Book>, b: seq<Book>, f: Field, v: string)
    requires |a| == |b|
    requires forall j :: 0 <= j < |a| ==> FieldOf(a[j], f) == FieldOf(b[j], f)
    ensures FindIndex(a, f, v) == FindIndex(b, f, v)
  {
  }

  /** Replacing reviews changes no lookup key, so every first-match lookup lands on the same
      record as before. */
  lemma FindIgnoresReviews(books: seq<Book>, i: nat, reviews: map<string, string>, f: Field, v: string)
    requires i < |books|
    ensures FindIndex(WithReviews(books, i, reviews), f, v) == FindIndex(books, f, v)
  {
    var w := WithReviews(books, i, reviews);
    forall j | 0 <= j < |w|
      ensures FieldOf(w[j], f) == FieldOf(books[j], f)
    {
    }
    FindSeesOnlyField(w, books, f, v);
  }

  /** Of two successive review writes to the same record, the second wins. */
  lemma WithReviewsTwice(books: seq<Book>, i: nat, first: map<string, string>, second: map<string, string>)
    requires i < |books|
    ensures WithReviews(WithReviews(books, i, first), i, second) == WithReviews(books, i, second)
  {
  }

  /** The ISBN lookup hands out the stored record: once reviews are written through the record
      found for `isbn`, a later lookup of the same ISBN returns that record with the new reviews,
      every first-match lookup lands where it did before, and every other record is unchanged. */
  lemma ReviewWriteVisible(books: seq<Book>, isbn: string, reviews: map<string, string>, f: Field, v: string)
    requires FindIndex(books, Isbn, isbn).Some?
    ensures var i := FindIndex(books, Isbn, isbn).value;
            var w := WithReviews(books, i, reviews);
            && FetchBookByIsbn(w, isbn) == Some(books[i].(reviews := reviews))
            && FindIndex(w, f, v) == FindIndex(books, f, v)
            && (forall j :: 0 <= j < |w| && j != i ==> w[j] == books[j])
  {
    var i := FindIndex(books, Isbn, isbn).value;
    FindIgnoresReviews(books, i, reviews, Isbn, isbn);
    FindIgnoresReviews(books, i, reviews, f, v);
  }
}
