/** A client of the routes: a sample review exchange, replayed against the seeded catalog
    through the handlers' contracts alone. */
module Scenario {
  import opened Wrappers
  import opened BooksDb
  import opened UsersDb
  import opened General
  import opened AuthUsers

  const FirstIsbn := "9780385474542"

  /** Book 1 of the seed carries ISBN 9780385474542 and no reviews. */
  lemma SeedFirstBook()
    ensures FindIndex(Seed, Isbn, FirstIsbn) == Some(0)
    ensures Seed[0].reviews == map[]
    ensures CatalogInvariant(Seed)
  {
    SeedCatalog();
    IsbnLookupFindsRecord(Seed, 0);
  }

  /** "alice" registers on a fresh registry and logs in: the session is bound to her name. */
  method SignIn() returns (session: Session, registered: RegisterReply, login: Reply)
    ensures registered == UserRegistered && login == LoggedIn
    ensures session.Username() == Some("alice")
  {
    var registry := new Registry();
    session := new Session();
    registered := Register(registry, Some("alice"), Some("secret"));
    AppendUser([], "alice", "secret");
    login := Login(registry, session, Some("alice"), Some("secret"), "token");
  }

  /** "alice" reviews book 1 twice: the first PUT reports "added", the second "updated", and
      GET /review/:isbn then shows only her latest text. */
  method ReviewExample() returns (first: Reply, second: Reply, shown: Response<map<string, string>>)
    ensures first == ReviewSaved(Added)
    ensures second == ReviewSaved(Updated)
    ensures shown == Response(200, Some(map["alice" := "better"]))
  {
    var catalog := new Catalog();
    var session, _, _ := SignIn();
    SeedFirstBook();
    ghost var seeded := catalog.books;
    first := PutReview(catalog, session, FirstIsbn, Some("great"));
    ghost var once := catalog.books;
    assert once[0].reviews == map["alice" := "great"];
    assert "alice" in once[0].reviews;
    PutIdempotent(seeded, FirstIsbn, "alice", "great");
    second := PutReview(catalog, session, FirstIsbn, Some("better"));
    assert catalog.books[0].reviews == map["alice" := "better"];
    FindIgnoresReviews(once, 0, map["alice" := "better"], Isbn, FirstIsbn);
    shown := GetReviews(catalog.books, Some(FirstIsbn));
  }
}
