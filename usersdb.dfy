/** The user registry: registered username/password records and the two queries over them. */
module UsersDb {

  datatype User = User(username: string, password: string)

  /** Usernames are pairwise distinct and non-empty: registration admits a name only when it
      is present and unused. */
  ghost predicate UsernamesUnique(users: seq<User>) {
    && (forall i :: 0 <= i < |users| ==> users[i].username != "")
    && (forall i, j :: 0 <= i < j < |users| ==> users[i].username != users[j].username)
  }

  /** The registry object; the register handler appends to `users`. */
  class Registry {
    var users: seq<User>

    ghost predicate Valid()
      reads this
    {
      UsernamesUnique(users)
    }

    constructor ()
      ensures users == []
      ensures Valid()
    {
      users := [];
    }
  }

  /** `!users.find(user => user.username === username)`: the name is not taken, compared by
      exact, case-sensitive equality. */
  function IsValid(users: seq<User>, username: string): (r: bool)
    ensures r <==> forall i :: 0 <= i < |users| ==> users[i].username != username
  {
    if |users| == 0 then true
    else users[0].username != username && IsValid(users[1..], username)
  }

  /** `users.find(user => user.username === username && user.password === password)` is found:
      some record matches both fields exactly. */
  function AuthenticatedUser(users: seq<User>, username: string, password: string): (r: bool)
    ensures r <==> exists i :: 0 <= i < |users| && users[i].username == username && users[i].password == password
  {
    if |users| == 0 then false
    else
      || (users[0].username == username && users[0].password == password)
      || AuthenticatedUser(users[1..], username, password)
  }

  /** A name that is still free cannot log in, whatever the password. */
  lemma FreeNameCannotAuthenticate(users: seq<User>, username: string, password: string)
    requires IsValid(users, username)
    ensures !AuthenticatedUser(users, username, password)
  {
  }

  /** Appending a record (what registration does) takes the name, lets exactly that password
      authenticate and keeps every earlier record. */
  lemma AppendUser(users: seq<User>, username: string, password: string)
    ensures var after := users + [User(username, password)];
            && !IsValid(after, username)
            && AuthenticatedUser(after, username, password)
            && after[..|users|] == users
  {
    var after := users + [User(username, password)];
    assert after[|users|] == User(username, password);
  }

  /** Appending a record for a free, non-empty name keeps the usernames unique. */
  lemma AppendUserKeepsUnique(users: seq<User>, username: string, password: string)
    requires UsernamesUnique(users)
    requires username != "" && IsValid(users, username)
    ensures UsernamesUnique(users + [User(username, password)])
  {
  }
}
