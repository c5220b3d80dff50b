/** Registration of users over the user table.

    Password hashing (bcrypt with a fresh salt) is a foreign, randomised
    computation: it is modelled as a method that may return any string, and
    nothing is assumed about its result. */
module AuthService {
  import opened Wrappers
  import opened UserDb

  /** The `ValueError` raised for an email that is already registered. */
  datatype AuthError = AlreadyExists(email: string)

  /** `_hash_password`: some hash of the password; which one is not
      specified. */
  method HashPassword(password: string) returns (hashed: string)
  {
    hashed :| true;
  }

  /** No two records of the table share an email. */
  predicate EmailsUnique(users: seq<User>) {
    forall i, j :: 0 <= i < j < |users| ==> users[i].email != users[j].email
  }

  /** Some record of the table has the email `email`. */
  predicate HasEmail(users: seq<User>, email: string) {
    exists i :: 0 <= i < |users| && users[i].email == Text(email)
  }

  /** Looking up by email matches exactly the records with that email. */
  lemma MatchesEmail(u: User, email: string)
    ensures Matches(u, [("email", Text(email))]) <==> u.email == Text(email)
  {
    if u.email == Text(email) {
      assert Get(u, "email") == Some(Text(email));
    } else {
      assert [("email", Text(email))][0] == ("email", Text(email));
    }
  }

  class Auth {
    /** The store behind the service. */
    const db: DB

    /** A new service owns a new, empty store. */
    constructor ()
      ensures fresh(db) && db.users == []
    {
      db := new DB();
    }

    /** `register_user`: when the lookup by email finds a record, raises
        `ValueError` and leaves the table alone; otherwise hashes the
        password, adds a record with the email and that hash, and returns
        it. `hashed` is the value the hashing produced. */
    method RegisterUser(email: string, password: string) returns (r: Result<User, AuthError>, ghost hashed: string)
      modifies db
      ensures r.Failure? <==> HasEmail(old(db.users), email)
      ensures r.Failure? ==> r.error == AlreadyExists(email) && db.users == old(db.users)
      ensures r.Success? ==> db.users == old(db.users) + [r.value]
      ensures r.Success? ==> r.value.email == Text(email) && r.value.hashedPassword == Text(hashed)
      ensures r.Success? ==> r.value.id == Int(NextId(old(db.users)))
      ensures r.Success? ==> db.FindUserBy([("email", Text(email))]) == Success(r.value)
      ensures EmailsUnique(old(db.users)) ==> EmailsUnique(db.users)
    {
      var criteria := [("email", Text(email))];
      forall i | 0 <= i < |db.users|
        ensures Matches(db.users[i], criteria) <==> db.users[i].email == Text(email)
      {
        MatchesEmail(db.users[i], email);
      }
      var existing := db.FindUserBy(criteria);
      if existing.Success? {
        r := Failure(AlreadyExists(email));
        hashed := "";
        return;
      }
      assert existing.error == NoResultFound;
      var h := HashPassword(password);
      hashed := h;
      ghost var before := db.users;
      var user := db.AddUser(email, h);
      r := Success(user);
      MatchesEmail(user, email);
      IndexOfFirstAppend(before, user, criteria);
      assert forall i :: 0 <= i < |before| ==> db.users[i] == before[i];
    }
  }

  /** Registering the same email twice in a row: the second call raises
      `ValueError`, whatever the first one did. */
  method RegisterTwice(auth: Auth, email: string, first: string, second: string)
    returns (r: Result<User, AuthError>)
    modifies auth.db
    ensures r == Failure(AlreadyExists(email))
  {
    var r1;
    ghost var h1, h2;
    r1, h1 := auth.RegisterUser(email, first);
    if r1.Success? {
      assert auth.db.users[|auth.db.users| - 1] == r1.value;
    }
    assert HasEmail(auth.db.users, email);
    r, h2 := auth.RegisterUser(email, second);
  }
}
