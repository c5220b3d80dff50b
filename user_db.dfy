/** The user table behind the authentication service.

    The table is kept in insertion order. A user record has five columns;
    `id` is assigned by the store when the record is added and every other
    column is set from the caller's values. Keyword arguments are modelled
    as a sequence of (name, value) pairs in argument order, and column
    values are untyped, since the store assigns whatever value it is given
    to a named attribute. */
module UserDb {
  import opened Wrappers

  /** A column value: SQL NULL, an integer or a text. */
  datatype Value = Null | Int(n: int) | Text(s: string)

  datatype User = User(id: Value, email: Value, hashedPassword: Value, sessionId: Value, resetToken: Value)

  /** Keyword arguments, in argument order. */
  type Kwargs = seq<(string, Value)>

  /** The attribute names a user record has. */
  const COLUMNS: set<string> := {"id", "email", "hashed_password", "session_id", "reset_token"}

  /** The errors the store raises: `NoResultFound` and `InvalidRequestError`
      from the query layer, and the `ValueError` of `update_user` for an
      attribute the record lacks. */
  datatype DbError = NoResultFound | InvalidRequestError(name: string) | InvalidAttribute(name: string)

  /** Reading attribute `name` of a record; `None` when it has no such
      attribute. */
  function Get(u: User, name: string): (r: Option<Value>)
    ensures r.Some? <==> name in COLUMNS
  {
    if name == "id" then Some(u.id)
    else if name == "email" then Some(u.email)
    else if name == "hashed_password" then Some(u.hashedPassword)
    else if name == "session_id" then Some(u.sessionId)
    else if name == "reset_token" then Some(u.resetToken)
    else None
  }

  /** Assigning attribute `name` of a record. */
  function Set(u: User, name: string, v: Value): (r: User)
    requires name in COLUMNS
    ensures Get(r, name) == Some(v)
    ensures forall other :: other in COLUMNS && other != name ==> Get(r, other) == Get(u, other)
  {
    if name == "id" then u.(id := v)
    else if name == "email" then u.(email := v)
    else if name == "hashed_password" then u.(hashedPassword := v)
    else if name == "session_id" then u.(sessionId := v)
    else u.(resetToken := v)
  }

  /** `filter_by`: every criterion names an attribute of `u` whose value is
      the one given. */
  predicate Matches(u: User, criteria: Kwargs) {
    forall i :: 0 <= i < |criteria| ==> Get(u, criteria[i].0) == Some(criteria[i].1)
  }

  /** Some record before position `k` matches. */
  predicate MatchesBefore(users: seq<User>, criteria: Kwargs, k: nat)
    requires k <= |users|
  {
    exists i :: 0 <= i < k && Matches(users[i], criteria)
  }

  /** How many of the names, from the first on, are attribute names: the
      index of the first name that is not one, or the length when all are. */
  function ValidPrefixLen(kw: Kwargs): (n: nat)
    ensures n <= |kw|
    ensures forall i :: 0 <= i < n ==> kw[i].0 in COLUMNS
    ensures n < |kw| ==> kw[n].0 !in COLUMNS
    decreases |kw|
  {
    if kw == [] || kw[0].0 !in COLUMNS then 0 else 1 + ValidPrefixLen(kw[1..])
  }

  /** The position of the first record, at or after `p`, that matches. */
  function IndexOfFirstFrom(users: seq<User>, criteria: Kwargs, p: nat): (r: Option<nat>)
    requires p <= |users|
    ensures r.Some? ==> p <= r.value < |users| && Matches(users[r.value], criteria)
    ensures r.Some? ==> forall i :: p <= i < r.value ==> !Matches(users[i], criteria)
    ensures r.None? ==> forall i :: p <= i < |users| ==> !Matches(users[i], criteria)
    decreases |users| - p
  {
    if p == |users| then None
    else if Matches(users[p], criteria) then Some(p)
    else IndexOfFirstFrom(users, criteria, p + 1)
  }

  /** `query(User).filter_by(...).first()`: the first matching record in
      table order. */
  function IndexOfFirst(users: seq<User>, criteria: Kwargs): (r: Option<nat>)
    ensures r.Some? ==> r.value < |users| && Matches(users[r.value], criteria)
    ensures r.Some? ==> forall i :: 0 <= i < r.value ==> !Matches(users[i], criteria)
    ensures r.None? ==> forall i :: 0 <= i < |users| ==> !Matches(users[i], criteria)
  {
    IndexOfFirstFrom(users, criteria, 0)
  }

  /** Some record of the table has an integer id. */
  predicate HasIntId(users: seq<User>) {
    exists i :: 0 <= i < |users| && users[i].id.Int?
  }

  /** The largest integer id in `users`, if there is one. */
  function MaxId(users: seq<User>): (r: Option<int>)
    ensures r.None? <==> !HasIntId(users)
    ensures r.Some? ==> exists i :: 0 <= i < |users| && users[i].id == Int(r.value)
    ensures r.Some? ==> forall i :: 0 <= i < |users| && users[i].id.Int? ==> users[i].id.n <= r.value
    decreases |users|
  {
    if users == [] then None
    else
      var init := users[..|users| - 1];
      var rest := MaxId(init);
      var last := users[|users| - 1].id;
      assert forall i :: 0 <= i < |init| ==> init[i] == users[i];
      if last.Int? && (rest.None? || last.n > rest.value) then Some(last.n)
      else rest
  }

  /** The id the store gives a new record, by SQLite's rule for a new row
      id: one more than the largest id in the table, and 1 when the table
      holds no id. */
  function NextId(users: seq<User>): (r: int)
    ensures forall i :: 0 <= i < |users| ==> users[i].id != Int(r)
    ensures forall i :: 0 <= i < |users| && users[i].id.Int? ==> users[i].id.n < r
    ensures HasIntId(users) ==> exists i :: 0 <= i < |users| && users[i].id == Int(r - 1)
    ensures !HasIntId(users) ==> r == 1
  {
    match MaxId(users)
    case None => 1
    case Some(m) => m + 1
  }

  /** The record after assigning each (name, value) pair in turn; all the
      names are attribute names. */
  function SetAll(u: User, kw: Kwargs): User
    requires forall i :: 0 <= i < |kw| ==> kw[i].0 in COLUMNS
    decreases |kw|
  {
    if kw == [] then u
    else
      var last := kw[|kw| - 1];
      Set(SetAll(u, kw[..|kw| - 1]), last.0, last.1)
  }

  /** The value the last pair naming `name` gives, if one does. */
  function LastValue(kw: Kwargs, name: string): (r: Option<Value>)
    ensures r.None? <==> forall i :: 0 <= i < |kw| ==> kw[i].0 != name
    ensures r.Some? ==> exists i :: 0 <= i < |kw| && kw[i] == (name, r.value)
    decreases |kw|
  {
    if kw == [] then None
    else if kw[|kw| - 1].0 == name then Some(kw[|kw| - 1].1)
    else LastValue(kw[..|kw| - 1], name)
  }

  /** Assigning a list of attributes sets exactly those: an attribute named
      in the list takes the value last given for it, every other attribute
      keeps its value. */
  lemma {:induction false} SetAllGet(u: User, kw: Kwargs, name: string)
    requires forall i :: 0 <= i < |kw| ==> kw[i].0 in COLUMNS
    requires name in COLUMNS
    ensures LastValue(kw, name).Some? ==> Get(SetAll(u, kw), name) == LastValue(kw, name)
    ensures LastValue(kw, name).None? ==> Get(SetAll(u, kw), name) == Get(u, name)
    decreases |kw|
  {
    if kw != [] {
      SetAllGet(u, kw[..|kw| - 1], name);
    }
  }

  /** One more assignment extends the list by one pair. */
  lemma SetAllSnoc(u: User, kw: Kwargs, i: nat)
    requires i < |kw| && forall t :: 0 <= t < |kw| ==> kw[t].0 in COLUMNS
    ensures SetAll(u, kw[..i + 1]) == Set(SetAll(u, kw[..i]), kw[i].0, kw[i].1)
  {
    assert kw[..i + 1][..i] == kw[..i];
  }

  /** Adding a record that matches, to a table none of whose records match,
      makes it the first match. */
  lemma {:induction false} IndexOfFirstAppend(users: seq<User>, u: User, criteria: Kwargs)
    requires forall i :: 0 <= i < |users| ==> !Matches(users[i], criteria)
    requires Matches(u, criteria)
    ensures IndexOfFirst(users + [u], criteria) == Some(|users|)
  {
    var all := users + [u];
    assert forall i :: 0 <= i < |users| ==> all[i] == users[i];
    assert all[|users|] == u;
  }

  class DB {
    /** The user table, in insertion order. */
    var users: seq<User>

    /** A new store starts from an empty table. */
    constructor ()
      ensures users == []
    {
      users := [];
    }

    /** `add_user`: appends one record with the given email and hashed
        password, a fresh id and no session or reset token, and returns it. */
    method AddUser(email: string, hashedPassword: string) returns (user: User)
      modifies this
      ensures user == User(Int(NextId(old(users))), Text(email), Text(hashedPassword), Null, Null)
      ensures users == old(users) + [user]
    {
      user := User(Int(NextId(users)), Text(email), Text(hashedPassword), Null, Null);
      users := users + [user];
    }

    /** `find_user_by`: the first record, in table order, matching all the
        criteria; `InvalidRequestError` for the first criterion that names
        no attribute; `NoResultFound` when no record matches. */
    function FindUserBy(criteria: Kwargs): (r: Result<User, DbError>)
      reads this
      ensures r.Failure? && r.error.InvalidRequestError? <==>
        exists i :: 0 <= i < |criteria| && criteria[i].0 !in COLUMNS
      ensures r.Failure? && r.error.InvalidRequestError? ==> r.error.name !in COLUMNS
      ensures r == Failure(NoResultFound) <==>
        (forall i :: 0 <= i < |criteria| ==> criteria[i].0 in COLUMNS) &&
        (forall i :: 0 <= i < |users| ==> !Matches(users[i], criteria))
      ensures r.Failure? ==> !r.error.InvalidAttribute?
      ensures ((forall i :: 0 <= i < |criteria| ==> criteria[i].0 in COLUMNS) &&
               (exists i :: 0 <= i < |users| && Matches(users[i], criteria))) ==> r.Success?
      ensures r.Success? ==> Matches(r.value, criteria)
      ensures r.Success? ==>
        exists k :: 0 <= k < |users| && users[k] == r.value && !MatchesBefore(users, criteria, k)
    {
      var n := ValidPrefixLen(criteria);
      if n < |criteria| then Failure(InvalidRequestError(criteria[n].0))
      else match IndexOfFirst(users, criteria)
        case None => Failure(NoResultFound)
        case Some(k) => Success(users[k])
    }

    /** `update_user`: finds the record whose id is `userId` and assigns the
        attributes in argument order. With no such record the table is left
        alone and `NoResultFound` is raised. At the first name the record
        lacks, `ValueError` is raised and the assignments made before it
        stay on the record. */
    method UpdateUser(userId: Value, kwargs: Kwargs) returns (r: Outcome<DbError>)
      modifies this
      ensures IndexOfFirst(old(users), [("id", userId)]).None? ==>
        r == Fail(NoResultFound) && users == old(users)
      ensures IndexOfFirst(old(users), [("id", userId)]).Some? ==>
        var k := IndexOfFirst(old(users), [("id", userId)]).value;
        var n := ValidPrefixLen(kwargs);
        users == old(users)[k := SetAll(old(users)[k], kwargs[..n])] &&
        (n == |kwargs| ==> r == Pass) &&
        (n < |kwargs| ==> r == Fail(InvalidAttribute(kwargs[n].0)))
    {
      var found := IndexOfFirst(users, [("id", userId)]);
      if found.None? {
        return Fail(NoResultFound);
      }
      var k := found.value;
      ghost var before := users;
      var user := users[k];
      var i := 0;
      while i < |kwargs|
        invariant 0 <= i <= |kwargs|
        invariant forall t :: 0 <= t < i ==> kwargs[t].0 in COLUMNS
        invariant user == SetAll(before[k], kwargs[..i])
        invariant users == before[k := user]
      {
        var (name, value) := kwargs[i];
        if name !in COLUMNS {
          return Fail(InvalidAttribute(name));
        }
        SetAllSnoc(before[k], kwargs[..i + 1], i);
        assert kwargs[..i + 1][..i] == kwargs[..i];
        user := Set(user, name, value);
        users := users[k := user];
        i := i + 1;
      }
      assert kwargs[..|kwargs|] == kwargs;
      return Pass;
    }
  }
}
