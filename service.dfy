/** The user service: user operations over the repository of the `users`
    table, with password hashing on creation and the service's own update
    rules. */
module UserServices {
  import opened Values
  import opened Schema
  import opened Filters
  import opened Store
  import opened Users
  import opened Repositories

  /** `get_password_hash`. The digest is a fixed function the model does not
      interpret; `calls` records every plaintext it was given. */
  class PasswordHasher {
    const digest: string -> string
    ghost var calls: seq<string>

    constructor (digest: string -> string)
      ensures this.digest == digest && calls == []
    {
      this.digest := digest;
      calls := [];
    }

    method Hash(password: string) returns (h: string)
      modifies this`calls
      ensures h == digest(password)
      ensures calls == old(calls) + [password]
    {
      h := digest(password);
      calls := calls + [password];
    }
  }

  /** The plaintext password a `UserCreate` carries. */
  predicate HasPassword(objIn: Dict)
  {
    Lookup(objIn, "password").Some? && Lookup(objIn, "password").value.Str?
  }

  /** The dict `create` hands to the repository: the input's fields with
      `hashed_password` set to the hash and `password` deleted. */
  function CreatePayload(objIn: Dict, hashed: string): Dict
  {
    var d := Put(objIn, "hashed_password", Str(hashed));
    if "password" in Keys(d) then Remove(d, "password") else d
  }

  /** What the payload holds: the hash, no plaintext, every other field of
      the input unchanged, and no key twice. */
  lemma CreatePayloadFields(objIn: Dict, hashed: string)
    requires DistinctKeys(objIn)
    ensures DistinctKeys(CreatePayload(objIn, hashed))
    ensures Keys(CreatePayload(objIn, hashed)) == Keys(objIn) + {"hashed_password"} - {"password"}
    ensures Lookup(CreatePayload(objIn, hashed), "hashed_password") == Some(Str(hashed))
    ensures Lookup(CreatePayload(objIn, hashed), "password") == None
    ensures forall k | k != "password" && k != "hashed_password" ::
              Lookup(CreatePayload(objIn, hashed), k) == Lookup(objIn, k)
  {
    var d := Put(objIn, "hashed_password", Str(hashed));
    PutKeys(objIn, "hashed_password", Str(hashed));
    RemoveKeys(d, "password");
    forall k ensures Lookup(CreatePayload(objIn, hashed), k) == (if k == "password" then None else Lookup(d, k)) {
      RemoveLookup(d, "password", k);
    }
    forall k ensures Lookup(d, k) == if k == "hashed_password" then Some(Str(hashed)) else Lookup(objIn, k) {
      PutLookup(objIn, "hashed_password", Str(hashed), k);
    }
  }

  /** What `create` stores for an input made of the model's fields and a
      password: the record holds the hash, never the plaintext, every other
      field given a value other than None, and the default of every other
      defaulted field; the only way it can fail is a constraint violation
      at commit, which rolls the session back. */
  lemma CreateStoresHash(m: ModelSpec, s: Session, objIn: Dict, hashed: string)
    requires WellFormed(m) && "hashed_password" in m.columns && "password" !in m.columns
    requires DistinctKeys(objIn) && Keys(objIn) <= m.columns + {"password"}
    ensures var (s', r) := CreateStep(m, s, CreatePayload(objIn, hashed), true);
      && (r.Err? ==> r.error == IntegrityError && s'.rows == s.committed && s'.committed == s.committed)
      && (r.Ok? ==>
            && r.value.Keys == m.columns
            && r.value["hashed_password"] == Str(hashed)
            && s'.rows == s.rows + [r.value]
            && s'.committed == s'.rows
            && (forall c | c in m.columns && c != "id" && c != "hashed_password" && !Omitted(objIn, c) ::
                 r.value[c] == Lookup(objIn, c).value)
            && forall c | c in m.columns && c != "hashed_password" && Omitted(objIn, c) && c in m.defaults ::
                 r.value[c] == m.defaults[c])
  {
    CreatePayloadFields(objIn, hashed);
    assert UnknownKeys(m, CreatePayload(objIn, hashed)) == {};
  }

  lemma CreateUserStoresHash(s: Session, objIn: Dict, hashed: string)
    requires DistinctKeys(objIn) && Keys(objIn) <= UserColumns + {"password"}
    ensures var (s', r) := CreateStep(UserTable, s, CreatePayload(objIn, hashed), true);
      && (r.Err? ==> r.error == IntegrityError && s'.rows == s.committed && s'.committed == s.committed)
      && (r.Ok? ==>
            && r.value.Keys == UserColumns
            && r.value["hashed_password"] == Str(hashed)
            && s'.rows == s.rows + [r.value]
            && s'.committed == s'.rows
            && (forall c | c in UserColumns && c != "id" && c != "hashed_password" && !Omitted(objIn, c) ::
                 r.value[c] == Lookup(objIn, c).value)
            && forall c | c in UserColumns && c != "hashed_password" && Omitted(objIn, c) && c in UserDefaults ::
                 r.value[c] == UserDefaults[c])
  {
    UserTableWellFormed();
    CreateStoresHash(UserTable, s, objIn, hashed);
  }

  /** The attribute loop of `update`: a field other than `password` that is
      an attribute of the record and whose value is not None is set. */
  function SetGiven(columns: set<string>, row: Row, d: Dict): Row
  {
    if d == [] then row
    else
      var r := SetGiven(columns, row, d[..|d| - 1]);
      var e := d[|d| - 1];
      if e.key != "password" && e.key in columns && e.value != Null then r[e.key := e.value] else r
  }

  function UserPatch(row: Row, d: Dict): Row
  {
    SetGiven(UserColumns, row, d)
  }

  /** The separate password step: a truthy `password` is stored as it is in
      `hashed_password`. */
  function ApplyPassword(row: Row, d: Dict): Row
  {
    match Lookup(d, "password")
    case Some(v) => if Truthy(v) then row["hashed_password" := v] else row
    case None => row
  }

  /** The user record `update` writes back. */
  function UpdatedUser(row: Row, d: Dict): Row
  {
    ApplyPassword(UserPatch(row, d), d)
  }

  /** `update(user_id, obj_in)`: None for an unknown id, otherwise the
      updated record is written back. */
  function UpdateUserStep(s: Session, userId: int, d: Dict): (Session, Result<Option<Row>, DbError>)
  {
    match FirstWith(s.rows, "id", Int(userId))
    case None => (s, Ok(None))
    case Some(row) => PersistStep(UserTable, s, userId, UpdatedUser(row, d))
  }

  /** `delete(user_id)`: None for an unknown id; otherwise the repository
      deletes and commits, and the record fetched before is returned. */
  function DeleteUserStep(s: Session, userId: int): (Session, Result<Option<Row>, DbError>)
  {
    match FirstWith(s.rows, "id", Int(userId))
    case None => (s, Ok(None))
    case Some(row) =>
      var (s', res) := DeleteStep(UserTable, s, userId, true);
      (s', if res.Ok? then Ok(Some(row)) else Err(res.error))
  }

  /** The value a field ends up with after `update`. */
  function UpdatedField(row: Row, d: Dict, c: string): Value
    requires c in row
  {
    if c == "hashed_password" && Lookup(d, "password").Some? && Truthy(Lookup(d, "password").value) then
      Lookup(d, "password").value
    else
      GivenOrKept(row, d, c)
  }

  /** What `update` does to a record, field by field: the password rule
      first, then a given non-None value, otherwise the old value. The
      record keeps its columns. */
  lemma UpdateEffect(columns: set<string>, row: Row, d: Dict)
    requires DistinctKeys(d) && row.Keys == columns
    requires "password" !in columns && "hashed_password" in columns
    ensures ApplyPassword(SetGiven(columns, row, d), d).Keys == columns
    ensures forall c | c in columns :: ApplyPassword(SetGiven(columns, row, d), d)[c] == UpdatedField(row, d, c)
  {
    SetGivenEffect(columns, row, d);
  }

  lemma UpdatedUserEffect(row: Row, d: Dict)
    requires DistinctKeys(d) && row.Keys == UserColumns
    ensures UpdatedUser(row, d).Keys == UserColumns
    ensures forall c | c in UserColumns :: UpdatedUser(row, d)[c] == UpdatedField(row, d, c)
  {
    UpdateEffect(UserColumns, row, d);
  }

  /** A field's value after the attribute loop: the given value unless it
      is None, otherwise the old one. */
  function GivenOrKept(row: Row, d: Dict, c: string): Value
    requires c in row
  {
    match Lookup(d, c)
    case Some(v) => if v != Null then v else row[c]
    case None => row[c]
  }

  /** What the attribute loop leaves in a record: a field named with a
      non-None value takes it, every other field keeps its own. */
  lemma {:induction false} SetGivenEffect(columns: set<string>, row: Row, d: Dict)
    requires DistinctKeys(d) && row.Keys == columns && "password" !in columns
    ensures SetGiven(columns, row, d).Keys == columns
    ensures forall c | c in columns :: SetGiven(columns, row, d)[c] == GivenOrKept(row, d, c)
  {
    if d != [] {
      var init := d[..|d| - 1];
      var e := d[|d| - 1];
      assert d == init + [e];
      assert DistinctKeys(init);
      SetGivenEffect(columns, row, init);
      forall c | c in columns ensures SetGiven(columns, row, d)[c] == GivenOrKept(row, d, c) {
        SetGivenStep(columns, row, init, e, c);
      }
    }
  }

  /** One more entry through the attribute loop, seen from one field. */
  lemma SetGivenStep(columns: set<string>, row: Row, init: Dict, e: Entry, c: string)
    requires DistinctKeys(init + [e]) && row.Keys == columns && "password" !in columns && c in columns
    requires SetGiven(columns, row, init).Keys == columns
    requires SetGiven(columns, row, init)[c] == GivenOrKept(row, init, c)
    ensures SetGiven(columns, row, init + [e])[c] == GivenOrKept(row, init + [e], c)
  {
    assert (init + [e])[..|init|] == init;
    LookupLast(init, e, c);
  }

  lemma UserPatchEffect(row: Row, d: Dict)
    requires DistinctKeys(d) && row.Keys == UserColumns
    ensures UserPatch(row, d).Keys == UserColumns
    ensures forall c | c in UserColumns :: UserPatch(row, d)[c] == GivenOrKept(row, d, c)
  {
    SetGivenEffect(UserColumns, row, d);
  }

  /** `update` of an unknown id returns None and changes nothing. */
  lemma UpdateUnknownUser(s: Session, userId: int, d: Dict)
    requires forall x | x in s.rows :: IdOf(x) != Int(userId)
    ensures UpdateUserStep(s, userId, d) == (s, Ok(None))
  {
  }

  /** A successful `update` replaces the user with that id by the updated
      record and commits; nothing else in the table changes. */
  lemma UpdateUserWritesBack(s: Session, userId: int, d: Dict)
    requires SessionOk(UserTable, s) && DistinctKeys(d)
    ensures var (s', r) := UpdateUserStep(s, userId, d);
      r.Ok? && r.value.Some? ==>
        exists k | 0 <= k < |s.rows| ::
          && IdOf(s.rows[k]) == Int(userId)
          && r.value.value == UpdatedUser(s.rows[k], d)
          && s'.rows == s.rows[k := r.value.value]
          && s'.committed == s'.rows
          && r.value.value.Keys == UserColumns
          && forall c | c in UserColumns :: r.value.value[c] == UpdatedField(s.rows[k], d, c)
  {
    var (s', r) := UpdateUserStep(s, userId, d);
    if r.Ok? && r.value.Some? {
      var k := IndexOf(s.rows, "id", Int(userId)).value;
      assert Shaped(UserTable, s.rows[k]);
      UpdatedUserEffect(s.rows[k], d);
    }
  }

  /** A password given to `update` is stored verbatim, not hashed. */
  lemma UpdateStoresPasswordVerbatim(row: Row, d: Dict, pw: string)
    requires DistinctKeys(d) && row.Keys == UserColumns
    requires Lookup(d, "password") == Some(Str(pw)) && pw != []
    ensures UpdatedUser(row, d)["hashed_password"] == Str(pw)
  {
    UpdatedUserEffect(row, d);
  }

  /** `delete` of a user that exists, on a session with nothing pending,
      returns the record as it was and leaves no user with that id. */
  lemma DeleteUserReturnsRecord(s: Session, userId: int)
    requires SessionOk(UserTable, s) && s.rows == s.committed
    ensures var (s', r) := DeleteUserStep(s, userId);
      && r.Ok?
      && (r.value.None? <==> forall x | x in s.rows :: IdOf(x) != Int(userId))
      && (r.value.Some? ==>
            && r.value.value in s.rows
            && IdOf(r.value.value) == Int(userId)
            && FirstWith(s'.rows, "id", Int(userId)) == None)
  {
    if exists x | x in s.rows :: IdOf(x) == Int(userId) {
      DeleteCommitSucceeds(UserTable, s, userId);
      var row := FirstWith(s.rows, "id", Int(userId)).value;
      assert Attr(row, "id") == Int(userId);
    }
  }

  class UserService {
    const repo: BaseRepository
    const hasher: PasswordHasher

    ghost predicate Valid()
      reads this, repo
    {
      repo.model == UserTable && repo.Valid()
    }

    constructor (repo: BaseRepository, hasher: PasswordHasher)
      requires repo.model == UserTable && repo.Valid()
      ensures this.repo == repo && this.hasher == hasher && Valid()
    {
      this.repo := repo;
      this.hasher := hasher;
    }

    /** `get(user_id)`. */
    method Get(userId: int) returns (r: Option<Row>)
      ensures r == FirstWith(repo.rows, "id", Int(userId))
    {
      r := repo.Get(userId);
    }

    /** `get_by_email(email)`, as an exact match on `email`. */
    method GetByEmail(email: string) returns (r: Option<Row>)
      ensures r == FirstWith(repo.rows, "email", Str(email))
    {
      r := repo.FindFirst("email", Str(email));
    }

    /** `get_all_users()`: `get_multi()` with its defaults, no filter, skip
        0 and limit 100, so the first 100 users in insertion order. */
    method GetAllUsers() returns (users: seq<Row>)
      requires Valid()
      ensures |repo.rows| <= 100 ==> users == repo.rows
      ensures |repo.rows| > 100 ==> users == repo.rows[..100]
    {
      var total;
      users, total := repo.GetMulti(0, 100, []);
      assert Conditions(UserTable.columns, []) == [];
      SelectAll(repo.rows);
    }

    /** `create(obj_in)`: hashes the plaintext once, then has the repository
        create and commit the payload. */
    method Create(objIn: Dict) returns (r: Result<Row, DbError>)
      requires Valid() && DistinctKeys(objIn) && HasPassword(objIn)
      modifies repo, hasher`calls
      ensures Valid()
      ensures hasher.calls == old(hasher.calls) + [Lookup(objIn, "password").value.s]
      ensures (repo.State(), r) ==
        CreateStep(UserTable, old(repo.State()), CreatePayload(objIn, hasher.digest(Lookup(objIn, "password").value.s)), true)
    {
      var hashed := hasher.Hash(Lookup(objIn, "password").value.s);
      var payload := Put(objIn, "hashed_password", Str(hashed));
      if "password" in Keys(payload) {
        payload := Remove(payload, "password");
      }
      r := repo.Create(payload, true);
    }

    /** `update(user_id, obj_in)`. The record is written back through the
        repository, which commits. */
    method Update(userId: int, updateData: Dict) returns (r: Result<Option<Row>, DbError>)
      requires Valid() && DistinctKeys(updateData)
      modifies repo
      ensures Valid()
      ensures (repo.State(), r) == UpdateUserStep(old(repo.State()), userId, updateData)
    {
      var found := repo.Get(userId);
      if found.None? {
        return Ok(None);
      }
      var row := found.value;
      var i := 0;
      while i < |updateData|
        invariant 0 <= i <= |updateData|
        invariant row == SetGiven(UserColumns, found.value, updateData[..i])
      {
        assert updateData[..i + 1][..i] == updateData[..i];
        var e := updateData[i];
        if e.key != "password" && e.key in UserColumns && e.value != Null {
          row := row[e.key := e.value];
        }
        i := i + 1;
      }
      assert updateData[..|updateData|] == updateData;
      var pw := Lookup(updateData, "password");
      if pw.Some? && Truthy(pw.value) {
        row := row["hashed_password" := pw.value];
      }
      var k :| 0 <= k < |repo.rows| && repo.rows[k] == found.value;
      assert Shaped(UserTable, repo.rows[k]);
      UserPatchEffect(found.value, updateData);
      r := repo.Persist(userId, row);
    }

    /** `delete(user_id)`: the record as fetched before the repository
        deletes it, or None. */
    method Delete(userId: int) returns (r: Result<Option<Row>, DbError>)
      requires Valid()
      modifies repo
      ensures Valid()
      ensures (repo.State(), r) == DeleteUserStep(old(repo.State()), userId)
    {
      var found := repo.Get(userId);
      if found.None? {
        return Ok(None);
      }
      var res := repo.Delete(userId, true);
      r := if res.Ok? then Ok(found) else Err(res.error);
    }
  }
}
