/** The `users` table: the role enumeration, the column set with its
    defaults and constraints, a typed view of a stored record, and what the
    generic filter dispatch makes of the User model. */
module Users {
  import opened Values
  import opened Text
  import opened Schema
  import opened Filters

  datatype UserRole = ADMIN | USER
  {
    /** The string stored in the `role` column. */
    function Value(): string
    {
      match this
      case ADMIN => "ADMIN"
      case USER => "USER"
    }
  }

  /** The role a stored string names, if any. */
  function ParseRole(s: string): (r: Option<UserRole>)
    ensures r.Some? ==> r.value.Value() == s
    ensures r.None? ==> forall role: UserRole :: role.Value() != s
  {
    if s == "ADMIN" then Some(ADMIN)
    else if s == "USER" then Some(USER)
    else None
  }

  const UserColumns: set<string> := {
    "id", "email", "hashed_password", "first_name", "last_name",
    "is_active", "is_superuser", "is_verified", "is_deleted", "role"
  }

  /** Column defaults: the four flags and the role. */
  const UserDefaults: map<string, Value> := map[
    "is_active" := Bool(true),
    "is_superuser" := Bool(false),
    "is_verified" := Bool(false),
    "is_deleted" := Bool(false),
    "role" := Str(USER.Value())
  ]

  /** Integer primary key `id`; `email` unique and not null. */
  const UserTable: ModelSpec := ModelSpec(UserColumns, UserDefaults, {"id", "email"}, {"id", "email"})

  /** Declared `String(n)` widths. */
  const DeclaredLengths: map<string, nat> := map[
    "email" := 300, "hashed_password" := 300, "first_name" := 300, "last_name" := 300, "role" := 20
  ]

  lemma UserTableWellFormed()
    ensures WellFormed(UserTable)
  {
  }

  /** A stored user with its columns typed. Nullable columns are options. */
  datatype User = User(
    id: int,
    email: string,
    hashedPassword: Option<string>,
    firstName: Option<string>,
    lastName: Option<string>,
    isActive: Option<bool>,
    isSuperuser: Option<bool>,
    isVerified: Option<bool>,
    isDeleted: Option<bool>,
    role: Option<string>)

  function OptStr(v: Option<string>): Value
  {
    match v
    case None => Null
    case Some(s) => Str(s)
  }

  function OptBool(v: Option<bool>): Value
  {
    match v
    case None => Null
    case Some(b) => Bool(b)
  }

  /** A nullable string column: None or a string. */
  predicate StrOrNull(v: Value)
  {
    v.Null? || v.Str?
  }

  /** A nullable boolean column: None or a bool. */
  predicate BoolOrNull(v: Value)
  {
    v.Null? || v.Bool?
  }

  function AsStr(v: Value): Option<string>
  {
    if v.Str? then Some(v.s) else None
  }

  function AsBool(v: Value): Option<bool>
  {
    if v.Bool? then Some(v.b) else None
  }

  /** The record a typed user is stored as. */
  function ToRow(u: User): (row: Row)
    ensures Shaped(UserTable, row)
    ensures IdOf(row) == Int(u.id) && row["email"] == Str(u.email)
  {
    map[
      "id" := Int(u.id),
      "email" := Str(u.email),
      "hashed_password" := OptStr(u.hashedPassword),
      "first_name" := OptStr(u.firstName),
      "last_name" := OptStr(u.lastName),
      "is_active" := OptBool(u.isActive),
      "is_superuser" := OptBool(u.isSuperuser),
      "is_verified" := OptBool(u.isVerified),
      "is_deleted" := OptBool(u.isDeleted),
      "role" := OptStr(u.role)
    ]
  }

  /** A record of the users table whose columns hold values of their types. */
  predicate WellTyped(row: Row)
  {
    && row.Keys == UserColumns
    && row["id"].Int? && row["email"].Str?
    && StrOrNull(row["hashed_password"]) && StrOrNull(row["first_name"])
    && StrOrNull(row["last_name"]) && StrOrNull(row["role"])
    && BoolOrNull(row["is_active"]) && BoolOrNull(row["is_superuser"])
    && BoolOrNull(row["is_verified"]) && BoolOrNull(row["is_deleted"])
  }

  /** The typed view of a stored record: None when a column is missing or
      holds a value of the wrong type. */
  function FromRow(row: Row): (r: Option<User>)
    ensures r.Some? <==> WellTyped(row)
    ensures r.Some? ==> ToRow(r.value) == row
  {
    if !WellTyped(row) then None
    else
      var u := User(row["id"].i, row["email"].s, AsStr(row["hashed_password"]), AsStr(row["first_name"]),
                    AsStr(row["last_name"]), AsBool(row["is_active"]), AsBool(row["is_superuser"]),
                    AsBool(row["is_verified"]), AsBool(row["is_deleted"]), AsStr(row["role"]));
      assert ToRow(u).Keys == row.Keys;
      Some(u)
  }

  /** Typed users survive being stored. */
  lemma RowRoundTrip(u: User)
    ensures FromRow(ToRow(u)) == Some(u)
  {
    var row := ToRow(u);
    assert row.Keys == UserColumns;
    assert WellTyped(row);
  }

  /** A freshly created user: a flag or the role left out of `obj_in`, or
      given as None, takes its default (`is_active` true, the other three
      flags false, role "USER"); a value other than None is kept. */
  lemma CreationDefaults(objIn: Dict, nextId: int)
    ensures var row := Instantiate(UserTable, objIn, nextId).0;
      && (Omitted(objIn, "is_active") ==> row["is_active"] == Bool(true))
      && (Omitted(objIn, "is_superuser") ==> row["is_superuser"] == Bool(false))
      && (Omitted(objIn, "is_verified") ==> row["is_verified"] == Bool(false))
      && (Omitted(objIn, "is_deleted") ==> row["is_deleted"] == Bool(false))
      && (Omitted(objIn, "role") ==> row["role"] == Str("USER"))
      && (Omitted(objIn, "first_name") ==> row["first_name"] == Null)
      && (forall c | c in UserColumns && c != "id" && !Omitted(objIn, c) :: row[c] == Lookup(objIn, c).value)
  {
    UserTableWellFormed();
  }

  /** A stored user's strings fit the declared column widths. */
  predicate FitsDeclaredLengths(row: Row)
  {
    forall c | c in DeclaredLengths && c in row && row[c].Str? :: |row[c].s| <= DeclaredLengths[c]
  }

  /** Every string default fits its column's declared width. */
  lemma DefaultsFitLengths()
    ensures forall c | c in UserDefaults && c in DeclaredLengths && UserDefaults[c].Str? :: |UserDefaults[c].s| <= DeclaredLengths[c]
  {
    forall c | c in UserDefaults && c in DeclaredLengths && UserDefaults[c].Str?
      ensures |UserDefaults[c].s| <= DeclaredLengths[c]
    {
      assert c == "role";
    }
  }

  /** For any model: when the defaults and the given strings fit the
      widths, so does the created record. */
  lemma InstantiateFits(m: ModelSpec, widths: map<string, nat>, objIn: Dict, nextId: int)
    requires WellFormed(m) && "id" !in widths
    requires forall c | c in m.defaults && c in widths && m.defaults[c].Str? :: |m.defaults[c].s| <= widths[c]
    requires forall e | e in objIn && e.key in widths && e.value.Str? :: |e.value.s| <= widths[e.key]
    ensures var row := Instantiate(m, objIn, nextId).0;
      forall c | c in widths && c in row && row[c].Str? :: |row[c].s| <= widths[c]
  {
    var row := Instantiate(m, objIn, nextId).0;
    forall c | c in widths && c in row && row[c].Str?
      ensures |row[c].s| <= widths[c]
    {
      InstantiatedFrom(m, objIn, nextId, c);
    }
  }

  /** The defaults fit the declared widths, so a created record fits them
      whenever the given strings do. */
  lemma CreationFitsLengths(objIn: Dict, nextId: int)
    requires forall e | e in objIn && e.key in DeclaredLengths && e.value.Str? :: |e.value.s| <= DeclaredLengths[e.key]
    ensures FitsDeclaredLengths(Instantiate(UserTable, objIn, nextId).0)
  {
    UserTableWellFormed();
    DefaultsFitLengths();
    InstantiateFits(UserTable, DeclaredLengths, objIn, nextId);
  }

  /** What a committed users table guarantees: ids are integers and
      distinct, every email is a value and no two records share one. */
  lemma TableInvariant(rows: seq<Row>)
    requires TableOk(UserTable, rows)
    ensures DistinctIds(rows)
    ensures forall i | 0 <= i < |rows| :: IdOf(rows[i]).Int? && rows[i]["email"] != Null
    ensures forall i, j | 0 <= i < j < |rows| :: rows[i]["email"] != rows[j]["email"]
  {
    UserTableWellFormed();
    TableOkDistinctIds(UserTable, rows);
    forall i | 0 <= i < |rows| ensures rows[i]["email"] != Null {
      assert Attr(rows[i], "email") != Null;
    }
    forall i, j | 0 <= i < j < |rows| ensures rows[i]["email"] != rows[j]["email"] {
      assert Attr(rows[i], "email") != Null;
    }
  }

  /** As base.py is written, the attribute test is made on the whole key, and
      the User model has no attribute `email_contains`: that filter is
      skipped, and every record matches it. */
  lemma EmailContainsIgnored(v: Value, rows: seq<Row>)
    ensures Conditions(UserColumns, [Entry("email_contains", v)]) == []
    ensures Select(rows, Conditions(UserColumns, [Entry("email_contains", v)])) == rows
  {
    var e := Entry("email_contains", v);
    assert e.key !in UserColumns;
    assert EntryCondition(UserColumns, e) == None;
    assert [e][..0] == [];
    SelectAll(rows);
  }

  /** No User column ends in `_contains`, so the pattern-match branch of the
      dispatch never fires for this model. */
  lemma NoContainsColumns()
    ensures forall c | c in UserColumns :: !EndsWith(c, ContainsSuffix)
    ensures forall e: Entry | EntryCondition(UserColumns, e).Some? :: !EntryCondition(UserColumns, e).value.ILike?
  {
  }
}
