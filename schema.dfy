/** What a mapped model class tells the repository: its column attributes,
    the defaults the database fills in, and the table's constraints. */
module Schema {
  import opened Values

  /** A mapped class. Every model has an integer primary key column "id",
      which the database assigns when a new record leaves it out or None. */
  datatype ModelSpec = ModelSpec(
    columns: set<string>,
    defaults: map<string, Value>,
    unique: set<string>,
    notNull: set<string>)

  predicate WellFormed(m: ModelSpec)
  {
    && "id" in m.columns
    && "id" in m.unique
    && "id" in m.notNull
    && "id" !in m.defaults
    && m.defaults.Keys <= m.columns
    && m.unique <= m.columns
    && m.notNull <= m.columns
  }

  /** `getattr(row, f)`, with None for an attribute the record lacks. */
  function Attr(row: Row, f: string): Value
  {
    if f in row then row[f] else Null
  }

  function IdOf(row: Row): Value
  {
    Attr(row, "id")
  }

  /** A record carries exactly the model's columns. */
  predicate Shaped(m: ModelSpec, row: Row)
  {
    row.Keys == m.columns
  }

  /** The constraints the database checks when a transaction commits: an
      integer primary key, NOT NULL columns, and UNIQUE columns (where, as in
      SQL, NULLs never clash). */
  predicate TableOk(m: ModelSpec, rows: seq<Row>)
  {
    && (forall i | 0 <= i < |rows| :: Shaped(m, rows[i]) && IdOf(rows[i]).Int?)
    && (forall i, c | 0 <= i < |rows| && c in m.notNull :: Attr(rows[i], c) != Null)
    && (forall i, j, c | 0 <= i < j < |rows| && c in m.unique ::
          Attr(rows[i], c) == Null || Attr(rows[i], c) != Attr(rows[j], c))
  }

  /** No two records share an id. */
  predicate DistinctIds(rows: seq<Row>)
  {
    forall i, j | 0 <= i < j < |rows| :: IdOf(rows[i]) != IdOf(rows[j])
  }

  lemma TableOkDistinctIds(m: ModelSpec, rows: seq<Row>)
    requires WellFormed(m) && TableOk(m, rows)
    ensures DistinctIds(rows)
    ensures forall i | 0 <= i < |rows| :: IdOf(rows[i]) != Null
  {
    forall i, j | 0 <= i < j < |rows| ensures IdOf(rows[i]) != IdOf(rows[j]) {
      assert Attr(rows[i], "id") != Null;
    }
  }

  /** Keyword arguments that are not attributes of the model: the model's
      constructor rejects them with a TypeError. */
  function UnknownKeys(m: ModelSpec, d: Dict): set<string>
  {
    Keys(d) - m.columns
  }

  /** The INSERT leaves column `c` out: the key is not given, or it is given
      None, which the ORM does not send when it inserts. */
  predicate Omitted(d: Dict, c: string)
  {
    Lookup(d, c).None? || Lookup(d, c).value == Null
  }

  /** `model(**obj_in)` once inserted: a column given a value other than
      None stores it; an omitted one takes its default, or None when it has
      none. */
  function Construct(m: ModelSpec, d: Dict): (row: Row)
    ensures Shaped(m, row)
    ensures forall c | c in m.columns && !Omitted(d, c) :: row[c] == Lookup(d, c).value
    ensures forall c | c in m.columns && Omitted(d, c) && c in m.defaults :: row[c] == m.defaults[c]
    ensures forall c | c in m.columns && Omitted(d, c) && c !in m.defaults :: row[c] == Null
  {
    map c | c in m.columns ::
      match Lookup(d, c)
      case Some(v) => if v == Null && c in m.defaults then m.defaults[c] else v
      case None => if c in m.defaults then m.defaults[c] else Null
  }

  /** The constructed record with its primary key filled in from the id
      sequence when it has none, and the sequence's next value. */
  function Instantiate(m: ModelSpec, d: Dict, nextId: int): (r: (Row, int))
    requires WellFormed(m)
    ensures Shaped(m, r.0)
    ensures IdOf(r.0) != Null
    ensures !Omitted(d, "id") ==> IdOf(r.0) == Lookup(d, "id").value && r.1 == nextId
    ensures Omitted(d, "id") ==> IdOf(r.0) == Int(nextId) && r.1 == nextId + 1
    ensures forall c | c in m.columns && c != "id" :: r.0[c] == Construct(m, d)[c]
  {
    var row := Construct(m, d);
    if row["id"] == Null then (row["id" := Int(nextId)], nextId + 1) else (row, nextId)
  }

  /** A created record's column other than the key holds a value given for
      it, its default, or None. */
  lemma InstantiatedFrom(m: ModelSpec, d: Dict, nextId: int, c: string)
    requires WellFormed(m) && c in m.columns && c != "id"
    ensures var v := Instantiate(m, d, nextId).0[c];
      v == Null || (c in m.defaults && v == m.defaults[c]) || Entry(c, v) in d
  {
    if !Omitted(d, c) {
      assert Entry(c, Lookup(d, c).value) in d;
    }
  }
}
