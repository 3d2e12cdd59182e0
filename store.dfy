/** The table as one database session sees it, and what each repository
    operation does to it, as functions on values. The repository class
    (module Repositories) is proved to follow these step functions; the
    lemmas here state what the steps promise. */
module Store {
  import opened Values
  import opened Schema

  /** The model constructor rejects an unknown keyword (TypeError); a commit
      that breaks a table constraint fails (IntegrityError). */
  datatype DbError = TypeError | IntegrityError

  /** `committed` is what the database holds; `rows` is the session's view,
      committed state plus pending changes, in insertion order; `nextId` is
      the next value of the primary-key sequence. */
  datatype Session = Session(committed: seq<Row>, rows: seq<Row>, nextId: int)

  predicate SessionOk(m: ModelSpec, s: Session)
  {
    && WellFormed(m)
    && TableOk(m, s.committed)
    && (forall i | 0 <= i < |s.rows| :: Shaped(m, s.rows[i]))
  }

  /** Position of the first record whose attribute `f` equals `v`. */
  function IndexOf(rows: seq<Row>, f: string, v: Value): (r: Option<nat>)
    ensures r.Some? ==> r.value < |rows| && Attr(rows[r.value], f) == v
    ensures r.Some? ==> forall j | 0 <= j < r.value :: Attr(rows[j], f) != v
    ensures r.None? ==> forall j | 0 <= j < |rows| :: Attr(rows[j], f) != v
  {
    if rows == [] then None
    else if Attr(rows[0], f) == v then Some(0)
    else
      match IndexOf(rows[1..], f, v)
      case None => None
      case Some(k) => Some(k + 1)
  }

  /** `select(model).where(model.f == v)` then `.first()`. */
  function FirstWith(rows: seq<Row>, f: string, v: Value): (r: Option<Row>)
    ensures r.Some? ==> r.value in rows && Attr(r.value, f) == v
    ensures r.None? <==> forall x | x in rows :: Attr(x, f) != v
  {
    match IndexOf(rows, f, v)
    case None => None
    case Some(k) => Some(rows[k])
  }

  /** In a table with distinct ids, looking a record's id up finds that record. */
  lemma UniqueIndex(rows: seq<Row>, k: nat)
    requires DistinctIds(rows) && k < |rows|
    ensures IndexOf(rows, "id", IdOf(rows[k])) == Some(k)
    ensures FirstWith(rows, "id", IdOf(rows[k])) == Some(rows[k])
  {
    assert Attr(rows[k], "id") == IdOf(rows[k]);
    assert forall j | 0 <= j < k :: IdOf(rows[j]) != IdOf(rows[k]);
  }

  /** `commit()` when asked to: it succeeds and publishes the session's view
      if the constraints hold, otherwise the transaction is rolled back. */
  function Flush(m: ModelSpec, s: Session, commit: bool): (Session, Result<(), DbError>)
  {
    if !commit then (s, Ok(()))
    else if TableOk(m, s.rows) then (s.(committed := s.rows), Ok(()))
    else (s.(rows := s.committed), Err(IntegrityError))
  }

  /** `rollback()`: pending changes are dropped (the id sequence is not). */
  function Rollback(s: Session): Session
  {
    s.(rows := s.committed)
  }

  /** `create(obj_in=..., commit_txn=...)`. */
  function CreateStep(m: ModelSpec, s: Session, objIn: Dict, commit: bool): (Session, Result<Row, DbError>)
    requires WellFormed(m)
  {
    if UnknownKeys(m, objIn) != {} then (s, Err(TypeError))
    else
      var inst := Instantiate(m, objIn, s.nextId);
      var f := Flush(m, s.(rows := s.rows + [inst.0], nextId := inst.1), commit);
      (f.0, if f.1.Ok? then Ok(inst.0) else Err(f.1.error))
  }

  /** The `setattr` loop of `update`: each key that is an attribute of the
      record takes its value, None included. */
  function Patch(columns: set<string>, row: Row, d: Dict): Row
  {
    if d == [] then row
    else
      var r := Patch(columns, row, d[..|d| - 1]);
      var e := d[|d| - 1];
      if e.key in columns then r[e.key := e.value] else r
  }

  /** `update(id=..., obj_in=..., commit_txn=...)`. */
  function UpdateStep(m: ModelSpec, s: Session, id: int, objIn: Dict, commit: bool): (Session, Result<Option<Row>, DbError>)
  {
    match IndexOf(s.rows, "id", Int(id))
    case None => (s, Ok(None))
    case Some(k) =>
      var row := Patch(m.columns, s.rows[k], objIn);
      var f := Flush(m, s.(rows := s.rows[k := row]), commit);
      (f.0, if f.1.Ok? then Ok(Some(row)) else Err(f.1.error))
  }

  /** `delete(id=..., commit_txn=...)`. */
  function DeleteStep(m: ModelSpec, s: Session, id: int, commit: bool): (Session, Result<Option<Row>, DbError>)
  {
    match IndexOf(s.rows, "id", Int(id))
    case None => (s, Ok(None))
    case Some(k) =>
      var f := Flush(m, s.(rows := s.rows[..k] + s.rows[k + 1..]), commit);
      (f.0, if f.1.Ok? then Ok(Some(s.rows[k])) else Err(f.1.error))
  }

  /** Writing back a record fetched by `id` and mutated in place, then
      committing. */
  function PersistStep(m: ModelSpec, s: Session, id: int, row: Row): (Session, Result<Option<Row>, DbError>)
  {
    match IndexOf(s.rows, "id", Int(id))
    case None => (s, Ok(None))
    case Some(k) =>
      var f := Flush(m, s.(rows := s.rows[k := row]), true);
      (f.0, if f.1.Ok? then Ok(Some(row)) else Err(f.1.error))
  }

  lemma FlushOk(m: ModelSpec, s: Session, commit: bool)
    requires SessionOk(m, s)
    ensures SessionOk(m, Flush(m, s, commit).0)
    ensures Flush(m, s, commit).0.nextId == s.nextId
    ensures commit ==> Flush(m, s, commit).0.rows == Flush(m, s, commit).0.committed
    ensures Flush(m, s, commit).1.Ok? ==> Flush(m, s, commit).0.rows == s.rows
    ensures Flush(m, s, commit).1.Err? ==> Flush(m, s, commit).0.rows == s.committed
  {
  }

  /** Every step keeps the committed table within its constraints and every
      record in the session shaped like the model. */
  lemma StepsKeepSessionOk(m: ModelSpec, s: Session, objIn: Dict, id: int, row: Row, commit: bool)
    requires SessionOk(m, s)
    ensures SessionOk(m, CreateStep(m, s, objIn, commit).0)
    ensures SessionOk(m, UpdateStep(m, s, id, objIn, commit).0)
    ensures SessionOk(m, DeleteStep(m, s, id, commit).0)
    ensures Shaped(m, row) ==> SessionOk(m, PersistStep(m, s, id, row).0)
    ensures SessionOk(m, Rollback(s))
  {
    if UnknownKeys(m, objIn) == {} {
      var inst := Instantiate(m, objIn, s.nextId);
      FlushOk(m, s.(rows := s.rows + [inst.0], nextId := inst.1), commit);
    }
    var k := IndexOf(s.rows, "id", Int(id));
    if k.Some? {
      var i := k.value;
      PatchShape(m.columns, s.rows[i], objIn);
      FlushOk(m, s.(rows := s.rows[i := Patch(m.columns, s.rows[i], objIn)]), commit);
      FlushOk(m, s.(rows := s.rows[..i] + s.rows[i + 1..]), commit);
      if Shaped(m, row) {
        FlushOk(m, s.(rows := s.rows[i := row]), true);
      }
    }
  }

  lemma {:induction false} PatchShape(columns: set<string>, row: Row, d: Dict)
    ensures Patch(columns, row, d).Keys == row.Keys + (Keys(d) * columns)
  {
    if d != [] {
      var init := d[..|d| - 1];
      PatchShape(columns, row, init);
      assert Keys(d) == Keys(init) + {d[|d| - 1].key} by {
        assert forall e | e in d :: e in init || e == d[|d| - 1];
      }
    }
  }

  /** What `update`'s loop leaves in the record: an attribute named in the
      dict has the dict's value, every other attribute keeps its own. */
  lemma {:induction false} PatchEffect(columns: set<string>, row: Row, d: Dict)
    requires DistinctKeys(d) && row.Keys == columns
    ensures Patch(columns, row, d).Keys == columns
    ensures forall c | c in columns ::
      Patch(columns, row, d)[c] == match Lookup(d, c) case Some(v) => v case None => row[c]
  {
    PatchShape(columns, row, d);
    if d != [] {
      var init := d[..|d| - 1];
      var e := d[|d| - 1];
      assert d == init + [e];
      assert DistinctKeys(init);
      PatchEffect(columns, row, init);
      forall c | c in columns
        ensures Patch(columns, row, d)[c] == match Lookup(d, c) case Some(v) => v case None => row[c]
      {
        LookupLast(init, e, c);
      }
    }
  }

  /** Looking a key up in a dict extended by one entry with a new key. */
  lemma {:induction false} LookupLast(init: Dict, e: Entry, c: string)
    requires DistinctKeys(init + [e])
    ensures Lookup(init + [e], c) == if c == e.key then Some(e.value) else Lookup(init, c)
  {
    var d := init + [e];
    if init != [] {
      assert d[1..] == init[1..] + [e];
      assert DistinctKeys(d[1..]) by {
        forall i, j | 0 <= i < j < |d[1..]| ensures d[1..][i].key != d[1..][j].key {
          assert d[1..][i] == d[i + 1] && d[1..][j] == d[j + 1];
        }
      }
      LookupLast(init[1..], e, c);
      assert d[0] == init[0];
      if c == e.key {
        assert d[0].key != d[|d| - 1].key;
      }
    }
  }

  /** `create` on a dict with a keyword the model lacks raises and changes
      nothing. */
  lemma CreateUnknownKey(m: ModelSpec, s: Session, objIn: Dict, commit: bool)
    requires WellFormed(m) && UnknownKeys(m, objIn) != {}
    ensures CreateStep(m, s, objIn, commit) == (s, Err(TypeError))
  {
  }

  /** A successful `create` adds exactly one record at the end, built from
      `obj_in`, and returns it; the other records are untouched. Without a
      commit it stays pending; with one it is committed. */
  lemma CreateAddsOne(m: ModelSpec, s: Session, objIn: Dict, commit: bool)
    requires WellFormed(m)
    ensures var (s', r) := CreateStep(m, s, objIn, commit);
      r.Ok? ==>
        && UnknownKeys(m, objIn) == {}
        && r.value == Instantiate(m, objIn, s.nextId).0
        && s'.rows == s.rows + [r.value]
        && s'.committed == (if commit then s'.rows else s.committed)
  {
  }

  /** After a committed `create`, `get` of the new record's id finds it. */
  lemma CreateThenGet(m: ModelSpec, s: Session, objIn: Dict)
    requires WellFormed(m)
    ensures var (s', r) := CreateStep(m, s, objIn, true);
      r.Ok? ==> IdOf(r.value).Int? && FirstWith(s'.rows, "id", IdOf(r.value)) == Some(r.value)
  {
    var (s', r) := CreateStep(m, s, objIn, true);
    if r.Ok? {
      TableOkDistinctIds(m, s'.rows);
      assert s'.rows[|s'.rows| - 1] == r.value;
      UniqueIndex(s'.rows, |s'.rows| - 1);
    }
  }

  /** A committed `create` whose record repeats a UNIQUE value already in
      the table fails, and the transaction is rolled back. */
  lemma CreateDuplicateRejected(m: ModelSpec, s: Session, objIn: Dict, c: string, j: nat)
    requires WellFormed(m) && UnknownKeys(m, objIn) == {}
    requires c in m.unique && j < |s.rows|
    requires Attr(s.rows[j], c) != Null
    requires Attr(Instantiate(m, objIn, s.nextId).0, c) == Attr(s.rows[j], c)
    ensures CreateStep(m, s, objIn, true).1 == Err(IntegrityError)
    ensures CreateStep(m, s, objIn, true).0.rows == s.committed
    ensures CreateStep(m, s, objIn, true).0.committed == s.committed
  {
    var rows := s.rows + [Instantiate(m, objIn, s.nextId).0];
    assert rows[j] == s.rows[j];
    assert !TableOk(m, rows) by {
      assert Attr(rows[j], c) != Null && Attr(rows[j], c) == Attr(rows[|s.rows|], c);
    }
  }

  /** `update` of an id no record has returns None and changes nothing. */
  lemma UpdateMissing(m: ModelSpec, s: Session, id: int, objIn: Dict, commit: bool)
    requires forall x | x in s.rows :: IdOf(x) != Int(id)
    ensures UpdateStep(m, s, id, objIn, commit) == (s, Ok(None))
  {
    assert forall j | 0 <= j < |s.rows| :: s.rows[j] in s.rows;
  }

  /** A successful `update` changes only the record with that id, and in it
      only the attributes named in `obj_in`; it is committed exactly when
      `commit_txn` asks for it. */
  lemma UpdateOnlyNamedFields(m: ModelSpec, s: Session, id: int, objIn: Dict, commit: bool)
    requires SessionOk(m, s) && DistinctKeys(objIn)
    ensures var (s', r) := UpdateStep(m, s, id, objIn, commit);
      r.Ok? && r.value.Some? ==>
        exists k | 0 <= k < |s.rows| ::
          && IdOf(s.rows[k]) == Int(id)
          && s'.rows == s.rows[k := r.value.value]
          && s'.committed == (if commit then s'.rows else s.committed)
          && r.value.value.Keys == m.columns
          && forall c | c in m.columns ::
               r.value.value[c] == match Lookup(objIn, c) case Some(v) => v case None => s.rows[k][c]
  {
    var (s', r) := UpdateStep(m, s, id, objIn, commit);
    if r.Ok? && r.value.Some? {
      var k := IndexOf(s.rows, "id", Int(id)).value;
      PatchEffect(m.columns, s.rows[k], objIn);
    }
  }

  /** `delete` of an id no record has returns None and changes nothing. */
  lemma DeleteMissing(m: ModelSpec, s: Session, id: int, commit: bool)
    requires forall x | x in s.rows :: IdOf(x) != Int(id)
    ensures DeleteStep(m, s, id, commit) == (s, Ok(None))
  {
    assert forall j | 0 <= j < |s.rows| :: s.rows[j] in s.rows;
  }

  /** A successful `delete` removes exactly the record with that id and
      returns it; in a table of distinct ids a later `get` of that id finds
      nothing. It is committed exactly when `commit_txn` asks for it. */
  lemma DeleteRemovesOne(m: ModelSpec, s: Session, id: int, commit: bool)
    requires DistinctIds(s.rows)
    ensures var (s', r) := DeleteStep(m, s, id, commit);
      r.Ok? && r.value.Some? ==>
        && IdOf(r.value.value) == Int(id)
        && (exists k | 0 <= k < |s.rows| :: s.rows[k] == r.value.value && s'.rows == s.rows[..k] + s.rows[k + 1..])
        && FirstWith(s'.rows, "id", Int(id)) == None
        && s'.committed == (if commit then s'.rows else s.committed)
  {
    var (s', r) := DeleteStep(m, s, id, commit);
    if r.Ok? && r.value.Some? {
      var k := IndexOf(s.rows, "id", Int(id)).value;
      var rest := s.rows[..k] + s.rows[k + 1..];
      assert s'.rows == rest;
      forall x | x in rest ensures IdOf(x) != Int(id) {
        var j :| 0 <= j < |rest| && rest[j] == x;
        if j < k {
          assert x == s.rows[j];
        } else {
          assert x == s.rows[j + 1];
        }
      }
    }
  }

  /** Removing a record keeps a table within its constraints. */
  lemma DeleteKeepsTableOk(m: ModelSpec, rows: seq<Row>, k: nat)
    requires TableOk(m, rows) && k < |rows|
    ensures TableOk(m, rows[..k] + rows[k + 1..])
  {
    var r := rows[..k] + rows[k + 1..];
    assert forall i | 0 <= i < |r| :: r[i] == rows[if i < k then i else i + 1];
  }

  /** On a session with nothing pending, a committed `delete` of an id in
      the table succeeds: it returns that record and the commit cannot fail. */
  lemma DeleteCommitSucceeds(m: ModelSpec, s: Session, id: int)
    requires SessionOk(m, s) && s.rows == s.committed
    requires exists x | x in s.rows :: IdOf(x) == Int(id)
    ensures var (s', r) := DeleteStep(m, s, id, true);
      && r.Ok? && r.value.Some? && IdOf(r.value.value) == Int(id)
      && s'.rows == s'.committed
      && FirstWith(s'.rows, "id", Int(id)) == None
  {
    var x :| x in s.rows && IdOf(x) == Int(id);
    assert Attr(x, "id") == Int(id);
    var k := IndexOf(s.rows, "id", Int(id)).value;
    DeleteKeepsTableOk(m, s.rows, k);
    TableOkDistinctIds(m, s.rows);
    DeleteRemovesOne(m, s, id, true);
  }

  /** A `create` or `update` made without a commit is undone by a rollback. */
  lemma RollbackUndoesPending(m: ModelSpec, s: Session, objIn: Dict, id: int)
    requires WellFormed(m) && s.rows == s.committed
    ensures Rollback(CreateStep(m, s, objIn, false).0).rows == s.rows
    ensures Rollback(CreateStep(m, s, objIn, false).0).committed == s.committed
    ensures Rollback(UpdateStep(m, s, id, objIn, false).0) == s
  {
  }
}
