/** The generic repository: one mapped model, one database session. The
    session's records, the committed table and the primary-key sequence are
    fields that the operations update in place; each operation is proved to
    do what the corresponding step function of module Store says. */
module Repositories {
  import opened Values
  import opened Schema
  import opened Filters
  import opened Store

  class BaseRepository {
    /** The mapped model class. */
    const model: ModelSpec
    /** What the database holds. */
    var committed: seq<Row>
    /** The session's view: committed records plus pending changes, in
        insertion order. */
    var rows: seq<Row>
    /** The next value of the primary-key sequence. */
    var nextId: int

    function State(): Session
      reads this
    {
      Session(committed, rows, nextId)
    }

    ghost predicate Valid()
      reads this
    {
      SessionOk(model, State())
    }

    /** A repository for `model` bound to the session `db`, over whatever
        the table and the session already hold. */
    constructor (db: Session, model: ModelSpec)
      requires SessionOk(model, db)
      ensures this.model == model
      ensures State() == db
      ensures Valid()
    {
      this.model := model;
      committed := db.committed;
      rows := db.rows;
      nextId := db.nextId;
    }

    /** The position of the first record in the session whose attribute
        `f` equals `v`: `select(...).where(model.f == v)`. */
    method Locate(f: string, v: Value) returns (k: Option<nat>)
      ensures k == IndexOf(rows, f, v)
    {
      var i := 0;
      while i < |rows|
        invariant 0 <= i <= |rows|
        invariant forall j | 0 <= j < i :: Attr(rows[j], f) != v
      {
        if Attr(rows[i], f) == v {
          return Some(i);
        }
        i := i + 1;
      }
      return None;
    }

    /** `get(id)`: the record with that id, or None. */
    method Get(id: int) returns (r: Option<Row>)
      ensures r == FirstWith(rows, "id", Int(id))
    {
      var k := Locate("id", Int(id));
      r := if k.Some? then Some(rows[k.value]) else None;
    }

    /** The first record whose attribute `f` equals `v` exactly; the lookup
        the user repository's `get_by_email` makes on `email`. */
    method FindFirst(f: string, v: Value) returns (r: Option<Row>)
      ensures r == FirstWith(rows, f, v)
    {
      var k := Locate(f, v);
      r := if k.Some? then Some(rows[k.value]) else None;
    }

    /** `get_multi(skip=..., limit=..., filters=...)`: the page of matching
        records and the number of matches before paging. An empty dict
        stands for both `None` and `{}`. */
    method GetMulti(skip: nat, limit: nat, filters: Dict) returns (items: seq<Row>, total: nat)
      ensures total == |Select(rows, Conditions(model.columns, filters))|
      ensures total == |MatchPositions(rows, Conditions(model.columns, filters), |rows|)|
      ensures items == Page(Select(rows, Conditions(model.columns, filters)), skip, limit)
    {
      var cs: seq<Condition> := [];
      var i := 0;
      while i < |filters|
        invariant 0 <= i <= |filters|
        invariant cs == Conditions(model.columns, filters[..i])
      {
        assert filters[..i + 1][..i] == filters[..i];
        var c := EntryCondition(model.columns, filters[i]);
        if c.Some? {
          cs := cs + [c.value];
        }
        i := i + 1;
      }
      assert filters[..|filters|] == filters;

      var matched: seq<Row> := [];
      var j := 0;
      while j < |rows|
        invariant 0 <= j <= |rows|
        invariant matched == Select(rows[..j], cs)
      {
        assert rows[..j + 1][..j] == rows[..j];
        if MatchesAll(rows[j], cs) {
          matched := matched + [rows[j]];
        }
        j := j + 1;
      }
      assert rows[..|rows|] == rows;

      SelectCount(rows, cs);
      total := |matched|;
      items := Page(matched, skip, limit);
    }

    /** `commit()` when `commit` holds: publish the session's records if
        they keep the table's constraints, otherwise roll back. */
    method Finish(commit: bool) returns (res: Result<(), DbError>)
      requires Valid()
      modifies this
      ensures Valid()
      ensures (State(), res) == Flush(model, old(State()), commit)
    {
      FlushOk(model, State(), commit);
      res := Ok(());
      if commit {
        if TableOk(model, rows) {
          committed := rows;
        } else {
          rows := committed;
          res := Err(IntegrityError);
        }
      }
    }

    /** `commit()`. */
    method Commit() returns (res: Result<(), DbError>)
      requires Valid()
      modifies this
      ensures Valid()
      ensures (State(), res) == Flush(model, old(State()), true)
    {
      res := Finish(true);
    }

    /** `rollback()`. */
    method Rollback()
      requires Valid()
      modifies this
      ensures Valid()
      ensures State() == Store.Rollback(old(State()))
    {
      rows := committed;
    }

    /** `create(obj_in=..., commit_txn=...)`. */
    method Create(objIn: Dict, commit: bool) returns (r: Result<Row, DbError>)
      requires Valid()
      modifies this
      ensures Valid()
      ensures (State(), r) == CreateStep(model, old(State()), objIn, commit)
    {
      if UnknownKeys(model, objIn) != {} {
        return Err(TypeError);
      }
      var inst := Instantiate(model, objIn, nextId);
      rows := rows + [inst.0];
      nextId := inst.1;
      var res := Finish(commit);
      r := if res.Ok? then Ok(inst.0) else Err(res.error);
    }

    /** `update(id=..., obj_in=..., commit_txn=...)`. */
    method Update(id: int, objIn: Dict, commit: bool) returns (r: Result<Option<Row>, DbError>)
      requires Valid()
      modifies this
      ensures Valid()
      ensures (State(), r) == UpdateStep(model, old(State()), id, objIn, commit)
    {
      var k := Locate("id", Int(id));
      if k.None? {
        return Ok(None);
      }
      var row := rows[k.value];
      var i := 0;
      while i < |objIn|
        invariant 0 <= i <= |objIn|
        invariant row == Patch(model.columns, rows[k.value], objIn[..i])
      {
        assert objIn[..i + 1][..i] == objIn[..i];
        if objIn[i].key in model.columns {
          row := row[objIn[i].key := objIn[i].value];
        }
        i := i + 1;
      }
      assert objIn[..|objIn|] == objIn;
      PatchShape(model.columns, rows[k.value], objIn);
      rows := rows[k.value := row];
      var res := Finish(commit);
      r := if res.Ok? then Ok(Some(row)) else Err(res.error);
    }

    /** `delete(id=..., commit_txn=...)`. */
    method Delete(id: int, commit: bool) returns (r: Result<Option<Row>, DbError>)
      requires Valid()
      modifies this
      ensures Valid()
      ensures (State(), r) == DeleteStep(model, old(State()), id, commit)
    {
      var k := Locate("id", Int(id));
      if k.None? {
        return Ok(None);
      }
      var gone := rows[k.value];
      rows := rows[..k.value] + rows[k.value + 1..];
      var res := Finish(commit);
      r := if res.Ok? then Ok(Some(gone)) else Err(res.error);
    }

    /** Writes back the record with id `id`, as mutated by the caller, and
        commits. */
    method Persist(id: int, row: Row) returns (r: Result<Option<Row>, DbError>)
      requires Valid() && Shaped(model, row)
      modifies this
      ensures Valid()
      ensures (State(), r) == PersistStep(model, old(State()), id, row)
    {
      var k := Locate("id", Int(id));
      if k.None? {
        return Ok(None);
      }
      rows := rows[k.value := row];
      var res := Finish(true);
      r := if res.Ok? then Ok(Some(row)) else Err(res.error);
    }
  }
}
