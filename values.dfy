/** Values as the data-access layer sees them: Python's None, bool, int, str
    and list, Python dicts (insertion ordered), and a stored record as a map
    from attribute name to value. */
module Values {

  datatype Option<+T> = None | Some(value: T)

  datatype Result<+T, +E> = Ok(value: T) | Err(error: E)

  /** One column or filter value. */
  datatype Value = Null | Bool(b: bool) | Int(i: int) | Str(s: string) | List(elems: seq<Value>)

  /** Python truthiness of a value (`if value:`). */
  predicate Truthy(v: Value)
  {
    match v
    case Null => false
    case Bool(b) => b
    case Int(i) => i != 0
    case Str(s) => s != []
    case List(xs) => xs != []
  }

  /** A stored record: attribute name to value. */
  type Row = map<string, Value>

  /** One key/value pair of a Python dict. */
  datatype Entry = Entry(key: string, value: Value)

  /** A Python dict, as its entries in insertion order. */
  type Dict = seq<Entry>

  /** What every Python dict satisfies: no key occurs twice. */
  predicate DistinctKeys(d: Dict)
  {
    forall i, j | 0 <= i < j < |d| :: d[i].key != d[j].key
  }

  function Keys(d: Dict): set<string>
  {
    set e | e in d :: e.key
  }

  /** `d.get(k)`: the value stored under `k`, if any. */
  function Lookup(d: Dict, k: string): (r: Option<Value>)
    ensures r.None? <==> k !in Keys(d)
    ensures r.Some? ==> Entry(k, r.value) in d
  {
    if d == [] then None
    else if d[0].key == k then Some(d[0].value)
    else
      assert forall e | e in d[1..] :: e in d;
      assert forall e | e in d :: e == d[0] || e in d[1..];
      Lookup(d[1..], k)
  }

  /** `d[k] = v`: overwrites in place when `k` is present, appends otherwise. */
  function Put(d: Dict, k: string, v: Value): Dict
  {
    if d == [] then [Entry(k, v)]
    else if d[0].key == k then [Entry(k, v)] + d[1..]
    else [d[0]] + Put(d[1..], k, v)
  }

  /** `del d[k]` (a no-op here when `k` is absent). */
  function Remove(d: Dict, k: string): Dict
  {
    if d == [] then []
    else if d[0].key == k then d[1..]
    else [d[0]] + Remove(d[1..], k)
  }

  /** Splitting a dict into its first entry and the rest. */
  lemma SplitFirst(d: Dict)
    requires d != [] && DistinctKeys(d)
    ensures DistinctKeys(d[1..])
    ensures d[0].key !in Keys(d[1..])
    ensures Keys(d) == {d[0].key} + Keys(d[1..])
  {
    var t := d[1..];
    forall i, j | 0 <= i < j < |t| ensures t[i].key != t[j].key {
      assert t[i] == d[i + 1] && t[j] == d[j + 1];
    }
    forall e | e in t ensures e.key != d[0].key {
      var i :| 0 <= i < |t| && t[i] == e;
      assert d[i + 1] == e;
    }
    assert forall e | e in d :: e == d[0] || e in t;
  }

  /** Putting an entry in front of a dict that lacks its key. */
  lemma JoinFirst(e: Entry, t: Dict)
    requires DistinctKeys(t) && e.key !in Keys(t)
    ensures DistinctKeys([e] + t)
    ensures Keys([e] + t) == {e.key} + Keys(t)
  {
    var r := [e] + t;
    forall i, j | 0 <= i < j < |r| ensures r[i].key != r[j].key {
      assert r[j] == t[j - 1];
      if i == 0 {
        assert r[j] in t;
      } else {
        assert r[i] == t[i - 1];
      }
    }
    assert forall x | x in r :: x == e || x in t;
  }

  lemma {:induction false} PutLookup(d: Dict, k: string, v: Value, j: string)
    ensures Lookup(Put(d, k, v), j) == if j == k then Some(v) else Lookup(d, j)
  {
    if d != [] && d[0].key != k {
      PutLookup(d[1..], k, v, j);
    }
  }

  lemma {:induction false} PutKeys(d: Dict, k: string, v: Value)
    requires DistinctKeys(d)
    ensures DistinctKeys(Put(d, k, v))
    ensures Keys(Put(d, k, v)) == Keys(d) + {k}
  {
    if d == [] {
    } else {
      SplitFirst(d);
      if d[0].key == k {
        JoinFirst(Entry(k, v), d[1..]);
      } else {
        PutKeys(d[1..], k, v);
        JoinFirst(d[0], Put(d[1..], k, v));
      }
    }
  }

  lemma {:induction false} RemoveLookup(d: Dict, k: string, j: string)
    requires DistinctKeys(d)
    ensures Lookup(Remove(d, k), j) == if j == k then None else Lookup(d, j)
  {
    if d != [] {
      SplitFirst(d);
      if d[0].key != k {
        RemoveLookup(d[1..], k, j);
      }
    }
  }

  lemma {:induction false} RemoveKeys(d: Dict, k: string)
    requires DistinctKeys(d)
    ensures DistinctKeys(Remove(d, k))
    ensures Keys(Remove(d, k)) == Keys(d) - {k}
  {
    if d != [] {
      SplitFirst(d);
      if d[0].key != k {
        RemoveKeys(d[1..], k);
        JoinFirst(d[0], Remove(d[1..], k));
      }
    }
  }
}
