/** The query `get_multi` builds: one WHERE clause per applicable filter
    entry, all of them conjoined, then OFFSET/LIMIT over the matches in
    insertion order, plus the count of the matches before paging. */
module Filters {
  import opened Values
  import opened Text
  import opened Schema

  /** One WHERE clause. */
  datatype Condition =
    | ILike(field: string, pattern: string)
    | Equals(field: string, value: Value)
    | AnyOf(field: string, values: seq<Value>)

  const ContainsSuffix: string := "_contains"

  /** The clause one filter entry contributes, None when it contributes none.
      The attribute test is made on the whole key first; only then does a
      key ending in `_contains` with a truthy value become a pattern match on
      the attribute named by the key with every `_contains` removed. */
  function EntryCondition(columns: set<string>, e: Entry): (r: Option<Condition>)
    ensures r.Some? ==> e.key in columns && e.value != Null
    ensures r.Some? && r.value.ILike? ==>
              && EndsWith(e.key, ContainsSuffix) && Truthy(e.value)
              && r.value.field == RemoveAll(e.key, ContainsSuffix) && r.value.field in columns
    ensures r.Some? && !r.value.ILike? ==> r.value.field == e.key
    ensures r.Some? && r.value.AnyOf? ==> e.value == List(r.value.values)
    ensures r.Some? && r.value.Equals? ==> r.value.value == e.value
  {
    if e.key in columns && e.value != Null then
      if EndsWith(e.key, ContainsSuffix) && Truthy(e.value) then
        var name := RemoveAll(e.key, ContainsSuffix);
        if name in columns then Some(ILike(name, "%" + PyStr(e.value) + "%")) else None
      else if e.value.Bool? then Some(Equals(e.key, e.value))
      else if e.value.List? then Some(AnyOf(e.key, e.value.elems))
      else Some(Equals(e.key, e.value))
    else None
  }

  /** The clauses of a whole filter dict, in its order. */
  function Conditions(columns: set<string>, filters: Dict): (cs: seq<Condition>)
    ensures |cs| <= |filters|
  {
    if filters == [] then []
    else
      var init := Conditions(columns, filters[..|filters| - 1]);
      match EntryCondition(columns, filters[|filters| - 1])
      case None => init
      case Some(c) => init + [c]
  }

  /** Whether a stored record satisfies one clause under SQL semantics: a
      NULL column satisfies neither `=`, `IN` nor `ILIKE`. */
  predicate Holds(row: Row, c: Condition)
    ensures Holds(row, c) ==> Attr(row, c.field) != Null
  {
    var v := Attr(row, c.field);
    match c
    case ILike(_, p) => v.Str? && LikeMatch(v.s, p)
    case Equals(_, w) => v != Null && v == w
    case AnyOf(_, ws) => v != Null && v in ws
  }

  predicate MatchesAll(row: Row, cs: seq<Condition>)
  {
    forall i | 0 <= i < |cs| :: Holds(row, cs[i])
  }

  /** The meaning of one filter entry for one record. */
  predicate EntryHolds(columns: set<string>, row: Row, e: Entry)
  {
    match EntryCondition(columns, e)
    case None => true
    case Some(c) => Holds(row, c)
  }

  /** The matching records, in insertion order. */
  function Select(rows: seq<Row>, cs: seq<Condition>): (r: seq<Row>)
    ensures |r| <= |rows|
    ensures forall x :: x in r <==> x in rows && MatchesAll(x, cs)
  {
    if rows == [] then []
    else
      var init := Select(rows[..|rows| - 1], cs);
      var last := rows[|rows| - 1];
      assert forall x :: x in rows <==> x in rows[..|rows| - 1] || x == last;
      if MatchesAll(last, cs) then init + [last] else init
  }

  /** OFFSET skip LIMIT limit. */
  function Page(s: seq<Row>, skip: nat, limit: nat): (r: seq<Row>)
    ensures |r| <= limit
    ensures |r| == if skip >= |s| then 0 else if |s| - skip < limit then |s| - skip else limit
    ensures forall i | 0 <= i < |r| :: r[i] == s[skip + i]
  {
    var lo := if skip < |s| then skip else |s|;
    var hi := if skip + limit < |s| then skip + limit else |s|;
    s[lo..hi]
  }

  /** Filter entries are conjunctive: a record matches the query exactly
      when it satisfies every entry of the dict. */
  lemma {:induction false} Conjunctive(columns: set<string>, filters: Dict, row: Row)
    ensures MatchesAll(row, Conditions(columns, filters))
        <==> forall i | 0 <= i < |filters| :: EntryHolds(columns, row, filters[i])
  {
    if filters != [] {
      var init := filters[..|filters| - 1];
      var last := filters[|filters| - 1];
      Conjunctive(columns, init, row);
      EntriesSnoc(columns, row, filters, init);
      ConditionsSnoc(columns, filters);
      var ec := EntryCondition(columns, last);
      if ec.Some? {
        MatchesAllSnoc(row, Conditions(columns, init), ec.value);
      }
    }
  }

  /** The clauses of a non-empty dict: those of all but its last entry, then
      the last entry's clause if it has one. */
  lemma ConditionsSnoc(columns: set<string>, filters: Dict)
    requires filters != []
    ensures var ec := EntryCondition(columns, filters[|filters| - 1]);
      Conditions(columns, filters)
        == Conditions(columns, filters[..|filters| - 1]) + (if ec.Some? then [ec.value] else [])
  {
  }

  /** Every entry of a non-empty dict holds exactly when every entry but the
      last holds and the last one does. */
  lemma EntriesSnoc(columns: set<string>, row: Row, filters: Dict, init: Dict)
    requires filters != [] && init == filters[..|filters| - 1]
    ensures (forall i | 0 <= i < |filters| :: EntryHolds(columns, row, filters[i]))
        <==> (forall i | 0 <= i < |init| :: EntryHolds(columns, row, init[i]))
             && EntryHolds(columns, row, filters[|filters| - 1])
  {
    assert forall i | 0 <= i < |init| :: init[i] == filters[i];
  }

  /** Matching one more clause is matching the earlier ones and that one. */
  lemma MatchesAllSnoc(row: Row, cs: seq<Condition>, c: Condition)
    ensures MatchesAll(row, cs + [c]) <==> MatchesAll(row, cs) && Holds(row, c)
  {
    assert (cs + [c])[|cs|] == c;
    assert forall i | 0 <= i < |cs| :: (cs + [c])[i] == cs[i];
  }

  /** The dispatch, rule by rule, for an entry whose key is an attribute and
      whose value is not None (any other entry is skipped). */
  lemma Dispatch(columns: set<string>, row: Row, e: Entry)
    ensures e.key !in columns || e.value == Null ==> EntryCondition(columns, e).None?
    ensures e.key in columns && EndsWith(e.key, ContainsSuffix) && e.value.Str? && e.value.s != []
              && NoWildcards(e.value.s) ==>
              var name := RemoveAll(e.key, ContainsSuffix);
              EntryHolds(columns, row, e) <==>
                (name in columns ==> Attr(row, name).Str? && IsSubstring(Lower(e.value.s), Lower(Attr(row, name).s)))
    ensures e.key in columns && e.value.Bool? && !(EndsWith(e.key, ContainsSuffix) && e.value.b) ==>
              (EntryHolds(columns, row, e) <==> Attr(row, e.key) == e.value)
    ensures e.key in columns && e.value.List? && !(EndsWith(e.key, ContainsSuffix) && e.value.elems != []) ==>
              (EntryHolds(columns, row, e) <==> Attr(row, e.key) != Null && Attr(row, e.key) in e.value.elems)
    ensures e.key in columns && (e.value.Int? || e.value.Str?) && !(EndsWith(e.key, ContainsSuffix) && Truthy(e.value)) ==>
              (EntryHolds(columns, row, e) <==> Attr(row, e.key) == e.value)
  {
    if e.key in columns && EndsWith(e.key, ContainsSuffix) && e.value.Str? && e.value.s != [] && NoWildcards(e.value.s) {
      var name := RemoveAll(e.key, ContainsSuffix);
      if name in columns && Attr(row, name).Str? {
        ContainsPattern(Attr(row, name).s, e.value.s);
      }
    }
  }

  /** Removing the suffix from `x + "_contains"` gives back `x` when no
      other occurrence starts inside `x`. */
  lemma {:induction false} RemoveSuffix(x: string)
    requires forall i | 0 <= i < |x| :: !OccursAt(ContainsSuffix, x + ContainsSuffix, i)
    ensures RemoveAll(x + ContainsSuffix, ContainsSuffix) == x
  {
    var p := ContainsSuffix;
    var s := x + p;
    if x == [] {
      assert s == p && s[..|p|] == p && s[|p|..] == [];
    } else {
      assert s[..|p|] != p by {
        assert !OccursAt(p, s, 0);
        assert s[..|p|] == s[0..0 + |p|];
      }
      assert RemoveAll(s, p) == [s[0]] + RemoveAll(s[1..], p);
      assert s[1..] == x[1..] + p;
      assert s[0] == x[0];
      TailNoOccurrence(x);
      RemoveSuffix(x[1..]);
      assert x == [x[0]] + x[1..];
    }
  }

  lemma TailNoOccurrence(x: string)
    requires x != []
    requires forall i | 0 <= i < |x| :: !OccursAt(ContainsSuffix, x + ContainsSuffix, i)
    ensures forall i | 0 <= i < |x[1..]| :: !OccursAt(ContainsSuffix, x[1..] + ContainsSuffix, i)
  {
    var p := ContainsSuffix;
    forall i | 0 <= i < |x[1..]| ensures !OccursAt(p, x[1..] + p, i) {
      assert !OccursAt(p, x + p, i + 1);
      assert (x[1..] + p)[i..i + |p|] == (x + p)[i + 1..i + 1 + |p|];
    }
  }

  /** An illustration of RemoveSuffix on the key the repository tests use
      for e-mail searches: it names the attribute `email`. */
  lemma ContainsKeyName()
    ensures RemoveAll("email_contains", ContainsSuffix) == "email"
  {
    var x := "email";
    var s := x + ContainsSuffix;
    forall i | 0 <= i < |x| ensures !OccursAt(ContainsSuffix, s, i) {
      assert s[i] != '_';
      if i <= |s| - |ContainsSuffix| {
        assert s[i..i + |ContainsSuffix|][0] == s[i];
      }
    }
    RemoveSuffix(x);
    assert s == "email_contains";
  }

  lemma {:induction false} SelectAll(rows: seq<Row>)
    ensures Select(rows, []) == rows
  {
    if rows != [] {
      SelectAll(rows[..|rows| - 1]);
      assert rows[..|rows| - 1] + [rows[|rows| - 1]] == rows;
    }
  }

  /** The number of matches, the `total` of `get_multi`, counted by
      position: every matching record counts, repeated records included. */
  lemma {:induction false} SelectCount(rows: seq<Row>, cs: seq<Condition>)
    ensures |Select(rows, cs)| == |MatchPositions(rows, cs, |rows|)|
  {
    if rows != [] {
      var n := |rows| - 1;
      SelectCount(rows[..n], cs);
      MatchPositionsPrefix(rows, cs, n);
      MatchPositionsStep(rows, cs, n);
    }
  }

  lemma MatchPositionsStep(rows: seq<Row>, cs: seq<Condition>, n: nat)
    requires n < |rows|
    ensures |MatchPositions(rows, cs, n + 1)| ==
            |MatchPositions(rows, cs, n)| + if MatchesAll(rows[n], cs) then 1 else 0
  {
    var before := MatchPositions(rows, cs, n);
    assert n !in before;
    if MatchesAll(rows[n], cs) {
      assert MatchPositions(rows, cs, n + 1) == before + {n};
    } else {
      assert MatchPositions(rows, cs, n + 1) == before;
    }
  }

  /** The positions below `n` whose records match. */
  function MatchPositions(rows: seq<Row>, cs: seq<Condition>, n: nat): set<nat>
    requires n <= |rows|
  {
    set i: nat | i < n && MatchesAll(rows[i], cs)
  }

  lemma MatchPositionsPrefix(rows: seq<Row>, cs: seq<Condition>, n: nat)
    requires n <= |rows|
    ensures MatchPositions(rows[..n], cs, n) == MatchPositions(rows, cs, n)
  {
    assert forall i | 0 <= i < n :: rows[..n][i] == rows[i];
  }

  /** Selection keeps the order of the records: the matches are the
      records at strictly increasing positions. */
  lemma {:induction false} SelectInOrder(rows: seq<Row>, cs: seq<Condition>)
    ensures exists pos: seq<nat> :: InOrderAt(rows, Select(rows, cs), pos)
  {
    if rows != [] {
      var n := |rows| - 1;
      var init := rows[..n];
      SelectInOrder(init, cs);
      var pos: seq<nat> :| InOrderAt(init, Select(init, cs), pos);
      if MatchesAll(rows[n], cs) {
        var pos' := pos + [n];
        assert InOrderAt(rows, Select(rows, cs), pos') by {
          assert Select(rows, cs) == Select(init, cs) + [rows[n]];
          forall k | 0 <= k < |pos'|
            ensures pos'[k] < |rows| && rows[pos'[k]] == Select(rows, cs)[k]
          {
            if k < |pos| {
              assert pos'[k] == pos[k] && rows[pos[k]] == init[pos[k]];
            }
          }
        }
      } else {
        assert InOrderAt(rows, Select(rows, cs), pos) by {
          forall k | 0 <= k < |pos| ensures rows[pos[k]] == init[pos[k]] {
          }
        }
      }
    } else {
      assert InOrderAt(rows, Select(rows, cs), []);
    }
  }

  /** `sub` is the records of `rows` at the strictly increasing positions
      `pos`. */
  predicate InOrderAt(rows: seq<Row>, sub: seq<Row>, pos: seq<nat>)
  {
    && |pos| == |sub|
    && (forall k | 0 <= k < |pos| :: pos[k] < |rows| && rows[pos[k]] == sub[k])
    && (forall k, l | 0 <= k < l < |pos| :: pos[k] < pos[l])
  }

  /** Selecting keeps records apart: matches of distinct-id records have
      distinct ids. */
  lemma {:induction false} SelectDistinctIds(rows: seq<Row>, cs: seq<Condition>)
    requires DistinctIds(rows)
    ensures DistinctIds(Select(rows, cs))
  {
    if rows != [] {
      var init := rows[..|rows| - 1];
      var last := rows[|rows| - 1];
      assert DistinctIds(init);
      SelectDistinctIds(init, cs);
      var s := Select(init, cs);
      if MatchesAll(last, cs) {
        var r := s + [last];
        forall i, j | 0 <= i < j < |r| ensures IdOf(r[i]) != IdOf(r[j]) {
          if j == |s| {
            assert r[i] in init;
            var k :| 0 <= k < |init| && init[k] == r[i];
            assert rows[k] == r[i] && rows[|rows| - 1] == last;
          } else {
            assert r[i] == s[i] && r[j] == s[j];
          }
        }
      }
    }
  }

  /** Consecutive pages of one result are disjoint: no id shows up on both
      `(skip, limit)` and `(skip + limit, limit2)`. */
  lemma ConsecutivePagesDisjoint(rows: seq<Row>, cs: seq<Condition>, skip: nat, limit: nat, limit2: nat)
    requires DistinctIds(rows)
    ensures forall x, y | x in Page(Select(rows, cs), skip, limit) && y in Page(Select(rows, cs), skip + limit, limit2) ::
              IdOf(x) != IdOf(y)
  {
    var s := Select(rows, cs);
    SelectDistinctIds(rows, cs);
    var p1, p2 := Page(s, skip, limit), Page(s, skip + limit, limit2);
    forall x, y | x in p1 && y in p2 ensures IdOf(x) != IdOf(y) {
      var i :| 0 <= i < |p1| && p1[i] == x;
      var j :| 0 <= j < |p2| && p2[j] == y;
      assert x == s[skip + i] && y == s[skip + limit + j];
    }
  }
}
