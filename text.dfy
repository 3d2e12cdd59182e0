/** String operations the filter dispatch relies on: Python's `endswith`,
    `replace` and `str()`, and SQL's case-insensitive `ILIKE` pattern match. */
module Text {
  import opened Values

  function LowerChar(c: char): char
  {
    if 'A' <= c <= 'Z' then (c as int + 32) as char else c
  }

  /** ASCII lower-casing, the case folding ILIKE applies to both sides. */
  function Lower(s: string): (r: string)
    ensures |r| == |s|
    ensures forall i | 0 <= i < |s| :: r[i] == LowerChar(s[i])
  {
    seq(|s|, i requires 0 <= i < |s| => LowerChar(s[i]))
  }

  predicate EndsWith(s: string, suffix: string)
  {
    |suffix| <= |s| && s[|s| - |suffix|..] == suffix
  }

  /** `p` occurs in `t` starting at position `i`. */
  predicate OccursAt(p: string, t: string, i: int)
  {
    0 <= i <= |t| - |p| && t[i..i + |p|] == p
  }

  /** `p` occurs in `t` as a contiguous piece. */
  ghost predicate IsSubstring(p: string, t: string)
  {
    exists i :: OccursAt(p, t, i)
  }

  /** Python's `s.replace(pat, "")`: every non-overlapping occurrence of
      `pat`, scanning left to right, is dropped. */
  function RemoveAll(s: string, pat: string): (r: string)
    requires pat != []
    ensures |r| <= |s|
    decreases |s|
  {
    if |s| < |pat| then s
    else if s[..|pat|] == pat then RemoveAll(s[|pat|..], pat)
    else [s[0]] + RemoveAll(s[1..], pat)
  }

  /** SQL `t ILIKE p`: `%` matches any run of characters, `_` any single
      character, every other character itself up to ASCII case. */
  predicate LikeMatch(t: string, p: string)
    decreases |t| + |p|
  {
    if p == [] then t == []
    else if p[0] == '%' then LikeMatch(t, p[1..]) || (t != [] && LikeMatch(t[1..], p))
    else t != [] && (p[0] == '_' || LowerChar(t[0]) == LowerChar(p[0])) && LikeMatch(t[1..], p[1..])
  }

  predicate NoWildcards(s: string)
  {
    forall i | 0 <= i < |s| :: s[i] != '%' && s[i] != '_'
  }

  lemma {:induction false} PercentMatchesAll(t: string)
    ensures LikeMatch(t, "%")
  {
    if t != [] {
      PercentMatchesAll(t[1..]);
    } else {
      assert "%"[1..] == [];
    }
  }

  /** Without wildcards, `t ILIKE v || '%'` is a case-insensitive prefix test. */
  lemma {:induction false} PrefixMatch(t: string, v: string)
    requires NoWildcards(v)
    ensures LikeMatch(t, v + "%") <==> |v| <= |t| && Lower(t[..|v|]) == Lower(v)
  {
    if v == [] {
      PercentMatchesAll(t);
      assert v + "%" == "%";
    } else {
      var p := v + "%";
      assert p[0] == v[0] && p[0] != '%' && p[0] != '_';
      assert p[1..] == v[1..] + "%";
      assert NoWildcards(v[1..]);
      if t == [] {
      } else {
        PrefixMatch(t[1..], v[1..]);
        if |v| <= |t| {
          assert Lower(t[..|v|]) == [LowerChar(t[0])] + Lower(t[1..][..|v| - 1]);
          assert Lower(v) == [LowerChar(v[0])] + Lower(v[1..]);
        }
      }
    }
  }

  /** A leading `%` tries every suffix of the text. */
  lemma {:induction false} LeadingPercent(t: string, q: string)
    ensures LikeMatch(t, "%" + q) <==> exists k | 0 <= k <= |t| :: LikeMatch(t[k..], q)
  {
    var p := "%" + q;
    assert p[0] == '%' && p[1..] == q;
    if t == [] {
      assert t[0..] == t;
    } else {
      LeadingPercent(t[1..], q);
      if LikeMatch(t, p) {
        if LikeMatch(t, q) {
          assert t[0..] == t;
        } else {
          var k :| 0 <= k <= |t[1..]| && LikeMatch(t[1..][k..], q);
          assert t[1..][k..] == t[k + 1..];
        }
      }
      if exists k | 0 <= k <= |t| :: LikeMatch(t[k..], q) {
        var k :| 0 <= k <= |t| && LikeMatch(t[k..], q);
        if k == 0 {
          assert t[0..] == t;
        } else {
          assert t[1..][k - 1..] == t[k..];
        }
      }
    }
  }

  lemma LowerSlice(t: string, k: nat, n: nat)
    requires k + n <= |t|
    ensures Lower(t)[k..k + n] == Lower(t[k..][..n])
  {
  }

  /** The pattern the repository builds, `%value%`, is a case-insensitive
      substring test whenever the value carries no wildcard of its own. */
  lemma ContainsPattern(t: string, v: string)
    requires NoWildcards(v)
    ensures LikeMatch(t, "%" + v + "%") <==> IsSubstring(Lower(v), Lower(t))
  {
    assert "%" + v + "%" == "%" + (v + "%");
    LeadingPercent(t, v + "%");
    if LikeMatch(t, "%" + v + "%") {
      var k :| 0 <= k <= |t| && LikeMatch(t[k..], v + "%");
      MatchAtOccurs(t, v, k);
    }
    if IsSubstring(Lower(v), Lower(t)) {
      var k :| OccursAt(Lower(v), Lower(t), k);
      OccursMatchAt(t, v, k);
    }
  }

  lemma MatchAtOccurs(t: string, v: string, k: nat)
    requires NoWildcards(v) && k <= |t| && LikeMatch(t[k..], v + "%")
    ensures OccursAt(Lower(v), Lower(t), k)
  {
    PrefixMatch(t[k..], v);
    LowerSlice(t, k, |v|);
  }

  lemma OccursMatchAt(t: string, v: string, k: int)
    requires NoWildcards(v) && OccursAt(Lower(v), Lower(t), k)
    ensures 0 <= k <= |t| && LikeMatch(t[k..], v + "%")
  {
    PrefixMatch(t[k..], v);
    LowerSlice(t, k, |v|);
  }

  /** Wildcards in the value are not escaped: a filter value containing `_`
      matches text in which it does not occur literally. */
  lemma UnderscoreIsAWildcard()
    ensures LikeMatch("abc", "%a_c%")
    ensures !IsSubstring("a_c", "abc")
  {
    var t, p := "abc", "%a_c%";
    assert p[1..] == "a_c%" && p[1..][1..] == "_c%" && p[1..][1..][1..] == "c%";
    assert p[1..][1..][1..][1..] == "%";
    assert t[1..] == "bc" && t[1..][1..] == "c" && t[1..][1..][1..] == [];
    PercentMatchesAll([]);
    assert LikeMatch(t[1..][1..][1..], "%");
    assert LikeMatch(t[1..][1..], "c%");
    assert LikeMatch(t[1..], "_c%");
    assert LikeMatch(t, "a_c%");
    assert !IsSubstring("a_c", "abc") by {
      forall i ensures !OccursAt("a_c", "abc", i) {
        if 0 <= i <= 0 {
          assert "abc"[0..3][1] != "a_c"[1];
        }
      }
    }
  }

  function DigitChar(d: nat): (c: char)
    requires d < 10
    ensures '0' <= c <= '9'
  {
    ('0' as int + d) as char
  }

  predicate AllDigits(s: string)
  {
    forall i | 0 <= i < |s| :: '0' <= s[i] <= '9'
  }

  /** The number a string of decimal digits denotes, read left to right. */
  function DecimalValue(s: string): int
  {
    if s == [] then 0 else DecimalValue(s[..|s| - 1]) * 10 + (s[|s| - 1] as int - '0' as int)
  }

  /** Decimal digits, most significant first: the numeral reads back as `n`,
      and it has no leading zero. */
  function NatToString(n: nat): (r: string)
    ensures r != [] && AllDigits(r)
    ensures DecimalValue(r) == n
    ensures r[0] == '0' <==> n == 0
    decreases n
  {
    if n < 10 then [DigitChar(n)]
    else
      var front := NatToString(n / 10);
      var r := front + [DigitChar(n % 10)];
      assert r[..|r| - 1] == front;
      r
  }

  function IntToString(i: int): string
  {
    if i < 0 then "-" + NatToString(-i) else NatToString(i)
  }

  function Join(parts: seq<string>, sep: string): string
  {
    if parts == [] then ""
    else if |parts| == 1 then parts[0]
    else parts[0] + sep + Join(parts[1..], sep)
  }

  /** Python's `str(value)`, which an f-string splices into a pattern. */
  function PyStr(v: Value): (r: string)
    ensures v.Str? ==> r == v.s
    ensures v.Null? ==> r == "None"
    ensures v.Bool? ==> r == (if v.b then "True" else "False")
    ensures v.Int? ==> r != [] && (r[0] == '-' <==> v.i < 0)
    ensures v.Int? ==> var digits := if v.i < 0 then r[1..] else r;
      digits != [] && AllDigits(digits) && DecimalValue(digits) == (if v.i < 0 then -v.i else v.i)
    ensures v.List? ==> |r| >= 2 && r[0] == '[' && r[|r| - 1] == ']'
    ensures v.List? && v.elems == [] ==> r == "[]"
    ensures v.List? && |v.elems| == 1 ==> r == "[" + PyRepr(v.elems[0]) + "]"
    decreases v, 0
  {
    match v
    case Null => "None"
    case Bool(b) => if b then "True" else "False"
    case Int(i) => IntToString(i)
    case Str(s) => s
    case List(xs) => "[" + Join(seq(|xs|, k requires 0 <= k < |xs| => PyRepr(xs[k])), ", ") + "]"
  }

  /** Python's `repr(value)` for a list element (quote escaping left out). */
  function PyRepr(v: Value): string
    decreases v, 1
  {
    if v.Str? then "'" + v.s + "'" else PyStr(v)
  }
}
