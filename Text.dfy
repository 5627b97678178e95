/** The small pieces of text handling the scripts rely on: Python's
    substring test, `int()` of a cell, and the pieces of the `parse`
    library's patterns (`{:d}` fields, literal text matched without regard
    to case, splitting at a separator). Only ASCII digits and ASCII case are
    modelled. */
module Text {
  import opened Tables

  predicate IsDigit(c: char)
  {
    '0' <= c <= '9'
  }

  predicate AllDigits(s: string)
  {
    forall k :: 0 <= k < |s| ==> IsDigit(s[k])
  }

  /** The decimal value of a string of digits. */
  function DigitsValue(s: string): nat
    requires AllDigits(s)
  {
    if s == [] then 0 else DigitsValue(s[..|s| - 1]) * 10 + (s[|s| - 1] as int - '0' as int)
  }

  function Digit(d: nat): (c: char)
    requires d < 10
    ensures IsDigit(c) && c as int - '0' as int == d
  {
    ('0' as int + d) as char
  }

  /** The canonical decimal text of a number (no leading zeros). */
  function ShowNat(n: nat): (s: string)
    ensures |s| >= 1 && AllDigits(s)
  {
    if n < 10 then [Digit(n)] else ShowNat(n / 10) + [Digit(n % 10)]
  }

  /** Reading back the canonical text of a number gives the number. */
  lemma {:induction false} ShowNatRoundTrip(n: nat)
    ensures DigitsValue(ShowNat(n)) == n
  {
    if n >= 10 {
      ShowNatRoundTrip(n / 10);
      var s := ShowNat(n);
      assert s[..|s| - 1] == ShowNat(n / 10);
    }
  }

  /** A leading zero does not change the value of a digit string. */
  lemma {:induction false} LeadingZero(s: string)
    requires AllDigits(s)
    ensures AllDigits("0" + s) && DigitsValue("0" + s) == DigitsValue(s)
  {
    if s != [] {
      var z := "0" + s;
      assert z[..|z| - 1] == "0" + s[..|s| - 1];
      LeadingZero(s[..|s| - 1]);
    }
  }

  /** A `{:d}` field of a `parse` pattern: a non-empty run of digits,
      read from the left. */
  function ParseNat(s: string): Option<nat>
  {
    if s == [] || !IsDigit(s[|s| - 1]) then None
    else
      var d := s[|s| - 1] as int - '0' as int;
      if |s| == 1 then Some(d)
      else match ParseNat(s[..|s| - 1])
        case None => None
        case Some(v) => Some(v * 10 + d)
  }

  /** The field matches exactly the non-empty runs of digits, and its
      value is their decimal value. */
  lemma {:induction false} ParseNatSpec(s: string)
    ensures ParseNat(s).Some? <==> |s| > 0 && AllDigits(s)
    ensures ParseNat(s).Some? ==> ParseNat(s).value == DigitsValue(s)
  {
    if |s| > 1 {
      var front := s[..|s| - 1];
      ParseNatSpec(front);
      if !AllDigits(front) {
        var k :| 0 <= k < |front| && !IsDigit(front[k]);
        assert s[k] == front[k];
      }
    } else if |s| == 1 {
      assert s[..0] == [];
    }
  }

  /** Python's `int()` of a cell: an optional sign and a non-empty run of
      digits. */
  function ParseInt(s: string): (r: Option<int>)
  {
    if |s| > 0 && s[0] == '-' then
      match ParseNat(s[1..])
      case Some(n) => Some(-(n as int))
      case None => None
    else if |s| > 0 && s[0] == '+' then
      match ParseNat(s[1..])
      case Some(n) => Some(n)
      case None => None
    else
      match ParseNat(s)
      case Some(n) => Some(n)
      case None => None
  }

  /** `int()` reads back the decimal text of every number, with either
      sign, and rejects the empty cell and any cell with a non-digit. */
  lemma ParseIntSpec(n: nat, s: string)
    ensures ParseInt(ShowNat(n)) == Some(n)
    ensures ParseInt("-" + ShowNat(n)) == Some(-(n as int))
    ensures ParseInt("+" + ShowNat(n)) == Some(n)
    ensures ParseInt(s).Some? ==> exists k :: 0 <= k < |s| && IsDigit(s[k])
    ensures (forall k :: 0 <= k < |s| ==> !IsDigit(s[k])) ==> ParseInt(s) == None
  {
    ShowNatRoundTrip(n);
    ParseNatSpec(ShowNat(n));
    assert ("-" + ShowNat(n))[1..] == ShowNat(n);
    assert ("+" + ShowNat(n))[1..] == ShowNat(n);
    if ParseInt(s).Some? {
      if |s| > 0 && (s[0] == '-' || s[0] == '+') {
        ParseNatSpec(s[1..]);
        assert IsDigit(s[1..][0]);
      } else {
        ParseNatSpec(s);
        assert IsDigit(s[0]);
      }
    }
  }

  /** `int()` accepts exactly a non-empty run of digits, optionally after
      one sign, and reads its value with that sign. */
  lemma ParseIntAccepts(s: string)
    ensures ParseInt(s).Some? <==>
      || (|s| > 0 && AllDigits(s))
      || (|s| > 1 && (s[0] == '-' || s[0] == '+') && AllDigits(s[1..]))
    ensures ParseInt(s).Some? ==>
      (&& |s| > 0
       && ParseInt(s).value == if s[0] == '-' then -(DigitsValue(s[1..]) as int)
                               else if s[0] == '+' then DigitsValue(s[1..]) as int
                               else DigitsValue(s) as int)
  {
    ParseNatSpec(s);
    if |s| > 0 {
      ParseNatSpec(s[1..]);
    }
  }

  /** Python's `sub in s` for strings. */
  predicate Contains(s: string, sub: string)
  {
    exists k :: 0 <= k <= |s| - |sub| && OccursAt(s, sub, k)
  }

  predicate OccursAt(s: string, sub: string, k: nat)
  {
    k + |sub| <= |s| && s[k..k + |sub|] == sub
  }

  /** A text that lacks one of the characters of `sub` does not contain
      `sub`. */
  lemma MissingCharNotContained(s: string, sub: string, c: char)
    requires c in sub && c !in s
    ensures !Contains(s, sub)
  {
  }

  function Lower(c: char): char
  {
    if 'A' <= c <= 'Z' then (c as int + 32) as char else c
  }

  /** Equality of texts when ASCII letter case is ignored, as `parse`
      compares the literal parts of its patterns. */
  predicate SameIgnoringCase(a: string, b: string)
  {
    |a| == |b| && forall k :: 0 <= k < |a| ==> Lower(a[k]) == Lower(b[k])
  }

  /** Splits at the first occurrence of `sep`. */
  function SplitOnce(s: string, sep: char): (r: Option<(string, string)>)
    ensures r.None? <==> sep !in s
    ensures r.Some? ==> sep !in r.value.0 && s == r.value.0 + [sep] + r.value.1
  {
    if s == [] then None
    else if s[0] == sep then Some(([], s[1..]))
    else match SplitOnce(s[1..], sep)
      case None => None
      case Some(p) => Some(([s[0]] + p.0, p.1))
  }

  /** Splitting text built around a separator that does not occur in its
      first part recovers both parts. */
  lemma {:induction false} SplitOnceOf(a: string, sep: char, b: string)
    requires sep !in a
    ensures SplitOnce(a + [sep] + b, sep) == Some((a, b))
  {
    var s := a + [sep] + b;
    if a != [] {
      assert s[0] == a[0] && a[0] != sep;
      assert s[1..] == a[1..] + [sep] + b;
      assert a == [a[0]] + a[1..];
      SplitOnceOf(a[1..], sep, b);
    }
  }
}
