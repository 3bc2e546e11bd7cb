/** Splitting at a separator and joining again (`boost::split` without compression, `boost::join`),
    and runs of decimal digits. */
module Strings {

  function Split(s: string, sep: char): (parts: seq<string>)
    ensures |parts| >= 1
  {
    if s == "" then [""]
    else if s[0] == sep then [""] + Split(s[1..], sep)
    else var rest := Split(s[1..], sep); [[s[0]] + rest[0]] + rest[1..]
  }

  function Join(parts: seq<string>, sep: char): string {
    if parts == [] then ""
    else if |parts| == 1 then parts[0]
    else parts[0] + [sep] + Join(parts[1..], sep)
  }

  lemma Regroup(a: string, b: string, c: string, d: string)
    ensures a + (b + (c + d)) == a + b + c + d
  {
  }

  ghost predicate AllFree(parts: seq<string>, sep: char) {
    forall i | 0 <= i < |parts| :: sep !in parts[i]
  }

  lemma {:induction false} JoinSplit(s: string, sep: char)
    ensures Join(Split(s, sep), sep) == s
    ensures AllFree(Split(s, sep), sep)
  {
    if s != "" {
      JoinSplit(s[1..], sep);
      var rest := Split(s[1..], sep);
      if s[0] == sep {
        assert ([""] + rest)[1..] == rest;
      } else {
        assert ([[s[0]] + rest[0]] + rest[1..])[1..] == rest[1..];
      }
    }
  }

  lemma {:induction false} SplitFree(s: string, sep: char)
    requires sep !in s
    ensures Split(s, sep) == [s]
  {
    if s != "" {
      SplitFree(s[1..], sep);
      assert s == [s[0]] + s[1..];
    }
  }

  /** Splitting at a separator splits what is on either side of it. */
  lemma {:induction false} SplitAcross(a: string, b: string, sep: char)
    ensures Split(a + [sep] + b, sep) == Split(a, sep) + Split(b, sep)
  {
    if a == "" {
      assert "" + [sep] + b == [sep] + b;
      SplitCons(sep, b, sep);
    } else {
      SplitAcross(a[1..], b, sep);
      var t := a[1..] + [sep] + b;
      assert a + [sep] + b == [a[0]] + t && a == [a[0]] + a[1..];
      assert Split([a[0]] + t, sep) == Split([a[0]] + a[1..], sep) + Split(b, sep) by {
        SplitCons(a[0], a[1..], sep);
        SplitCons(a[0], t, sep);
        PrependAssoc(a[0], Split(a[1..], sep), Split(b, sep));
      }
    }
  }

  lemma PrependAssoc(c: char, p: seq<string>, q: seq<string>)
    requires p != []
    ensures [""] + (p + q) == [""] + p + q
    ensures [[c] + (p + q)[0]] + (p + q)[1..] == [[c] + p[0]] + p[1..] + q
  {
    assert (p + q)[1..] == p[1..] + q;
  }

  lemma SplitCons(c: char, s: string, sep: char)
    ensures Split([c] + s, sep) ==
            if c == sep then [""] + Split(s, sep) else [[c] + Split(s, sep)[0]] + Split(s, sep)[1..]
  {
    assert ([c] + s)[1..] == s;
  }

  /** The part before a first separator, then the parts of the rest. */
  lemma SplitAtSeparator(a: string, b: string, sep: char)
    requires sep !in a
    ensures Split(a + [sep] + b, sep) == [a] + Split(b, sep)
  {
    SplitAcross(a, b, sep);
    SplitFree(a, sep);
  }

  lemma {:induction false} SplitJoin(parts: seq<string>, sep: char)
    requires parts != [] && AllFree(parts, sep)
    ensures Split(Join(parts, sep), sep) == parts
  {
    if |parts| == 1 {
      SplitFree(parts[0], sep);
    } else {
      SplitJoin(parts[1..], sep);
      SplitAtSeparator(parts[0], Join(parts[1..], sep), sep);
    }
  }

  lemma {:induction false} JoinAppend(a: seq<string>, b: seq<string>, sep: char)
    requires a != [] && b != []
    ensures Join(a + b, sep) == Join(a, sep) + [sep] + Join(b, sep)
  {
    if |a| == 1 {
      assert (a + b)[1..] == b;
    } else {
      JoinAppend(a[1..], b, sep);
      assert (a + b)[1..] == a[1..] + b;
    }
  }

  /** A part of a joined list is a substring of the whole. */
  lemma {:induction false} JoinPiece(parts: seq<string>, k: nat, sep: char) returns (a: string, c: string)
    requires k < |parts|
    ensures Join(parts, sep) == a + parts[k] + c
  {
    if k == 0 {
      a, c := "", if |parts| == 1 then "" else [sep] + Join(parts[1..], sep);
      assert "" + parts[0] == parts[0] && parts[0] + "" == parts[0];
    } else {
      a, c := JoinPiece(parts[1..], k - 1, sep);
      a := parts[0] + [sep] + a;
    }
  }

  /** The last part of the one list and the first part of the other become one part. */
  function Glue(p: seq<string>, q: seq<string>): (r: seq<string>)
    requires p != [] && q != []
    ensures r != []
  {
    p[..|p| - 1] + [p[|p| - 1] + q[0]] + q[1..]
  }

  lemma GlueCons(x: string, p: seq<string>, q: seq<string>)
    requires p != [] && q != []
    ensures Glue([x] + p, q) == [x] + Glue(p, q)
  {
    assert ([x] + p)[..|p|] == [x] + p[..|p| - 1];
  }

  lemma GlueChar(c: char, p: seq<string>, q: seq<string>)
    requires p != [] && q != []
    ensures Glue([[c] + p[0]] + p[1..], q) == [[c] + Glue(p, q)[0]] + Glue(p, q)[1..]
  {
    if |p| == 1 {
      assert [[c] + p[0]] + p[1..] == [[c] + p[0]];
      assert [c] + p[0] + q[0] == [c] + (p[0] + q[0]);
    } else {
      assert p == [p[0]] + p[1..];
      GlueCons([c] + p[0], p[1..], q);
      GlueCons(p[0], p[1..], q);
    }
  }

  lemma {:induction false} SplitConcat(a: string, b: string, sep: char)
    ensures Split(a + b, sep) == Glue(Split(a, sep), Split(b, sep))
  {
    if a == "" {
      assert a + b == b;
      var q := Split(b, sep);
      assert "" + q[0] == q[0] && [q[0]] + q[1..] == q;
    } else {
      SplitConcat(a[1..], b, sep);
      assert (a + b)[1..] == a[1..] + b;
      var p, q := Split(a[1..], sep), Split(b, sep);
      if a[0] == sep { GlueCons("", p, q); } else { GlueChar(a[0], p, q); }
    }
  }

  // ---------------------------------------------------------------------------------------
  // Digits
  // ---------------------------------------------------------------------------------------

  predicate IsDigit(c: char) { '0' <= c <= '9' }

  predicate AllDigits(s: string) { forall k | 0 <= k < |s| :: IsDigit(s[k]) }

  /** The number of digits that a string starts with. */
  function DigitRun(s: string): (n: nat)
    ensures n <= |s| && AllDigits(s[..n])
    ensures n < |s| ==> !IsDigit(s[n])
  {
    if s != "" && IsDigit(s[0]) then 1 + DigitRun(s[1..]) else 0
  }

  lemma {:induction false} DigitRunIs(d: string, rest: string)
    requires AllDigits(d) && (rest != "" ==> !IsDigit(rest[0]))
    ensures DigitRun(d + rest) == |d|
  {
    if d == "" {
      assert d + rest == rest;
    } else {
      DigitRunIs(d[1..], rest);
      assert (d + rest)[1..] == d[1..] + rest;
    }
  }

  function DigitsValue(s: string): nat
    requires AllDigits(s)
  {
    if s == "" then 0 else 10 * DigitsValue(s[..|s| - 1]) + (s[|s| - 1] as int - '0' as int)
  }
}
