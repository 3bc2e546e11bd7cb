/** The third pass of natural-order comparison (util.cpp): two fused token lists are compared
    position by position, numerals up to an epsilon.  A positive result means that the first
    string sorts before the second one. */
module NaturalCompare {
  import opened Wrappers
  import opened Strings
  import opened NaturalTokens

  // ---------------------------------------------------------------------------------------
  // Numerals
  // ---------------------------------------------------------------------------------------

  function Pow10(n: nat): (p: nat)
    ensures p > 0
  {
    if n == 0 then 1 else 10 * Pow10(n - 1)
  }

  function Dot(s: string): (d: nat)
    ensures d <= |s| && forall k | 0 <= k < d :: s[k] != '.'
    ensures d < |s| ==> s[d] == '.'
  {
    if s != "" && s[0] != '.' then 1 + Dot(s[1..]) else 0
  }

  /** The number of digits after the decimal point. */
  function FractionLength(s: string): nat {
    if Dot(s) < |s| then |s| - Dot(s) - 1 else 0
  }

  /** The digits with the decimal point left out. */
  function Significand(s: string): string {
    if Dot(s) < |s| then s[..Dot(s)] + s[Dot(s) + 1..] else s
  }

  /** `lexical_cast<double>` on tokens, as the exact decimal value; None is bad_lexical_cast. */
  function LexicalCast(s: string): Option<real> {
    var digits := Significand(s);
    if s == "" || Dot(s) == 0 || (Dot(s) < |s| && FractionLength(s) == 0) then None
    else if AllDigits(digits) then
      Some(DigitsValue(digits) as real / Pow10(FractionLength(s)) as real)
    else None
  }

  const EPS: real := 0.0000000001

  function Abs(x: real): real { if x < 0.0 then -x else x }

  lemma {:induction false} DotUnique(s: string, d: nat)
    requires d <= |s| && (forall k | 0 <= k < d :: s[k] != '.') && (d < |s| ==> s[d] == '.')
    ensures Dot(s) == d
  {
    if d > 0 { DotUnique(s[1..], d - 1); }
  }

  lemma DecimalParts(s: string, d: string, f: string)
    requires IsDecimal(s, d, f)
    ensures Dot(s) == |d| && FractionLength(s) == |f| && Significand(s) == d + f
  {
    assert s[|d|] == '.' && s[..|d|] == d && s[|d| + 1..] == f;
    DotUnique(s, |d|);
  }

  /** The cast succeeds on every numeral, so the catch branch is never taken. */
  lemma NumeralCasts(s: string)
    requires IsNumeral(s)
    ensures LexicalCast(s).Some?
  {
    if AllDigits(s) {
      DotUnique(s, |s|);
    } else {
      var d, f :| IsDecimal(s, d, f);
      DecimalParts(s, d, f);
    }
  }

  lemma {:induction false} Pow10Add(m: nat, n: nat)
    ensures Pow10(m + n) == Pow10(m) * Pow10(n)
  {
    if m > 0 {
      Pow10Add(m - 1, n);
      assert Pow10(m + n) == 10 * Pow10(m - 1 + n);
    }
  }

  const TEN_TO_TEN: int := 10000000000

  lemma Pow10Ten()
    ensures Pow10(10) == TEN_TO_TEN
  {
    assert Pow10(5) == 100000;
    Pow10Add(5, 5);
  }

  /** With at most ten fractional digits the value is a multiple of 10^-10. */
  lemma ScaledValue(s: string) returns (n: int)
    requires LexicalCast(s).Some? && FractionLength(s) <= 10
    ensures LexicalCast(s).value == n as real / TEN_TO_TEN as real
  {
    var f, v := FractionLength(s), DigitsValue(Significand(s));
    n := v * Pow10(10 - f);
    Pow10Add(f, 10 - f);
    Pow10Ten();
  }

  /** Up to ten fractional digits, the epsilon test is equality of values. */
  lemma EpsilonIsEquality(a: string, b: string)
    requires LexicalCast(a).Some? && FractionLength(a) <= 10
    requires LexicalCast(b).Some? && FractionLength(b) <= 10
    ensures Abs(LexicalCast(a).value - LexicalCast(b).value) < EPS <==> LexicalCast(a).value == LexicalCast(b).value
  {
    var m := ScaledValue(a);
    var n := ScaledValue(b);
    if m != n { assert m - n >= 1 || n - m >= 1; }
  }

  // ---------------------------------------------------------------------------------------
  // Comparing tokens
  // ---------------------------------------------------------------------------------------

  predicate LexLess(a: string, b: string) {
    b != "" && (a == "" || a[0] < b[0] || (a[0] == b[0] && LexLess(a[1..], b[1..])))
  }

  function CompareText(a: string, b: string): int {
    if a == b then 0 else if LexLess(a, b) then 1 else -1
  }

  function CompareToken(a: string, b: string, text: bool): int {
    if a == "" && b == "" then 0
    else if a == "" || b == "" then (if |a| < |b| then 1 else -1)
    else if !text && LexicalCast(a).Some? && LexicalCast(b).Some? then
      var x, y := LexicalCast(a).value, LexicalCast(b).value;
      if Abs(x - y) < EPS then 0 else if x < y then 1 else -1
    else CompareText(a, b)
  }

  lemma {:induction false} LexTrichotomy(a: string, b: string)
    ensures !LexLess(a, a)
    ensures a != b ==> LexLess(a, b) != LexLess(b, a)
  {
    if a != "" {
      LexTrichotomy(a[1..], if b == "" then "" else b[1..]);
      if b != "" && a[0] == b[0] && a[1..] == b[1..] { assert a == [a[0]] + a[1..] && b == [b[0]] + b[1..]; }
    }
  }

  lemma {:induction false} LexTransitive(a: string, b: string, c: string)
    requires LexLess(a, b) && LexLess(b, c)
    ensures LexLess(a, c)
  {
    if a != "" && a[0] == b[0] && b[0] == c[0] { LexTransitive(a[1..], b[1..], c[1..]); }
  }

  /** How two comparison results chain: the third is no descent, and a tie only if both are. */
  ghost predicate Chains(xy: int, yz: int, xz: int) {
    xy >= 0 && yz >= 0 ==> xz >= 0 && (xz == 0 <==> xy == 0 && yz == 0)
  }

  lemma CompareTextChains(a: string, b: string, c: string)
    ensures Chains(CompareText(a, b), CompareText(b, c), CompareText(a, c))
    ensures CompareText(a, b) == -CompareText(b, a)
  {
    LexTrichotomy(a, b);
    LexTrichotomy(a, c);
    if LexLess(a, b) && LexLess(b, c) { LexTransitive(a, b, c); }
  }

  ghost predicate Castable(t: string, digits: nat) {
    t != "" ==> LexicalCast(t).Some? && FractionLength(t) <= digits
  }

  lemma CompareTokenChains(a: string, b: string, c: string, text: bool)
    requires !text ==> Castable(a, 10) && Castable(b, 10) && Castable(c, 10)
    ensures Chains(CompareToken(a, b, text), CompareToken(b, c, text), CompareToken(a, c, text))
  {
    if a != "" && b != "" && c != "" {
      if text {
        CompareTextChains(a, b, c);
      } else {
        EpsilonIsEquality(a, b);
        EpsilonIsEquality(b, c);
        EpsilonIsEquality(a, c);
      }
    }
  }

  // ---------------------------------------------------------------------------------------
  // Comparing strings
  // ---------------------------------------------------------------------------------------

  function ComparePieces(a: seq<string>, b: seq<string>, text: bool): int {
    if a == [] || b == [] then (if |a| == |b| then 0 else if |a| < |b| then 1 else -1)
    else if CompareToken(a[0], b[0], text) != 0 then CompareToken(a[0], b[0], text)
    else ComparePieces(a[1..], b[1..], !text)
  }

  function Compare(s1: string, s2: string): int { ComparePieces(Pieces(s1), Pieces(s2), true) }

  lemma CompareStep(a: seq<string>, b: seq<string>, i: nat, text: bool)
    requires i < |a| && i < |b|
    ensures ComparePieces(a[i..], b[i..], text) ==
            if CompareToken(a[i], b[i], text) != 0 then CompareToken(a[i], b[i], text)
            else ComparePieces(a[i + 1..], b[i + 1..], !text)
  {
    assert a[i..][1..] == a[i + 1..] && b[i..][1..] == b[i + 1..];
  }

  /** What is asked of two words, two numbers and the empty string, whatever the tokens are. */
  method StrCompareNat(s1: string, s2: string) returns (r: int)
    ensures r == Compare(s1, s2) && -1 <= r <= 1
    ensures IsWord(s1) && IsWord(s2) ==> (r == 1 <==> WordBefore(s1, s2)) && (r == 0 <==> s1 == s2)
    ensures IsNumber(s1) && IsNumber(s2) ==> (r == 1 <==> DigitsValue(s1) < DigitsValue(s2)) && (r == 0 <==> DigitsValue(s1) == DigitsValue(s2))
    ensures s1 == "" && s2 != "" ==> r == 1
  {
    var tok1 := TokenizeString(s1);
    var comp1 := MergeFloats(tok1);
    var tok2 := TokenizeString(s2);
    var comp2 := MergeFloats(tok2);
    r := CompareFused(comp1, comp2);
    CompareMeaning(s1, s2);
  }

  /** The loop over the fused tokens. */
  method CompareFused(comp1: seq<string>, comp2: seq<string>) returns (r: int)
    ensures r == ComparePieces(comp1, comp2, true)
  {
    var l1, l2 := |comp1|, |comp2|;
    var compLen := if l1 < l2 then l1 else l2;
    var mstr, i := false, 0;
    assert comp1[0..] == comp1 && comp2[0..] == comp2;
    while i < compLen
      invariant 0 <= i <= compLen
      invariant ComparePieces(comp1[i..], comp2[i..], !mstr) == ComparePieces(comp1, comp2, true)
    {
      mstr := !mstr;
      var stok1, stok2 := comp1[i], comp2[i];
      CompareStep(comp1, comp2, i, mstr);
      i := i + 1;
      var slen1, slen2 := |stok1|, |stok2|;
      if slen1 == slen2 && slen1 == 0 { continue; }
      if slen1 == 0 || slen2 == 0 {
        return if slen1 < slen2 then 1 else -1;
      }
      if !mstr {
        var d1, d2 := LexicalCast(stok1), LexicalCast(stok2);
        if d1.Some? && d2.Some? {
          if Abs(d1.value - d2.value) < EPS { continue; }
          return if d1.value < d2.value then 1 else -1;
        }
      }
      if stok1 == stok2 { continue; }
      return if LexLess(stok1, stok2) then 1 else -1;
    }
    if l1 == l2 { return 0; }
    return if l1 < l2 then 1 else -1;
  }

  // ---------------------------------------------------------------------------------------
  // What the comparison means
  // ---------------------------------------------------------------------------------------

  ghost predicate IsWord(s: string) { s != "" && forall k | 0 <= k < |s| :: !('0' <= s[k] <= '9') }

  ghost predicate IsNumber(s: string) { s != "" && AllDigits(s) }

  /** Dictionary order: after k common characters, `a` ends or has the smaller character. */
  ghost predicate BeforeAt(a: string, b: string, k: nat) {
    k <= |a| && k < |b| && a[..k] == b[..k] && (k < |a| ==> a[k] < b[k])
  }

  ghost predicate WordBefore(a: string, b: string) { exists k: nat :: BeforeAt(a, b, k) }

  lemma BeforeTail(a: string, b: string, k: nat)
    requires a != "" && b != "" && a[0] == b[0]
    ensures BeforeAt(a[1..], b[1..], k) <==> BeforeAt(a, b, k + 1)
  {
    if k < |a| && k < |b| {
      assert a[..k + 1] == [a[0]] + a[1..][..k] && b[..k + 1] == [b[0]] + b[1..][..k];
      assert a[..k + 1][1..] == a[1..][..k] && b[..k + 1][1..] == b[1..][..k];
    }
  }

  lemma {:induction false} LexLessMeaning(a: string, b: string)
    ensures LexLess(a, b) <==> WordBefore(a, b)
  {
    if a == "" {
      if b != "" { assert BeforeAt(a, b, 0); }
    } else if b != "" {
      LexLessMeaning(a[1..], b[1..]);
      if LexLess(a, b) {
        if a[0] < b[0] {
          assert BeforeAt(a, b, 0);
        } else {
          var k: nat :| BeforeAt(a[1..], b[1..], k);
          BeforeTail(a, b, k);
        }
      }
      if k: nat :| BeforeAt(a, b, k) {
        if k > 0 {
          assert a[..k][0] == b[..k][0];
          BeforeTail(a, b, k - 1);
        }
      }
    }
  }

  lemma WordPieces(w: string, n: string)
    requires IsWord(w) && AllDigits(n)
    ensures Pieces(w + n) == if n == "" then [w, ""] else [w, n, ""]
  {
    var ts := if n == "" then [w, ""] else [w, n, ""];
    assert n != "" ==> ts == [w] + ([n] + ([""] + []));
    ConcatTriple(w, n, "", []);
    if n == "" {
      ConcatCons(w, [""]);
      assert ts == [w] + [""];
    }
    TokenizationUnique(w + n, ts, true, false);
    if n != "" { MergeTwo(w, n); }
  }

  lemma MergeTwo(w: string, n: string)
    requires AllDigits(n)
    ensures Merge([w, n, ""]) == [w, n, ""]
  {
    var ts := [w, n, ""];
    assert ts[0..] == ts && ts[1..] == [n, ""];
    MergeStep(ts, 0);
  }

  lemma NumberPieces(n: string)
    requires IsNumber(n)
    ensures Pieces(n) == ["", n, ""]
  {
    var ts := ["", n, ""];
    assert ts == [""] + ([n] + ([""] + []));
    ConcatTriple("", n, "", []);
    assert "" + n + "" + "" == n;
    TokenizationUnique(n, ts, true, false);
    MergeTwo("", n);
  }

  lemma NumberCast(n: string)
    requires IsNumber(n)
    ensures LexicalCast(n) == Some(DigitsValue(n) as real)
  {
    DotUnique(n, |n|);
    assert Significand(n) == n && FractionLength(n) == 0;
    assert Pow10(0) == 1;
    assert DigitsValue(n) as real / 1.0 == DigitsValue(n) as real;
  }

  lemma CompareTwo(a: seq<string>, b: seq<string>)
    requires |a| == |b| == 2 && a[1] == b[1] == ""
    ensures ComparePieces(a, b, true) == CompareToken(a[0], b[0], true)
  {
    assert a[0..] == a && b[0..] == b && a[2..] == [] && b[2..] == [];
    CompareStep(a, b, 0, true);
    CompareStep(a, b, 1, false);
  }

  lemma CompareThree(a: seq<string>, b: seq<string>)
    requires |a| == |b| == 3 && a[2] == b[2] == ""
    ensures ComparePieces(a, b, true) ==
            if CompareToken(a[0], b[0], true) != 0 then CompareToken(a[0], b[0], true) else CompareToken(a[1], b[1], false)
  {
    assert a[0..] == a && b[0..] == b && a[3..] == [] && b[3..] == [];
    CompareStep(a, b, 0, true);
    CompareStep(a, b, 1, false);
    CompareStep(a, b, 2, true);
  }

  lemma CompareNumbers(m: string, n: string)
    requires IsNumber(m) && IsNumber(n)
    ensures CompareToken(m, n, false) ==
            if DigitsValue(m) == DigitsValue(n) then 0 else if DigitsValue(m) < DigitsValue(n) then 1 else -1
  {
    NumberCast(m);
    NumberCast(n);
  }

  /** Words compare as in a dictionary. */
  lemma WordsCompare(v: string, w: string)
    requires IsWord(v) && IsWord(w)
    ensures Compare(v, w) == if v == w then 0 else if WordBefore(v, w) then 1 else -1
  {
    assert v + "" == v && w + "" == w;
    WordPieces(v, "");
    WordPieces(w, "");
    CompareTwo(Pieces(v), Pieces(w));
    LexLessMeaning(v, w);
  }

  /** Numbers compare by value. */
  lemma NumbersCompare(m: string, n: string)
    requires IsNumber(m) && IsNumber(n)
    ensures Compare(m, n) == if DigitsValue(m) == DigitsValue(n) then 0 else if DigitsValue(m) < DigitsValue(n) then 1 else -1
  {
    NumberPieces(m);
    NumberPieces(n);
    CompareThree(Pieces(m), Pieces(n));
    CompareNumbers(m, n);
  }

  /** Numbered words compare by the words, and then by the numbers: `item9` comes before `item10`. */
  lemma NumberedWordsCompare(v: string, m: string, w: string, n: string)
    requires IsWord(v) && IsWord(w) && IsNumber(m) && IsNumber(n)
    ensures Compare(v + m, w + n) == if v == w then Compare(m, n) else Compare(v, w)
  {
    WordPieces(v, m);
    WordPieces(w, n);
    CompareThree(Pieces(v + m), Pieces(w + n));
    CompareNumbers(m, n);
    NumbersCompare(m, n);
    LexLessMeaning(v, w);
    WordsCompare(v, w);
  }

  /** Decimals with the same number of fractional digits compare by those digits. */
  lemma DecimalsCompare(a: string, d: string, f: string, b: string, e: string, g: string)
    requires IsDecimal(a, d, f) && IsDecimal(b, e, g) && |f| == |g| <= 10
    ensures var x, y := DigitsValue(d + f), DigitsValue(e + g);
            Compare(a, b) == if x == y then 0 else if x < y then 1 else -1
  {
    DecimalPieces(a, d, f);
    DecimalPieces(b, e, g);
    DecimalParts(a, d, f);
    DecimalParts(b, e, g);
    CompareSingles(Pieces(a), Pieces(b));
    EpsilonIsEquality(a, b);
    SameScale(DigitsValue(d + f), DigitsValue(e + g), Pow10(|f|));
  }

  lemma SameScale(x: int, y: int, p: int)
    requires p > 0
    ensures x as real / p as real < y as real / p as real <==> x < y
    ensures x as real / p as real == y as real / p as real <==> x == y
  {
    var u, v := x as real / p as real, y as real / p as real;
    assert u * p as real == x as real && v * p as real == y as real;
    assert (v - u) * p as real == (y - x) as real;
  }

  /** The digits of two numbers of the same length compare like words. */
  lemma {:induction false} DigitsOrder(a: string, b: string)
    requires |a| == |b| && AllDigits(a) && AllDigits(b)
    ensures DigitsValue(a) < DigitsValue(b) <==> WordBefore(a, b)
    ensures DigitsValue(a) == DigitsValue(b) <==> a == b
  {
    if a != "" {
      var n := |a| - 1;
      DigitsOrder(a[..n], b[..n]);
      assert a == a[..n] + [a[n]] && b == b[..n] + [b[n]];
      BeforeSnoc(a[..n], b[..n], a[n], b[n]);
    } else {
      assert a == b;
    }
  }

  lemma BeforeSnoc(a: string, b: string, x: char, y: char)
    requires |a| == |b|
    ensures WordBefore(a + [x], b + [y]) <==> WordBefore(a, b) || (a == b && x < y)
  {
    var c, d := a + [x], b + [y];
    if k: nat :| BeforeAt(c, d, k) {
      if k < |a| {
        assert a[..k] == c[..k] && b[..k] == d[..k];
        assert BeforeAt(a, b, k);
      } else {
        assert c[..|a|] == a && d[..|a|] == b;
      }
    }
    if k: nat :| BeforeAt(a, b, k) {
      assert c[..k] == a[..k] && d[..k] == b[..k];
      assert BeforeAt(c, d, k);
    }
    if a == b && x < y {
      assert c[..|a|] == a && d[..|a|] == b;
      assert BeforeAt(c, d, |a|);
    }
  }

  lemma EmptyFirst(s: string)
    requires s != ""
    ensures Compare("", s) == 1
  {
    PiecesShape("");
    PiecesShape(s);
    var a, b := Pieces(""), Pieces(s);
    assert a == [""] && |b| > 1;
    assert a[0..] == a && b[0..] == b && a[1..] == [] && b[1..] != [];
    CompareStep(a, b, 0, true);
  }

  lemma {:induction false} CompareRange(a: seq<string>, b: seq<string>, text: bool)
    ensures -1 <= ComparePieces(a, b, text) <= 1
  {
    if a != [] && b != [] { CompareRange(a[1..], b[1..], !text); }
  }

  lemma CompareMeaning(s1: string, s2: string)
    ensures -1 <= Compare(s1, s2) <= 1
    ensures IsWord(s1) && IsWord(s2) ==> Compare(s1, s2) == if s1 == s2 then 0 else if WordBefore(s1, s2) then 1 else -1
    ensures IsNumber(s1) && IsNumber(s2) ==>
              Compare(s1, s2) == if DigitsValue(s1) == DigitsValue(s2) then 0 else if DigitsValue(s1) < DigitsValue(s2) then 1 else -1
    ensures s1 == "" && s2 != "" ==> Compare(s1, s2) == 1
  {
    CompareRange(Pieces(s1), Pieces(s2), true);
    if IsWord(s1) && IsWord(s2) { WordsCompare(s1, s2); }
    if IsNumber(s1) && IsNumber(s2) { NumbersCompare(s1, s2); }
    if s1 == "" && s2 != "" { EmptyFirst(s2); }
  }

  lemma {:induction false} ComparePiecesOpposite(a: seq<string>, b: seq<string>, text: bool)
    ensures ComparePieces(a, b, text) == -ComparePieces(b, a, text)
  {
    if a != [] && b != [] {
      CompareTextChains(a[0], b[0], a[0]);
      ComparePiecesOpposite(a[1..], b[1..], !text);
    }
  }

  /** For all strings, swapping the arguments flips the sign. */
  lemma CompareAntisymmetric(s1: string, s2: string)
    ensures Compare(s1, s2) == -Compare(s2, s1)
  {
    ComparePiecesOpposite(Pieces(s1), Pieces(s2), true);
  }

  ghost predicate CastablePieces(ts: seq<string>, text: bool, digits: nat) {
    forall i | 0 <= i < |ts| && (i % 2 == 0) != text :: Castable(ts[i], digits)
  }

  /** No decimal in the string has more than `digits` fractional digits. */
  ghost predicate FractionsWithin(s: string, digits: nat) {
    forall i | 0 <= i < |Pieces(s)| && i % 2 == 1 :: FractionLength(Pieces(s)[i]) <= digits
  }

  /** Number positions hold only numerals and the empty last token, so the cast cannot fail. */
  lemma NumbersAreCastable(s: string, digits: nat)
    requires FractionsWithin(s, digits)
    ensures CastablePieces(Pieces(s), true, digits)
  {
    PiecesShape(s);
    var m := Pieces(s);
    forall i | 0 <= i < |m| && (i % 2 == 0) != true
      ensures Castable(m[i], digits)
    {
      if m[i] != "" { NumeralCasts(m[i]); }
    }
  }

  /** Dropping the first token of a list turns even positions into odd ones. */
  lemma OffTurnTail(ts: seq<string>, text: bool, ok: string -> bool)
    requires ts != [] && forall i | 0 <= i < |ts| && (i % 2 == 0) != text :: ok(ts[i])
    ensures forall i | 0 <= i < |ts[1..]| && (i % 2 == 0) != !text :: ok(ts[1..][i])
  {
    forall i | 0 <= i < |ts[1..]| && (i % 2 == 0) != !text
      ensures ok(ts[1..][i])
    {
      assert ts[1..][i] == ts[i + 1] && ((i + 1) % 2 == 0) != text;
    }
  }

  lemma CastableTail(ts: seq<string>, text: bool, digits: nat)
    requires ts != [] && CastablePieces(ts, text, digits)
    ensures CastablePieces(ts[1..], !text, digits)
  {
    OffTurnTail(ts, text, t => Castable(t, digits));
  }

  lemma {:induction false} ComparePiecesChains(a: seq<string>, b: seq<string>, c: seq<string>, text: bool)
    requires CastablePieces(a, text, 10) && CastablePieces(b, text, 10) && CastablePieces(c, text, 10)
    ensures Chains(ComparePieces(a, b, text), ComparePieces(b, c, text), ComparePieces(a, c, text))
  {
    if a != [] && b != [] && c != [] {
      CompareTokenChains(a[0], b[0], c[0], text);
      CastableTail(a, text, 10);
      CastableTail(b, text, 10);
      CastableTail(c, text, 10);
      ComparePiecesChains(a[1..], b[1..], c[1..], !text);
    }
  }

  /** Up to ten fractional digits the comparison is a transitive total preorder. */
  lemma CompareChains(s1: string, s2: string, s3: string)
    requires FractionsWithin(s1, 10) && FractionsWithin(s2, 10) && FractionsWithin(s3, 10)
    ensures Chains(Compare(s1, s2), Compare(s2, s3), Compare(s1, s3))
  {
    NumbersAreCastable(s1, 10);
    NumbersAreCastable(s2, 10);
    NumbersAreCastable(s3, 10);
    ComparePiecesChains(Pieces(s1), Pieces(s2), Pieces(s3), true);
  }

  // ---------------------------------------------------------------------------------------
  // The bound of ten digits is exact
  // ---------------------------------------------------------------------------------------

  ghost predicate PreorderUpTo(digits: nat) {
    forall a, b, c | FractionsWithin(a, digits) && FractionsWithin(b, digits) && FractionsWithin(c, digits) ::
      Chains(Compare(a, b), Compare(b, c), Compare(a, c))
  }

  lemma DecimalTokens(d: string, f: string)
    requires d != "" && f != "" && AllDigits(d) && AllDigits(f)
    ensures IsTokenization(d + "." + f, ["", d, ".", f, ""], true, false)
  {
    var ts := ["", d, ".", f, ""];
    assert ts == [""] + [d, ".", f, ""] && [d, ".", f, ""] == [d] + [".", f, ""] && [".", f, ""] == ["."] + ([f] + ([""] + []));
    ConcatCons("", [d, ".", f, ""]);
    ConcatCons(d, [".", f, ""]);
    ConcatTriple(".", f, "", []);
  }

  lemma DecimalPieces(s: string, d: string, f: string)
    requires IsDecimal(s, d, f)
    ensures Pieces(s) == ["", s, ""]
    ensures FractionLength(s) == |f|
  {
    DecimalTokens(d, f);
    TokenizationUnique(s, ["", d, ".", f, ""], true, false);
    assert Merge(["", d, ".", f, ""]) == ["", d + "." + f, ""] by {
      var ts := ["", d, ".", f, ""];
      assert ts[0..] == ts && ts[4..] == [""];
      MergeStep(ts, 0);
      MergeStep(ts, 1);
    }
    DecimalParts(s, d, f);
  }

  function PaddedDigits(v: nat, n: nat): (s: string)
    ensures |s| == n && AllDigits(s)
  {
    if n == 0 then "" else PaddedDigits(v / 10, n - 1) + [(v % 10 + '0' as int) as char]
  }

  lemma DigitsValueSnoc(s: string, c: char)
    requires AllDigits(s) && IsDigit(c)
    ensures AllDigits(s + [c]) && DigitsValue(s + [c]) == 10 * DigitsValue(s) + (c as int - '0' as int)
  {
    assert (s + [c])[..|s|] == s;
  }

  lemma {:induction false} PaddedDigitsValue(v: nat, n: nat)
    requires v < Pow10(n)
    ensures DigitsValue(PaddedDigits(v, n)) == v
  {
    if n > 0 {
      PaddedDigitsValue(v / 10, n - 1);
      DigitsValueSnoc(PaddedDigits(v / 10, n - 1), (v % 10 + '0' as int) as char);
    }
  }

  /** `v` units in the last of `n` fractional places, as a string. */
  lemma TinyDecimal(v: nat, n: nat) returns (s: string)
    requires v < Pow10(n) && n > 0
    ensures Pieces(s) == ["", s, ""] && FractionLength(s) == n
    ensures LexicalCast(s) == Some(v as real / Pow10(n) as real)
  {
    var f := PaddedDigits(v, n);
    s := "0" + "." + f;
    assert IsDecimal(s, "0", f);
    DecimalPieces(s, "0", f);
    DecimalParts(s, "0", f);
    LeadingZero(f);
    PaddedDigitsValue(v, n);
  }

  lemma {:induction false} LeadingZero(f: string)
    requires AllDigits(f)
    ensures AllDigits("0" + f) && DigitsValue("0" + f) == DigitsValue(f)
  {
    if f != "" {
      LeadingZero(f[..|f| - 1]);
      assert ("0" + f)[..|f|] == "0" + f[..|f| - 1];
    }
  }

  lemma CompareSingles(a: seq<string>, b: seq<string>)
    requires |a| == 3 && |b| == 3 && a[0] == b[0] == a[2] == b[2] == ""
    ensures ComparePieces(a, b, true) == CompareToken(a[1], b[1], false)
  {
    assert a[0..] == a && b[0..] == b && a[3..] == [] && b[3..] == [];
    CompareStep(a, b, 0, true);
    CompareStep(a, b, 1, false);
    CompareStep(a, b, 2, true);
  }

  lemma CompareCast(a: string, b: string, x: real, y: real)
    requires Pieces(a) == ["", a, ""] && LexicalCast(a) == Some(x)
    requires Pieces(b) == ["", b, ""] && LexicalCast(b) == Some(y)
    ensures Compare(a, b) == if Abs(x - y) < EPS then 0 else if x < y then 1 else -1
  {
    CompareSingles(Pieces(a), Pieces(b));
  }

  lemma SinglePiece(s: string, n: nat)
    requires Pieces(s) == ["", s, ""] && FractionLength(s) == n
    ensures FractionsWithin(s, n)
  {
  }

  lemma TinyTie(v: nat, w: nat)
    ensures var x, y := v as real / 100000000000.0, w as real / 100000000000.0;
            (Abs(x - y) < EPS <==> -10 < v - w < 10) && (x < y <==> v < w)
  {
  }

  /** `s` writes `v` units of 10^-11 with eleven fractional digits. */
  ghost predicate IsTiny(s: string, v: nat) {
    && Pieces(s) == ["", s, ""] && FractionLength(s) == 11
    && LexicalCast(s) == Some(v as real / 100000000000.0)
  }

  lemma MakeTiny(v: nat) returns (s: string)
    requires v < 100
    ensures IsTiny(s, v)
  {
    Pow10Ten();
    Pow10Add(1, 10);
    s := TinyDecimal(v, 11);
  }

  lemma CompareTiny(a: string, v: nat, b: string, w: nat)
    requires IsTiny(a, v) && IsTiny(b, w)
    ensures FractionsWithin(a, 11)
    ensures Compare(a, b) == if -10 < v - w < 10 then 0 else if v < w then 1 else -1
  {
    SinglePiece(a, 11);
    var x, y := v as real / 100000000000.0, w as real / 100000000000.0;
    CompareCast(a, b, x, y);
    TinyTie(v, w);
    SameChoice(Compare(a, b), Abs(x - y) < EPS, x < y, v, w);
  }

  lemma SameChoice(r: int, near: bool, less: bool, v: int, w: int)
    requires r == if near then 0 else if less then 1 else -1
    requires (near <==> -10 < v - w < 10) && (less <==> v < w)
    ensures r == if -10 < v - w < 10 then 0 else if v < w then 1 else -1
  {
  }

  /** Eleven digits are enough to tie 0 with 6e-11, and that with 12e-11, but not 0 with 12e-11. */
  lemma ElevenDigitsBreakTransitivity() returns (a: string, b: string, c: string)
    ensures IsTiny(a, 0) && IsTiny(b, 6) && IsTiny(c, 12)
    ensures FractionsWithin(a, 11) && FractionsWithin(b, 11) && FractionsWithin(c, 11)
    ensures Compare(a, b) == 0 && Compare(b, c) == 0 && Compare(a, c) == 1
  {
    a := MakeTiny(0);
    b := MakeTiny(6);
    c := MakeTiny(12);
    CompareTiny(a, 0, b, 6);
    CompareTiny(b, 6, c, 12);
    CompareTiny(a, 0, c, 12);
    CompareTiny(c, 12, a, 0);
  }

  /** On strings with at most `digits` fractional digits per decimal, the comparison is a
      transitive preorder exactly when `digits` is at most ten. */
  lemma PreorderExactlyUpToTen(digits: nat)
    ensures PreorderUpTo(digits) <==> digits <= 10
  {
    if digits <= 10 {
      forall a, b, c | FractionsWithin(a, digits) && FractionsWithin(b, digits) && FractionsWithin(c, digits)
        ensures Chains(Compare(a, b), Compare(b, c), Compare(a, c))
      {
        CompareChains(a, b, c);
      }
    } else {
      var a, b, c := ElevenDigitsBreakTransitivity();
      assert !Chains(Compare(a, b), Compare(b, c), Compare(a, c));
    }
  }

  // ---------------------------------------------------------------------------------------
  // What a tie and the final length test mean
  // ---------------------------------------------------------------------------------------

  /** What the comparison sees of a string. */
  datatype Atom = Absent | Word(text: string) | Number(value: real)

  ghost function AtomOf(t: string, text: bool): Atom {
    if t == "" then Absent
    else if !text && LexicalCast(t).Some? then Number(LexicalCast(t).value) else Word(t)
  }

  ghost function Atoms(ts: seq<string>, text: bool): seq<Atom> {
    if ts == [] then [] else [AtomOf(ts[0], text)] + Atoms(ts[1..], !text)
  }

  ghost function SortKey(s: string): seq<Atom> { Atoms(Pieces(s), true) }

  lemma {:induction false} TieIsSameAtoms(a: seq<string>, b: seq<string>, text: bool)
    requires CastablePieces(a, text, 10) && CastablePieces(b, text, 10)
    ensures ComparePieces(a, b, text) == 0 <==> Atoms(a, text) == Atoms(b, text)
  {
    if a != [] && b != [] {
      CastableTail(a, text, 10);
      CastableTail(b, text, 10);
      TieIsSameAtoms(a[1..], b[1..], !text);
      if a[0] != "" && b[0] != "" && !text { EpsilonIsEquality(a[0], b[0]); }
      assert CompareToken(a[0], b[0], text) == 0 <==> AtomOf(a[0], text) == AtomOf(b[0], text);
      assert Atoms(a, text)[0] == AtomOf(a[0], text) && Atoms(b, text)[0] == AtomOf(b[0], text);
      assert Atoms(a, text)[1..] == Atoms(a[1..], !text) && Atoms(b, text)[1..] == Atoms(b[1..], !text);
    }
  }

  /** Two strings tie exactly when they spell the same words and the same numbers. */
  lemma TieIsSameKey(s1: string, s2: string)
    requires FractionsWithin(s1, 10) && FractionsWithin(s2, 10)
    ensures Compare(s1, s2) == 0 <==> SortKey(s1) == SortKey(s2)
  {
    NumbersAreCastable(s1, 10);
    NumbersAreCastable(s2, 10);
    TieIsSameAtoms(Pieces(s1), Pieces(s2), true);
  }

  /** If every common position ties, the length test is left to decide only between the empty
      string and a string that starts with a digit. */
  lemma LengthTestOnlyForEmpty(s1: string, s2: string)
    requires |Pieces(s1)| < |Pieces(s2)|
    requires forall i | 0 <= i < |Pieces(s1)| :: CompareToken(Pieces(s1)[i], Pieces(s2)[i], i % 2 == 0) == 0
    ensures s1 == "" && s2 != "" && IsDigit(s2[0])
  {
    PiecesShape(s1);
    PiecesShape(s2);
    var a, b := Pieces(s1), Pieces(s2);
    var last := |a| - 1;
    assert CompareToken(a[last], b[last], last % 2 == 0) == 0;
    assert b[last] == "";
    assert last == 0;
    assert s2 == b[0] + Concat(b[1..]) == Concat(b[1..]);
  }

}
