/** The first two passes of natural-order comparison (util.cpp): a string is cut into alternating
    text and digit runs, and `digits.digits` is fused into one decimal token. */
module NaturalTokens {
  import opened Strings

  // ---------------------------------------------------------------------------------------
  // Tokens
  // ---------------------------------------------------------------------------------------

  /** The test `isdigit(c) ^ strmode`: a text run takes non-digits, a number run takes digits. */
  predicate InRun(c: char, text: bool) { IsDigit(c) != text }

  ghost predicate AllInRun(s: string, text: bool) { forall k | 0 <= k < |s| :: InRun(s[k], text) }

  function RunLength(s: string, text: bool): (n: nat)
    ensures n <= |s| && AllInRun(s[..n], text)
    ensures n < |s| ==> !InRun(s[n], text)
  {
    if s != "" && InRun(s[0], text) then 1 + RunLength(s[1..], text) else 0
  }

  /** The token list of `s`, starting with a run of the given kind. */
  function Tokens(s: string, text: bool): seq<string>
    decreases |s|, if s != "" && InRun(s[0], text) then 0 else 1
  {
    if s == "" then [""] else [s[..RunLength(s, text)]] + Tokens(s[RunLength(s, text)..], !text)
  }

  function Concat(ts: seq<string>): string {
    if ts == [] then "" else ts[0] + Concat(ts[1..])
  }

  /** Runs of the two kinds alternate, the list ends in an empty token, and no other token is
      empty, except possibly the first one of a whole string (`inner` is false there). */
  ghost predicate Alternates(ts: seq<string>, text: bool, inner: bool) {
    && |ts| >= 1
    && ts[|ts| - 1] == ""
    && (forall i | 0 <= i < |ts| - 1 :: (inner || i > 0) ==> ts[i] != "")
    && (forall i | 0 <= i < |ts| :: AllInRun(ts[i], (i % 2 == 0) == text))
  }

  /** What a reader expects of a token list, without saying how it is computed. */
  ghost predicate IsTokenization(s: string, ts: seq<string>, text: bool, inner: bool) {
    Alternates(ts, text, inner) && Concat(ts) == s && (s == "" ==> |ts| == 1)
  }

  lemma AlternatesTail(ts: seq<string>, n: nat, text: bool, inner: bool)
    requires Alternates(ts, text, inner) && 0 < n < |ts|
    ensures Alternates(ts[n..], (n % 2 == 0) == text, true)
  {
    var rest := ts[n..];
    forall i | 0 <= i < |rest|
      ensures i < |rest| - 1 ==> rest[i] != ""
      ensures AllInRun(rest[i], (i % 2 == 0) == ((n % 2 == 0) == text))
    {
      assert rest[i] == ts[n + i];
    }
  }

  lemma ConcatCons(t: string, rest: seq<string>)
    ensures Concat([t] + rest) == t + Concat(rest)
  {
    assert ([t] + rest)[1..] == rest;
  }

  lemma AlternatesCons(t: string, rest: seq<string>, text: bool, inner: bool)
    requires Alternates(rest, !text, true) && AllInRun(t, text) && (inner ==> t != "")
    ensures Alternates([t] + rest, text, inner)
  {
    var ts := [t] + rest;
    forall i | 0 <= i < |ts|
      ensures AllInRun(ts[i], (i % 2 == 0) == text)
      ensures i < |ts| - 1 ==> (inner || i > 0) ==> ts[i] != ""
    {
      if i > 0 { assert ts[i] == rest[i - 1]; }
    }
  }

  lemma TokenizationCons(s: string, n: nat, rest: seq<string>, text: bool, inner: bool)
    requires 0 <= n <= |s| && s != "" && AllInRun(s[..n], text) && (inner ==> n > 0)
    requires IsTokenization(s[n..], rest, !text, true)
    ensures IsTokenization(s, [s[..n]] + rest, text, inner)
  {
    AlternatesCons(s[..n], rest, text, inner);
    ConcatCons(s[..n], rest);
    assert s[..n] + s[n..] == s;
  }

  lemma {:induction false} TokensAreTokenization(s: string, text: bool, inner: bool)
    requires inner ==> s == "" || InRun(s[0], text)
    ensures IsTokenization(s, Tokens(s, text), text, inner)
    decreases |s|, if s != "" && InRun(s[0], text) then 0 else 1
  {
    if s != "" {
      var n := RunLength(s, text);
      TokensAreTokenization(s[n..], !text, true);
      TokenizationCons(s, n, Tokens(s[n..], !text), text, inner);
    }
  }

  /** The first token of any tokenization is the maximal run, and the others tokenize the rest. */
  lemma FirstTokenIsRun(s: string, ts: seq<string>, text: bool, inner: bool)
    requires s != "" && IsTokenization(s, ts, text, inner)
    ensures |ts| > 1 && ts[0] == s[..RunLength(s, text)]
    ensures IsTokenization(s[RunLength(s, text)..], ts[1..], !text, true)
  {
    var rest, n := ts[1..], |ts[0]|;
    assert s[..n] == ts[0] && Concat(rest) == s[n..];
    AlternatesTail(ts, 1, text, inner);
    assert AllInRun(rest[0], !text);
    assert n < |s| ==> s[n] == rest[0][0] by {
      if |rest| == 1 { assert Concat(rest[1..]) == ""; }
    }
  }

  /** Tokenization is unique, so the declarative reading and the computed list agree. */
  lemma {:induction false} TokenizationUnique(s: string, ts: seq<string>, text: bool, inner: bool)
    requires IsTokenization(s, ts, text, inner)
    ensures ts == Tokens(s, text)
    decreases |ts|
  {
    if s == "" {
      assert ts == [""];
    } else {
      FirstTokenIsRun(s, ts, text, inner);
      TokenizationUnique(s[RunLength(s, text)..], ts[1..], !text, true);
    }
  }

  method TokenEnd(s: string, b: nat, strmode: bool) returns (e: nat)
    requires b <= |s|
    ensures e == b + RunLength(s[b..], strmode)
  {
    e := b;
    while e < |s| && InRun(s[e], strmode)
      invariant b <= e <= |s|
      invariant b + RunLength(s[b..], strmode) == e + RunLength(s[e..], strmode)
    {
      assert s[e..][1..] == s[e + 1..];
      e := e + 1;
    }
  }

  lemma ShiftHead<T>(done: seq<T>, x: T, rest: seq<T>, all: seq<T>)
    requires done + rest == all && rest != [] && rest[0] == x
    ensures done + [x] + rest[1..] == all
  {
  }

  lemma TokensStep(s: string, b: nat, text: bool)
    requires b <= |s|
    ensures var e := b + RunLength(s[b..], text);
            Tokens(s[b..], text) == [s[b..e]] + if b < |s| then Tokens(s[e..], !text) else []
  {
    var n := RunLength(s[b..], text);
    assert s[b..][..n] == s[b..b + n] && s[b..][n..] == s[b + n..];
  }

  method TokenizeString(s: string) returns (tokens: seq<string>)
    ensures IsTokenization(s, tokens, true, false)
    ensures tokens == Tokens(s, true)
  {
    tokens := [];
    var b, e, mstr, more := 0, 0, false, true;
    ghost var rest := Tokens(s, true);
    assert s[0..] == s;
    while more
      invariant b <= e <= |s|
      invariant rest == if more then Tokens(s[e..], !mstr) else []
      invariant Tokens(s, true) == tokens + rest
      decreases more, |s| - e, if e < |s| && InRun(s[e], !mstr) then 0 else 1
    {
      b, mstr := e, !mstr;
      e := TokenEnd(s, b, mstr);
      more := b < |s|;
      TokensStep(s, b, mstr);
      ShiftHead(tokens, s[b..e], rest, Tokens(s, true));
      tokens := tokens + [s[b..e]];
      rest := rest[1..];
    }
    assert tokens == Tokens(s, true);
    TokensAreTokenization(s, true, false);
  }

  // ---------------------------------------------------------------------------------------
  // Fusing decimals
  // ---------------------------------------------------------------------------------------

  predicate Fuses(ts: seq<string>) {
    |ts| >= 3 && ts[1] == "." && ts[0] != "" && ts[2] != ""
  }

  function Merge(ts: seq<string>): seq<string> {
    if |ts| < 3 then ts
    else if Fuses(ts) then [ts[0] + ts[1] + ts[2]] + Merge(ts[3..])
    else [ts[0]] + Merge(ts[1..])
  }

  /** `digits` or `digits.digits` */
  ghost predicate IsNumeral(s: string) {
    (s != "" && AllDigits(s)) || exists d, f :: IsDecimal(s, d, f)
  }

  ghost predicate IsDecimal(s: string, d: string, f: string) {
    s == d + "." + f && d != "" && f != "" && AllDigits(d) && AllDigits(f)
  }

  /** The shape of a fused token list: text and numerals alternate and the list ends in an empty
      token; `inner` says that the first token is not the first one of the string. */
  ghost predicate IsMerged(ts: seq<string>, text: bool, inner: bool) {
    && |ts| >= 1
    && ts[|ts| - 1] == ""
    && (forall i | 0 <= i < |ts| && (inner || i > 0) && i < |ts| - 1 :: ts[i] != "")
    && (forall i | 0 <= i < |ts| && (i % 2 == 0) == text :: AllInRun(ts[i], true))
    && (forall i | 0 <= i < |ts| && (i % 2 == 0) != text && ts[i] != "" :: IsNumeral(ts[i]))
  }

  lemma MergedCons(t: string, rest: seq<string>, text: bool, inner: bool)
    requires IsMerged(rest, !text, true)
    requires text ==> AllInRun(t, true)
    requires !text && t != "" ==> IsNumeral(t)
    requires inner ==> t != ""
    ensures IsMerged([t] + rest, text, inner)
  {
    var m := [t] + rest;
    forall i | 0 <= i < |m|
      ensures (inner || i > 0) && i < |m| - 1 ==> m[i] != ""
      ensures (i % 2 == 0) == text ==> AllInRun(m[i], true)
      ensures (i % 2 == 0) != text && m[i] != "" ==> IsNumeral(m[i])
    {
      if i > 0 { assert m[i] == rest[i - 1]; }
    }
  }

  lemma ConcatTriple(a: string, b: string, c: string, rest: seq<string>)
    ensures Concat([a] + ([b] + ([c] + rest))) == a + b + c + Concat(rest)
  {
    ConcatCons(c, rest);
    ConcatCons(b, [c] + rest);
    ConcatCons(a, [b] + ([c] + rest));
    Regroup(a, b, c, Concat(rest));
  }

  lemma ConcatThree(ts: seq<string>)
    requires |ts| >= 3
    ensures Concat(ts) == ts[0] + ts[1] + ts[2] + Concat(ts[3..])
  {
    ConcatTriple(ts[0], ts[1], ts[2], ts[3..]);
    SplitThree(ts);
  }

  lemma SplitThree(ts: seq<string>)
    requires |ts| >= 3
    ensures ts == [ts[0]] + ([ts[1]] + ([ts[2]] + ts[3..]))
  {
  }

  lemma {:induction false} MergeKeepsSpelling(ts: seq<string>)
    ensures Concat(Merge(ts)) == Concat(ts)
  {
    if |ts| < 3 {
    } else if Fuses(ts) {
      MergeKeepsSpelling(ts[3..]);
      ConcatCons(ts[0] + ts[1] + ts[2], Merge(ts[3..]));
      ConcatThree(ts);
    } else {
      MergeKeepsSpelling(ts[1..]);
      ConcatCons(ts[0], Merge(ts[1..]));
    }
  }

  lemma FusedIsDecimal(ts: seq<string>, text: bool, inner: bool)
    requires Alternates(ts, text, inner) && Fuses(ts)
    ensures !text && |ts| > 3
    ensures IsNumeral(ts[0] + ts[1] + ts[2])
  {
    assert AllInRun(ts[1], !text) && ts[1][0] == '.';
    assert AllInRun(ts[0], text) && AllInRun(ts[2], text);
    assert IsDecimal(ts[0] + ts[1] + ts[2], ts[0], ts[2]);
  }

  lemma ShortIsMerged(ts: seq<string>, text: bool, inner: bool)
    requires Alternates(ts, text, inner)
    ensures |ts| < 3 ==> IsMerged(ts, text, inner)
  {
    forall i | 0 <= i < |ts| && (i % 2 == 0) != text && ts[i] != ""
      ensures IsNumeral(ts[i])
    {
      assert AllInRun(ts[i], false);
    }
  }

  /** Fusing keeps the alternation: every fusion is three tokens into one. */
  lemma {:induction false} MergeKeepsShape(ts: seq<string>, text: bool, inner: bool)
    requires Alternates(ts, text, inner)
    ensures IsMerged(Merge(ts), text, inner)
    decreases |ts|
  {
    if |ts| < 3 {
      ShortIsMerged(ts, text, inner);
    } else if Fuses(ts) {
      FusedIsDecimal(ts, text, inner);
      AlternatesTail(ts, 3, text, inner);
      MergeKeepsShape(ts[3..], true, true);
      MergedCons(ts[0] + ts[1] + ts[2], Merge(ts[3..]), text, inner);
    } else {
      AlternatesTail(ts, 1, text, inner);
      MergeKeepsShape(ts[1..], !text, true);
      assert AllInRun(ts[0], text);
      MergedCons(ts[0], Merge(ts[1..]), text, inner);
    }
  }

  lemma MergeStep(ts: seq<string>, i: nat)
    requires i + 2 < |ts|
    ensures Merge(ts[i..]) ==
            if Fuses(ts[i..]) then [ts[i] + ts[i + 1] + ts[i + 2]] + Merge(ts[i + 3..]) else [ts[i]] + Merge(ts[i + 1..])
  {
    assert ts[i..][3..] == ts[i + 3..] && ts[i..][1..] == ts[i + 1..];
  }

  /** The tokens already pushed, followed by what fusing the rest gives, are the result. */
  ghost predicate MergeDone(out: seq<string>, ts: seq<string>, i: nat) {
    i <= |ts| && out + Merge(ts[i..]) == Merge(ts)
  }

  lemma MergeAdvance(out: seq<string>, ts: seq<string>, i: nat)
    requires i + 2 < |ts| && MergeDone(out, ts, i)
    ensures Fuses(ts[i..]) ==> MergeDone(out + [ts[i] + ts[i + 1] + ts[i + 2]], ts, i + 3)
    ensures !Fuses(ts[i..]) ==> MergeDone(out + [ts[i]], ts, i + 1)
  {
    MergeStep(ts, i);
    ShiftHead(out, Merge(ts[i..])[0], Merge(ts[i..]), Merge(ts));
  }

  lemma MergeTail(out: seq<string>, ts: seq<string>, i: nat)
    requires |ts| - 2 <= i < |ts| && MergeDone(out, ts, i)
    ensures MergeDone(out + [ts[i]], ts, i + 1)
  {
    ShiftHead(out, ts[i], ts[i..], Merge(ts));
  }

  method MergeFloats(tokensIn: seq<string>) returns (tokensOut: seq<string>)
    ensures tokensOut == Merge(tokensIn)
  {
    tokensOut := [];
    var i := 0;
    assert tokensIn[0..] == tokensIn;
    while i < |tokensIn| - 2
      invariant 0 <= i && MergeDone(tokensOut, tokensIn, i)
    {
      var l, c, r := tokensIn[i], tokensIn[i + 1], tokensIn[i + 2];
      MergeAdvance(tokensOut, tokensIn, i);
      if c == "." && l != "" && r != "" {
        tokensOut := tokensOut + [l + c + r];
        i := i + 2;
      } else {
        tokensOut := tokensOut + [l];
      }
      i := i + 1;
    }
    while i < |tokensIn|
      invariant 0 <= i && |tokensIn| - 2 <= i && MergeDone(tokensOut, tokensIn, i)
    {
      MergeTail(tokensOut, tokensIn, i);
      tokensOut := tokensOut + [tokensIn[i]];
      i := i + 1;
    }
  }

  /** The fused token list of a string. */
  function Pieces(s: string): seq<string> { Merge(Tokens(s, true)) }

  lemma PiecesShape(s: string)
    ensures IsMerged(Pieces(s), true, false)
    ensures Concat(Pieces(s)) == s
    ensures |Pieces(s)| == 1 <==> s == ""
  {
    TokensAreTokenization(s, true, false);
    MergeKeepsShape(Tokens(s, true), true, false);
    MergeKeepsSpelling(Tokens(s, true));
    var m := Pieces(s);
    if |m| == 1 { assert Concat(m) == m[0] + Concat(m[1..]) == ""; }
  }
}
