/** Rewriting a whole query (query.cpp): only the parts outside single quotes are rewritten, by five
    loops in a fixed order, and the parts are joined again. */
module QueryText {
  import opened Wrappers
  import opened Strings
  import opened Rewriting

  const QUOTE: char := '\''

  /** The five loops in order. */
  function Normalize(part: string): string {
    Rewrite(BeforeClose, Rewrite(BeforeBool, Rewrite(AfterBool, Rewrite(Bracket, IdPass(part)))))
  }

  method NormalizePart(part: string) returns (t: string)
    ensures t == Normalize(part)
    ensures t == Rewrite(BeforeClose, Rewrite(BeforeBool, Rewrite(AfterBool, Rewrite(Bracket, IdPass(part)))))
  {
    t := RewriteIds(part);
    t := RewriteLoop(Bracket, t);
    t := RewriteLoop(AfterBool, t);
    t := RewriteLoop(BeforeBool, t);
    t := RewriteLoop(BeforeClose, t);
  }

  // ---------------------------------------------------------------------------------------
  // Joint normal form
  // ---------------------------------------------------------------------------------------

  /** None of the five patterns matches anywhere. */
  ghost predicate NormalForm(s: string) {
    NoIdsBefore(s, |s|) && forall rule :: Settled(rule, s)
  }

  lemma {:induction false} IdPassHasNoIds(s: string)
    ensures NoIdsBefore(IdPass(s), |IdPass(s)|)
    ensures IdPass(s) != "" ==> s != "" && (IdPass(s)[0] == s[0] || IdPass(s)[0] == '[')
  {
    if s != "" {
      if IdAt(s, 0) {
        var e := DigitsEnd(s, 1);
        IdPassHasNoIds(s[e..]);
        NoIdsAppend(s[1..e], IdPass(s[e..]));
      } else {
        IdPassHasNoIds(s[1..]);
        var rest := IdPass(s[1..]);
        forall p | 0 <= p < |rest| + 1
          ensures !IdAt([s[0]] + rest, p)
        {
          if p > 0 { assert !IdAt(rest, p - 1); }
        }
      }
    }
  }

  lemma NoIdsAppend(d: string, rest: string)
    requires NoIdsBefore(rest, |rest|) && AllDigits(d)
    ensures NoIdsBefore(Selector(d) + rest, |Selector(d) + rest|)
  {
    var sel := Selector(d);
    forall p | 0 <= p < |sel + rest|
      ensures !IdAt(sel + rest, p)
    {
      if p < |sel| { assert (sel + rest)[p] == sel[p] != '/'; } else { assert !IdAt(rest, p - |sel|); }
    }
  }

  lemma {:induction false} RewriteKeepsNoIds(rule: Rule, s: string)
    requires NoIdsBefore(s, |s|)
    ensures NoIdsBefore(Rewrite(rule, s), |Rewrite(rule, s)|)
    decreases LiveCount(rule, s)
  {
    match FindFrom(rule, s, 0)
    case None =>
    case Some((p, j)) =>
      InsertProgress(rule, s, p, j);
      LiveIsCut(rule, s, p, j);
      assert NoIdsBefore(Insert(s, j), |Insert(s, j)|) by {
        var t := Insert(s, j);
        forall p | 0 <= p < |t|
          ensures !IdAt(t, p)
        {
          if p < j - 1 { assert !IdAt(s, p); }
          if p >= j + 7 { assert !IdAt(s, p - 7); }
        }
      }
      RewriteKeepsNoIds(rule, Insert(s, j));
  }

  /** After the five loops, run once in order, none of the five patterns matches any more. */
  lemma NormalizeReachesNormalForm(part: string)
    ensures NormalForm(Normalize(part))
  {
    var s0 := IdPass(part);
    var s1 := Rewrite(Bracket, s0);
    var s2 := Rewrite(AfterBool, s1);
    var s3 := Rewrite(BeforeBool, s2);
    var s4 := Rewrite(BeforeClose, s3);
    IdPassHasNoIds(part);
    RewriteKeepsNoIds(Bracket, s0);
    RewriteKeepsNoIds(AfterBool, s1);
    RewriteKeepsNoIds(BeforeBool, s2);
    RewriteKeepsNoIds(BeforeClose, s3);
    RewriteSettles(Bracket, Bracket, s0);
    RewriteSettles(AfterBool, Bracket, s1);
    RewriteSettles(BeforeBool, Bracket, s2);
    RewriteSettles(BeforeBool, AfterBool, s2);
    RewriteSettles(BeforeClose, Bracket, s3);
    RewriteSettles(BeforeClose, AfterBool, s3);
    RewriteSettles(BeforeClose, BeforeBool, s3);
    forall rule
      ensures Settled(rule, s4)
    {
      match rule case Bracket => case AfterBool => case BeforeBool => case BeforeClose =>
    }
  }

  /** A part in normal form is left alone. */
  lemma NormalFormIsFixed(s: string)
    requires NormalForm(s)
    ensures Normalize(s) == s
  {
    IdPassSkips(s, |s|);
    assert s[..|s|] == s && IdPass(s[|s|..]) == "" && IdPass(s) == s + "" == s;
    RewriteSettles(Bracket, Bracket, s);
    RewriteSettles(AfterBool, AfterBool, s);
    RewriteSettles(BeforeBool, BeforeBool, s);
    RewriteSettles(BeforeClose, BeforeClose, s);
  }

  /** Apart from `/text()`, a part only has its numeric steps turned into id selectors. */
  lemma NormalizeOnlyInserts(part: string)
    ensures Strip(Normalize(part)) == Strip(IdPass(part))
    ensures forall a, steps | AllSteps(a, steps) && part == WithSteps(a, steps) ::
              Strip(Normalize(part)) == Strip(WithSelectors(a, steps))
  {
    forall a, steps | AllSteps(a, steps) && part == WithSteps(a, steps)
      ensures IdPass(part) == WithSelectors(a, steps)
    {
      PassSelects(a, steps);
    }
    var s0 := IdPass(part);
    var s1 := Rewrite(Bracket, s0);
    var s2 := Rewrite(AfterBool, s1);
    RewriteOnlyInserts(Bracket, s0);
    RewriteOnlyInserts(AfterBool, s1);
    RewriteOnlyInserts(BeforeBool, s2);
    RewriteOnlyInserts(BeforeClose, Rewrite(BeforeBool, s2));
  }

  lemma BoolWithin(a: string, b: string, c: string, i: nat)
    requires BoolAt(b, i) > 0
    ensures BoolAt(a + b + c, |a| + i) == BoolAt(b, i)
  {
    forall k | 0 <= k < |b|
      ensures (a + b + c)[|a| + k] == b[k]
    {
    }
  }

  lemma MatchWithin(rule: Rule, a: string, b: string, c: string, p: nat, j: nat)
    requires Matches(rule, b, p, j)
    ensures Matches(rule, a + b + c, |a| + p, |a| + j)
  {
    var w := LeadAt(rule, b, p);
    if rule == AfterBool { BoolWithin(a, b, c, p); }
    if rule == BeforeBool { BoolWithin(a, b, c, j); }
    var s := a + b + c;
    assert s[|a| + p] == b[p] && s[|a| + p + w] == b[p + w] && s[|a| + j] == b[j];
  }

  lemma LiveWithin(rule: Rule, a: string, b: string, c: string, j: nat)
    requires Live(rule, b, j)
    ensures Live(rule, a + b + c, |a| + j)
  {
    var p :| 0 <= p < j && Matches(rule, b, p, j);
    MatchWithin(rule, a, b, c, p, j);
  }

  /** The patterns have no anchors, so a substring of a normal form is a normal form. */
  lemma SubstringKeepsNormalForm(a: string, b: string, c: string)
    requires NormalForm(a + b + c)
    ensures NormalForm(b)
  {
    forall p | 0 <= p < |b|
      ensures !IdAt(b, p)
    {
      assert !IdAt(a + b + c, |a| + p);
    }
    forall rule, j: nat
      ensures !Live(rule, b, j)
    {
      assert Settled(rule, a + b + c);
      if Live(rule, b, j) { LiveWithin(rule, a, b, c, j); }
    }
  }

  // ---------------------------------------------------------------------------------------
  // Quotes
  // ---------------------------------------------------------------------------------------

  /** The number of quotes in a text. */
  function Quotes(s: string): nat { |Split(s, QUOTE)| - 1 }

  lemma QuotesConcat(a: string, b: string)
    ensures Quotes(a + b) == Quotes(a) + Quotes(b)
  {
    SplitConcat(a, b, QUOTE);
  }

  lemma QuotesInsert(s: string, j: nat)
    requires j <= |s|
    ensures Quotes(Insert(s, j)) == Quotes(s)
  {
    QuotesConcat(s[..j] + TEXT, s[j..]);
    QuotesConcat(s[..j], TEXT);
    QuotesConcat(s[..j], s[j..]);
    SplitFree(TEXT, QUOTE);
    assert s[..j] + s[j..] == s;
  }

  lemma {:induction false} QuotesRewrite(rule: Rule, s: string)
    ensures Quotes(Rewrite(rule, s)) == Quotes(s)
    decreases LiveCount(rule, s)
  {
    match FindFrom(rule, s, 0)
    case None =>
    case Some((p, j)) =>
      InsertProgress(rule, s, p, j);
      QuotesInsert(s, j);
      QuotesRewrite(rule, Insert(s, j));
  }

  lemma QuotesSelector(digits: string)
    requires AllDigits(digits)
    ensures Quotes(Selector(digits)) == 2 && Quotes("/" + digits) == 0
  {
    SplitFree(digits, QUOTE);
    SplitFree("[@id=", QUOTE);
    SplitFree("]", QUOTE);
    SplitFree("/" + digits, QUOTE);
    SplitAtSeparator("[@id=", digits + "']", QUOTE);
    SplitAtSeparator(digits, "]", QUOTE);
    assert Selector(digits) == "[@id=" + [QUOTE] + (digits + "']");
    assert digits + "']" == digits + [QUOTE] + "]";
  }

  ghost predicate SameParity(a: string, b: string) { Quotes(a) % 2 == Quotes(b) % 2 }

  lemma ParityStep(digits: string, rest: string, rest': string)
    requires SameParity(rest', rest) && AllDigits(digits)
    ensures SameParity(Selector(digits) + rest', "/" + digits + rest)
  {
    assert Quotes("/" + digits + rest) == Quotes(rest) && Quotes(Selector(digits) + rest') == Quotes(rest') + 2 by {
      QuotesSelector(digits);
      QuotesConcat("/" + digits, rest);
      QuotesConcat(Selector(digits), rest');
    }
  }

  lemma ParityChar(c: char, rest: string, rest': string)
    requires SameParity(rest', rest)
    ensures SameParity([c] + rest', [c] + rest)
  {
    QuotesConcat([c], rest);
    QuotesConcat([c], rest');
  }

  lemma {:induction false} QuotesIdPass(s: string)
    ensures SameParity(IdPass(s), s)
  {
    if s != "" {
      if IdAt(s, 0) {
        var e := DigitsEnd(s, 1);
        QuotesIdPass(s[e..]);
        ParityStep(s[1..e], s[e..], IdPass(s[e..]));
        assert s == "/" + s[1..e] + s[e..];
      } else {
        QuotesIdPass(s[1..]);
        ParityChar(s[0], s[1..], IdPass(s[1..]));
        assert s == [s[0]] + s[1..];
      }
    }
  }

  /** Rewriting adds quotes only in pairs. */
  lemma QuotesNormalize(part: string)
    ensures Quotes(Normalize(part)) % 2 == Quotes(part) % 2
  {
    var s0 := IdPass(part);
    var s1 := Rewrite(Bracket, s0);
    var s2 := Rewrite(AfterBool, s1);
    QuotesIdPass(part);
    QuotesRewrite(Bracket, s0);
    QuotesRewrite(AfterBool, s1);
    QuotesRewrite(BeforeBool, s2);
    QuotesRewrite(BeforeClose, Rewrite(BeforeBool, s2));
  }

  // ---------------------------------------------------------------------------------------
  // Whole queries
  // ---------------------------------------------------------------------------------------

  datatype QueryError = DoubleSlashes

  predicate SlashesAt(s: string, k: nat) { k + 1 < |s| && s[k] == '/' && s[k + 1] == '/' }

  predicate HasDoubleSlash(s: string) { exists k | 0 <= k < |s| :: SlashesAt(s, k) }

  predicate Turn(k: nat, even: bool) { (k % 2 == 0) == even }

  /** Every other part, beginning with the first one if `even`, goes through `f`. */
  function EveryOther(parts: seq<string>, f: string -> string, even: bool): (out: seq<string>)
    ensures |out| == |parts|
  {
    if parts == [] then []
    else [if even then f(parts[0]) else parts[0]] + EveryOther(parts[1..], f, !even)
  }

  lemma {:induction false} EveryOtherAt(parts: seq<string>, f: string -> string, even: bool, k: nat)
    requires k < |parts|
    ensures EveryOther(parts, f, even)[k] == if Turn(k, even) then f(parts[k]) else parts[k]
  {
    if k > 0 { EveryOtherAt(parts[1..], f, !even, k - 1); }
  }

  predicate Rejected(parts: seq<string>, f: string -> string) {
    exists k | 0 <= k < |parts| && Turn(k, true) :: HasDoubleSlash(f(parts[k]))
  }

  function RewrittenQuery(query: string): Result<string, QueryError> {
    var parts := Split(query, QUOTE);
    if Rejected(parts, Normalize) then Err(DoubleSlashes) else Ok(Join(EveryOther(parts, Normalize, true), QUOTE))
  }

  ghost predicate Accepted(parts: seq<string>, f: string -> string, n: nat) {
    forall k | 0 <= k < n && k < |parts| && Turn(k, true) :: !HasDoubleSlash(f(parts[k]))
  }

  ghost predicate DoneUpTo(parts: seq<string>, now: seq<string>, f: string -> string, n: nat) {
    |now| == |parts| && forall k | 0 <= k < |parts| :: now[k] == if k < n && Turn(k, true) then f(parts[k]) else parts[k]
  }

  lemma DoneIsEveryOther(parts: seq<string>, now: seq<string>, f: string -> string, n: nat)
    requires DoneUpTo(parts, now, f, n) && n >= |parts|
    ensures now == EveryOther(parts, f, true)
  {
    forall k | 0 <= k < |parts|
      ensures now[k] == EveryOther(parts, f, true)[k]
    {
      EveryOtherAt(parts, f, true, k);
    }
  }

  lemma DoneStep(parts: seq<string>, now: seq<string>, f: string -> string, n: nat)
    requires DoneUpTo(parts, now, f, n) && n < |parts| && n % 2 == 0
    ensures DoneUpTo(parts, now[n := f(now[n])], f, n + 2)
    ensures now[n] == parts[n] && Turn(n, true)
  {
  }

  lemma AcceptedStep(parts: seq<string>, f: string -> string, n: nat)
    requires Accepted(parts, f, n) && n < |parts| && n % 2 == 0
    ensures HasDoubleSlash(f(parts[n])) ==> Rejected(parts, f)
    ensures !HasDoubleSlash(f(parts[n])) ==> Accepted(parts, f, n + 2)
    ensures n + 2 >= |parts| && Accepted(parts, f, n + 2) ==> !Rejected(parts, f)
  {
    assert Turn(n, true);
  }

  lemma DoubleSlashMeaning(s: string)
    ensures HasDoubleSlash(s) <==> exists x, y :: s == x + "//" + y
  {
    if HasDoubleSlash(s) {
      var k :| 0 <= k < |s| && SlashesAt(s, k);
      assert s == s[..k] + "//" + s[k + 2..];
    }
    if x, y :| s == x + "//" + y {
      assert s[|x|] == '/' && s[|x| + 1] == '/';
      assert SlashesAt(s, |x|);
    }
  }

  /** The part has two slashes in a row after its rewriting. */
  ghost predicate SlashesIn(part: string, f: string -> string) { exists x, y :: f(part) == x + "//" + y }

  /** Some part outside quotes has. */
  ghost predicate SlashesOutside(parts: seq<string>, f: string -> string) {
    exists k | 0 <= k < |parts| :: k % 2 == 0 && SlashesIn(parts[k], f)
  }

  /** The quoted parts as they were, between the rewritten ones. */
  ghost predicate IsRewritten(parts: seq<string>, f: string -> string, t: string) {
    exists now: seq<string> :: OthersKept(parts, f, now) && t == Join(now, '\'')
  }

  ghost predicate OthersKept(parts: seq<string>, f: string -> string, now: seq<string>) {
    |now| == |parts| && forall k | 0 <= k < |now| :: now[k] == if k % 2 == 0 then f(parts[k]) else parts[k]
  }

  lemma RejectedMeaning(parts: seq<string>, f: string -> string)
    ensures Rejected(parts, f) <==> SlashesOutside(parts, f)
  {
    forall k | 0 <= k < |parts|
      ensures HasDoubleSlash(f(parts[k])) <==> SlashesIn(parts[k], f)
    {
      DoubleSlashMeaning(f(parts[k]));
    }
    if k :| 0 <= k < |parts| && k % 2 == 0 && SlashesIn(parts[k], f) { assert Turn(k, true); }
  }

  lemma EveryOtherIsRewritten(parts: seq<string>, f: string -> string)
    ensures IsRewritten(parts, f, Join(EveryOther(parts, f, true), '\''))
  {
    var now := EveryOther(parts, f, true);
    forall k | 0 <= k < |parts|
      ensures now[k] == if k % 2 == 0 then f(parts[k]) else parts[k]
    {
      EveryOtherAt(parts, f, true, k);
    }
    assert OthersKept(parts, f, now);
  }

  method RewriteQuery(query: string) returns (r: Result<string, QueryError>)
    ensures r == RewrittenQuery(query)
    ensures r.Err? <==> SlashesOutside(Split(query, '\''), Normalize)
    ensures r.Ok? ==> IsRewritten(Split(query, '\''), Normalize, r.value)
  {
    var queryParts := Split(query, QUOTE);
    RejectedMeaning(queryParts, Normalize);
    EveryOtherIsRewritten(queryParts, Normalize);
    var rewritten := RewriteParts(queryParts);
    match rewritten {
      case Ok(parts) => r := Ok(Join(parts, QUOTE));
      case Err(e) => r := Err(e);
    }
  }

  /** The loop over every other part. */
  method RewriteParts(parts: seq<string>) returns (r: Result<seq<string>, QueryError>)
    ensures r == if Rejected(parts, Normalize) then Err(DoubleSlashes) else Ok(EveryOther(parts, Normalize, true))
  {
    var queryParts := parts;
    var i := 0;
    while i < |queryParts|
      invariant i % 2 == 0 && i >= 0
      invariant DoneUpTo(parts, queryParts, Normalize, i)
      invariant Accepted(parts, Normalize, i)
      decreases |parts| - i
    {
      DoneStep(parts, queryParts, Normalize, i);
      AcceptedStep(parts, Normalize, i);
      var t := NormalizePart(queryParts[i]);
      queryParts := queryParts[i := t];
      if HasDoubleSlash(t) {
        return Err(DoubleSlashes);
      }
      i := i + 2;
    }
    DoneIsEveryOther(parts, queryParts, Normalize, i);
    r := Ok(queryParts);
  }

  /** In normal form and without a double slash. */
  ghost predicate Fine(s: string) { NormalForm(s) && !HasDoubleSlash(s) }

  lemma SubstringKeepsFine(a: string, b: string, c: string)
    requires Fine(a + b + c)
    ensures Fine(b)
  {
    SubstringKeepsNormalForm(a, b, c);
    if HasDoubleSlash(b) {
      var k :| 0 <= k < |b| && SlashesAt(b, k);
      assert SlashesAt(a + b + c, |a| + k);
    }
  }

  ghost predicate FinePieces(ps: seq<string>, even: bool) {
    forall k | 0 <= k < |ps| && Turn(k, even) :: Fine(ps[k])
  }

  ghost predicate AllFine(ps: seq<string>) { forall k | 0 <= k < |ps| :: Fine(ps[k]) }

  lemma NoFinePieces(s: string)
    ensures FinePieces([s], false)
  {
  }

  lemma FineSplits(s: string, even: bool)
    requires if even then Fine(s) else QUOTE !in s
    ensures FinePieces(Split(s, QUOTE), even)
  {
    if even {
      assert AllFine(Split(s, QUOTE)) by {
        forall k | 0 <= k < |Split(s, QUOTE)|
          ensures Fine(Split(s, QUOTE)[k])
        {
          JoinSplit(s, QUOTE);
          var a, c := JoinPiece(Split(s, QUOTE), k, QUOTE);
          SubstringKeepsFine(a, Split(s, QUOTE)[k], c);
        }
      }
    } else {
      SplitFree(s, QUOTE);
      NoFinePieces(s);
    }
  }

  lemma FineAppend(p: seq<string>, q: seq<string>, even: bool)
    requires FinePieces(p, even) && |p| % 2 == 1 && FinePieces(q, !even)
    ensures FinePieces(p + q, even)
  {
    forall k | 0 <= k < |p + q| && Turn(k, even)
      ensures Fine((p + q)[k])
    {
      if k >= |p| { assert (p + q)[k] == q[k - |p|] && Turn(k - |p|, !even); }
    }
  }

  /** Splitting a joined list splits its elements. */
  lemma SplitJoined(x: string, rest: seq<string>)
    requires rest != []
    ensures Split(Join([x] + rest, QUOTE), QUOTE) == Split(x, QUOTE) + Split(Join(rest, QUOTE), QUOTE)
  {
    assert ([x] + rest)[1..] == rest;
    SplitAcross(x, Join(rest, QUOTE), QUOTE);
  }

  ghost predicate KeepsParity(parts: seq<string>, f: string -> string) {
    forall k | 0 <= k < |parts| :: Quotes(f(parts[k])) % 2 == 0
  }

  ghost predicate MakesFine(parts: seq<string>, f: string -> string, even: bool) {
    forall k | 0 <= k < |parts| && Turn(k, even) :: Fine(f(parts[k]))
  }

  /** The split of a rewritten first part followed by the rest. */
  lemma FirstPieces(parts: seq<string>, f: string -> string, even: bool)
    requires |parts| > 1 && AllFree(parts, QUOTE) && KeepsParity(parts, f)
    ensures var x := if even then f(parts[0]) else parts[0];
            && |Split(x, QUOTE)| % 2 == 1
            && Split(Join(EveryOther(parts, f, even), QUOTE), QUOTE) ==
               Split(x, QUOTE) + Split(Join(EveryOther(parts[1..], f, !even), QUOTE), QUOTE)
  {
    SplitFree(parts[0], QUOTE);
    SplitJoined(if even then f(parts[0]) else parts[0], EveryOther(parts[1..], f, !even));
  }

  lemma SinglePiece(parts: seq<string>, f: string -> string, even: bool)
    requires |parts| == 1 && AllFree(parts, QUOTE) && KeepsParity(parts, f)
    ensures var x := if even then f(parts[0]) else parts[0];
            |Split(x, QUOTE)| % 2 == 1 && Split(Join(EveryOther(parts, f, even), QUOTE), QUOTE) == Split(x, QUOTE)
  {
    SplitFree(parts[0], QUOTE);
  }

  /** Splitting the rewritten query finds rewritten text at the same turns, and quoted text at the
      others. */
  lemma {:induction false} RewrittenPieces(parts: seq<string>, f: string -> string, even: bool)
    requires parts != [] && AllFree(parts, QUOTE) && KeepsParity(parts, f) && MakesFine(parts, f, even)
    ensures FinePieces(Split(Join(EveryOther(parts, f, even), QUOTE), QUOTE), even)
  {
    var x := if even then f(parts[0]) else parts[0];
    assert even ==> Turn(0, even);
    FineSplits(x, even);
    if |parts| == 1 {
      SinglePiece(parts, f, even);
    } else {
      RewrittenPieces(parts[1..], f, !even);
      FirstPieces(parts, f, even);
      FineAppend(Split(x, QUOTE), Split(Join(EveryOther(parts[1..], f, !even), QUOTE), QUOTE), even);
    }
  }

  lemma NormalizeKeepsParity(parts: seq<string>)
    requires AllFree(parts, QUOTE)
    ensures KeepsParity(parts, Normalize)
  {
    forall k | 0 <= k < |parts|
      ensures Quotes(Normalize(parts[k])) % 2 == 0
    {
      SplitFree(parts[k], QUOTE);
      QuotesNormalize(parts[k]);
    }
  }

  lemma NormalizeMakesFine(parts: seq<string>)
    requires !Rejected(parts, Normalize)
    ensures MakesFine(parts, Normalize, true)
  {
    forall k | 0 <= k < |parts| && Turn(k, true)
      ensures Fine(Normalize(parts[k]))
    {
      NormalizeReachesNormalForm(parts[k]);
    }
  }

  /** Rewriting a rewritten query changes nothing. */
  lemma RewriteQueryIdempotent(query: string)
    requires RewrittenQuery(query).Ok?
    ensures RewrittenQuery(RewrittenQuery(query).value) == RewrittenQuery(query)
  {
    var parts, t := Split(query, QUOTE), RewrittenQuery(query).value;
    JoinSplit(query, QUOTE);
    NormalizeKeepsParity(parts);
    NormalizeMakesFine(parts);
    RewrittenPieces(parts, Normalize, true);
    JoinSplit(t, QUOTE);
    FineIsFixed(Split(t, QUOTE));
  }

  lemma FineIsFixed(ps: seq<string>)
    requires FinePieces(ps, true)
    ensures EveryOther(ps, Normalize, true) == ps && !Rejected(ps, Normalize)
  {
    forall k | 0 <= k < |ps|
      ensures EveryOther(ps, Normalize, true)[k] == ps[k]
      ensures Turn(k, true) ==> !HasDoubleSlash(Normalize(ps[k]))
    {
      EveryOtherAt(ps, Normalize, true, k);
      if Turn(k, true) { NormalFormIsFixed(ps[k]); }
    }
  }

  lemma OddShift(p: seq<string>, q: seq<string>, m: nat, even: bool)
    requires |p| % 2 == 1 && m < |q| && !Turn(m, !even)
    ensures (p + q)[|p| + m] == q[m] && !Turn(|p| + m, even)
  {
  }

  /** The pieces of the rewritten list. */
  function PiecesOf(parts: seq<string>, f: string -> string, even: bool): seq<string> {
    Split(Join(EveryOther(parts, f, even), QUOTE), QUOTE)
  }

  /** Piece m is the given quoted part. */
  ghost predicate IsPiece(ps: seq<string>, m: nat, part: string, even: bool) {
    m < |ps| && ps[m] == part && !Turn(m, even)
  }

  lemma LaterQuoted(parts: seq<string>, f: string -> string, even: bool, m: nat, part: string) returns (n: nat)
    requires |parts| > 1 && AllFree(parts, QUOTE) && KeepsParity(parts, f)
    requires IsPiece(PiecesOf(parts[1..], f, !even), m, part, !even)
    ensures IsPiece(PiecesOf(parts, f, even), n, part, even)
  {
    FirstPieces(parts, f, even);
    var p := Split(if even then f(parts[0]) else parts[0], QUOTE);
    OddShift(p, PiecesOf(parts[1..], f, !even), m, even);
    n := |p| + m;
  }

  lemma {:induction false} QuotedPartsAt(parts: seq<string>, f: string -> string, even: bool, i: nat) returns (m: nat)
    requires AllFree(parts, QUOTE) && KeepsParity(parts, f) && i < |parts| && !Turn(i, even)
    ensures IsPiece(PiecesOf(parts, f, even), m, parts[i], even)
  {
    if i == 0 {
      assert IsPiece(PiecesOf(parts, f, false), 0, parts[0], false) by {
        SplitFree(parts[0], QUOTE);
        if |parts| == 1 { SinglePiece(parts, f, false); } else { FirstPieces(parts, f, false); }
      }
      m := 0;
    } else {
      assert !Turn(i - 1, !even);
      m := QuotedPartsAt(parts[1..], f, !even, i - 1);
      m := LaterQuoted(parts, f, even, m, parts[i]);
    }
  }

  /** The quoted parts come through unchanged: each is again a piece of the rewritten query that
      stands between an opening and a closing quote. */
  lemma QuotedPartsSurvive(query: string, i: nat) returns (m: nat)
    requires RewrittenQuery(query).Ok? && i < |Split(query, QUOTE)| && i % 2 == 1
    ensures var ps := Split(RewrittenQuery(query).value, QUOTE);
            m < |ps| && m % 2 == 1 && ps[m] == Split(query, QUOTE)[i]
  {
    JoinSplit(query, QUOTE);
    NormalizeKeepsParity(Split(query, QUOTE));
    m := QuotedPartsAt(Split(query, QUOTE), Normalize, true, i);
  }
}
