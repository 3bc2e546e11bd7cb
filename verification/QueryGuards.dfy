/** The guard on the first step of a query (query.cpp), and what it does to the normal form that the
    rewriting before it has reached. */
module QueryGuards {
  import opened Wrappers
  import opened Strings
  import opened Rewriting
  import opened QueryText

  const GUARD: string := "[@id!='']"

  function FirstSlash(s: string): (k: nat)
    ensures k <= |s| && (forall i | 0 <= i < k :: s[i] != '/') && (k < |s| ==> s[k] == '/')
  {
    if s == "" || s[0] == '/' then 0 else 1 + FirstSlash(s[1..])
  }

  /** Splitting at the first slash and joining again with the guard on the first part. */
  lemma GuardJoins(query: string, head: string, tail: string)
    requires query == head + ['/'] + tail && '/' !in head
    ensures Split(query, '/')[0] == head
    ensures Join(Split(query, '/')[0 := head + GUARD], '/') == head + GUARD + ['/'] + tail
  {
    SplitAtSeparator(head, tail, '/');
    JoinSplit(tail, '/');
    assert ([head] + Split(tail, '/'))[0 := head + GUARD] == [head + GUARD] + Split(tail, '/');
    JoinAppend([head + GUARD], Split(tail, '/'), '/');
  }

  lemma FirstSlashSplits(query: string, k: nat)
    requires k <= |query| && (forall i | 0 <= i < k :: query[i] != '/') && (k < |query| ==> query[k] == '/')
    ensures '/' in query <==> k < |query|
    ensures '/' !in query[..k]
    ensures k < |query| ==> query == query[..k] + ['/'] + query[k + 1..]
  {
  }

  lemma AroundSlash(query: string, k: nat)
    requires k < |query| && query[k] == '/'
    ensures query[..k] + GUARD + ['/'] + query[k + 1..] == query[..k] + GUARD + query[k..]
  {
  }

  predicate NeedsGuard(query: string) {
    var k := FirstSlash(query);
    k < |query| && '[' !in query && '.' !in query[..k]
  }

  function Guarded(query: string): string {
    var k := FirstSlash(query);
    if NeedsGuard(query) then query[..k] + GUARD + query[k..] else query
  }

  lemma GuardedMeaning(query: string, head: string, rest: string)
    requires query == head + "/" + rest && '/' !in head
    ensures Guarded(query) == if '[' in query || '.' in head then query else head + "[@id!='']/" + rest
  {
    var k := FirstSlash(query);
    assert query[|head|] == '/' && query[..|head|] == head && query[|head|..] == "/" + rest;
    assert forall i | 0 <= i < |head| :: query[i] == head[i];
    assert k == |head|;
    assert head + GUARD + ("/" + rest) == head + "[@id!='']/" + rest;
  }

  /** A query of several steps without any predicate gets a guard on its first step, unless that
      step has a dot in it. */
  method AddGuard(query: string) returns (r: string)
    ensures r == Guarded(query)
    ensures '/' !in query ==> r == query
    ensures forall head, rest | query == head + "/" + rest && '/' !in head ::
              r == if '[' in query || '.' in head then query else head + "[@id!='']/" + rest
  {
    forall head, rest | query == head + "/" + rest && '/' !in head
      ensures Guarded(query) == if '[' in query || '.' in head then query else head + "[@id!='']/" + rest
    {
      GuardedMeaning(query, head, rest);
    }
    r := query;
    ghost var k := FirstSlash(query);
    FirstSlashSplits(query, k);
    if '/' in query && '[' !in query {
      GuardJoins(query, query[..k], query[k + 1..]);
      var queryParts := Split(query, '/');
      if '.' !in queryParts[0] {
        queryParts := queryParts[0 := queryParts[0] + GUARD];
        r := Join(queryParts, '/');
        AroundSlash(query, k);
      }
    }
  }

  // ---------------------------------------------------------------------------------------
  // Queries that rewriting leaves alone
  // ---------------------------------------------------------------------------------------

  /** Rewriting the query succeeds and changes nothing. */
  ghost predicate Stable(query: string) { RewrittenQuery(query) == Ok(query) }

  lemma StableIsFine(query: string)
    ensures Stable(query) <==> FinePieces(Split(query, QUOTE), true)
  {
    var parts := Split(query, QUOTE);
    JoinSplit(query, QUOTE);
    if FinePieces(parts, true) { FineIsFixed(parts); }
    if Stable(query) {
      NormalizeKeepsParity(parts);
      NormalizeMakesFine(parts);
      RewrittenPieces(parts, Normalize, true);
    }
  }

  // ---------------------------------------------------------------------------------------
  // The pieces of a guarded query
  // ---------------------------------------------------------------------------------------

  const OPEN: string := "[@id!="

  /** The text behind the last quote. */
  function LastPart(head: string): string { var parts := Split(head, QUOTE); parts[|parts| - 1] }

  /** The guard splits the piece that it is put in. */
  ghost predicate Splits(ps: seq<string>, gs: seq<string>, front: seq<string>, h: string, t: string, back: seq<string>) {
    && ps == front + [h + t] + back
    && gs == front + [h + OPEN, "", "]" + t] + back
  }

  lemma GlueOne(p: seq<string>, x: string, back: seq<string>)
    requires p != []
    ensures Glue(p, [x] + back) == p[..|p| - 1] + [p[|p| - 1] + x] + back
  {
    assert ([x] + back)[1..] == back;
  }

  lemma SlashStarts(rest: string) returns (t: string, back: seq<string>)
    requires rest != "" && rest[0] == '/'
    ensures Split(rest, QUOTE) == [t] + back && t != "" && t[0] == '/'
  {
    t, back := ['/'] + Split(rest[1..], QUOTE)[0], Split(rest[1..], QUOTE)[1..];
  }

  /** Splitting a text with the guard put in. */
  lemma SplitGuarded(head: string, rest: string)
    ensures Split(head + OPEN + [QUOTE] + ([QUOTE] + rest), QUOTE) == Split(head + OPEN, QUOTE) + ([""] + Split(rest, QUOTE))
  {
    SplitAcross(head + OPEN, [QUOTE] + rest, QUOTE);
    SplitCons(QUOTE, rest, QUOTE);
  }

  lemma GuardText(head: string, rest: string)
    ensures head + GUARD + rest == head + OPEN + [QUOTE] + ([QUOTE] + ("]" + rest))
  {
    assert GUARD == OPEN + [QUOTE] + [QUOTE] + "]";
  }

  lemma SplitOpen(head: string)
    ensures var p := Split(head, QUOTE); Split(head + OPEN, QUOTE) == p[..|p| - 1] + [p[|p| - 1] + OPEN]
  {
    SplitConcat(head, OPEN, QUOTE);
    SplitFree(OPEN, QUOTE);
    GlueOne(Split(head, QUOTE), OPEN, []);
  }

  lemma GuardSplits(head: string, rest: string, t: string, back: seq<string>)
    requires Split(rest, QUOTE) == [t] + back
    ensures var p := Split(head, QUOTE);
            Splits(Split(head + rest, QUOTE), Split(head + GUARD + rest, QUOTE), p[..|p| - 1], p[|p| - 1], t, back)
  {
    var p := Split(head, QUOTE);
    SplitConcat(head, rest, QUOTE);
    GlueOne(p, t, back);
    GuardText(head, rest);
    SplitGuarded(head, "]" + rest);
    SplitOpen(head);
    SplitConcat("]", rest, QUOTE);
    SplitFree("]", QUOTE);
    GlueOne(["]"], t, back);
    Regrouped(p[..|p| - 1], p[|p| - 1] + OPEN, "]" + t, back);
  }

  lemma Regrouped(front: seq<string>, x: string, y: string, back: seq<string>)
    ensures front + [x] + ([""] + ([y] + back)) == front + [x, "", y] + back
  {
  }

  lemma SplitsKeepsFine(ps: seq<string>, gs: seq<string>, front: seq<string>, h: string, t: string, back: seq<string>)
    requires Splits(ps, gs, front, h, t, back) && FinePieces(ps, true)
    ensures |front| % 2 == 0 ==> Fine(h + t)
    ensures FinePieces(gs, true) <==> (|front| % 2 == 0 ==> Fine(h + OPEN) && Fine("]" + t))
  {
    var n := |front|;
    if n % 2 == 0 { assert Turn(n, true) && ps[n] == h + t; }
    if FinePieces(gs, true) && n % 2 == 0 {
      assert Turn(n, true) && gs[n] == h + OPEN;
      assert Turn(n + 2, true) && gs[n + 2] == "]" + t;
    }
    if n % 2 == 0 ==> Fine(h + OPEN) && Fine("]" + t) {
      forall k | 0 <= k < |gs| && Turn(k, true)
        ensures Fine(gs[k])
      {
        if k < n {
          assert gs[k] == ps[k];
        } else if k == n + 1 {
          EmptyIsFine();
        } else if k > n + 2 {
          assert gs[k] == ps[k - 2] && Turn(k - 2, true);
        }
      }
    }
  }

  lemma EmptyIsFine()
    ensures Fine("")
  {
  }

  // ---------------------------------------------------------------------------------------
  // Patterns around the guard
  // ---------------------------------------------------------------------------------------

  lemma MatchInFront(rule: Rule, s: string, c: string, p: nat, j: nat)
    requires Matches(rule, s + c, p, j) && j < |s| && EndsAt(rule, s, j)
    ensures Matches(rule, s, p, j)
  {
    assert forall k | 0 <= k < |s| :: (s + c)[k] == s[k];
  }

  lemma MatchBehind(rule: Rule, c: char, s: string, p: nat, j: nat)
    requires Matches(rule, [c] + s, p, j) && p > 0
    ensures Matches(rule, s, p - 1, j - 1)
  {
    var t := [c] + s;
    var w := LeadAt(rule, t, p);
    BoolBehind(c, s, p - 1);
    BoolBehind(c, s, j - 1);
    assert t[p] == s[p - 1] && t[j] == s[j - 1];
    assert LeadAt(rule, s, p - 1) == w;
    assert t[p + w] == s[p - 1 + w];
    forall k | p + w <= k < j - 1
      ensures IsName(s[k])
    {
      assert t[k + 1] == s[k];
    }
  }

  lemma BoolBehind(c: char, s: string, i: nat)
    ensures BoolAt([c] + s, i + 1) == BoolAt(s, i)
  {
  }

  /** What is in front of the guard ends in a boolean operator and a name. */
  ghost predicate EndsInOperand(h: string) { Live(AfterBool, h + "[", |h|) }

  lemma OpenMatch(rule: Rule, h: string, p: nat, j: nat)
    requires '/' !in h && '[' !in h && Settled(rule, h) && Matches(rule, h + OPEN, p, j)
    ensures rule == AfterBool && j == |h|
  {
    var s := h + OPEN;
    assert forall k | 0 <= k < |h| :: s[k] == h[k];
    assert forall k | |h| <= k < |s| :: s[k] == OPEN[k - |h|];
    if j < |h| && EndsAt(rule, h, j) {
      MatchInFront(rule, h, OPEN, p, j);
      assert Live(rule, h, j);
    }
    assert s[|h|] == '[' && s[|h| + 1] == '@';
  }

  lemma OperandMatch(h: string, p: nat)
    ensures Matches(AfterBool, h + OPEN, p, |h|) <==> Matches(AfterBool, h + "[", p, |h|)
  {
    assert h + OPEN == h + "[" + "@id!=";
    assert forall k | 0 <= k <= |h| :: (h + OPEN)[k] == (h + "[")[k];
  }

  /** The text in front of the guard stays in normal form unless it ends in an operand. */
  lemma FrontExactly(h: string)
    requires Fine(h) && '/' !in h && '[' !in h
    ensures Fine(h + OPEN) <==> !EndsInOperand(h)
  {
    var s := h + OPEN;
    assert '/' !in s;
    if EndsInOperand(h) {
      var p :| 0 <= p < |h| && Matches(AfterBool, h + "[", p, |h|);
      OperandMatch(h, p);
      assert Live(AfterBool, s, |h|);
      assert !Settled(AfterBool, s);
    } else {
      forall rule, j: nat
        ensures !Live(rule, s, j)
      {
        forall p | 0 <= p < j
          ensures !Matches(rule, s, p, j)
        {
          if Matches(rule, s, p, j) {
            OpenMatch(rule, h, p, j);
            OperandMatch(h, p);
          }
        }
      }
      forall rule
        ensures Settled(rule, s)
      {
      }
    }
  }

  /** The text behind the guard stays in normal form. */
  lemma BackIsFine(t: string)
    requires Fine(t) && t != "" && t[0] == '/'
    ensures Fine("]" + t)
  {
    var s := [']'] + t;
    assert s[0] == ']' && s[1] == '/';
    forall p | 0 <= p < |s|
      ensures !IdAt(s, p) && !SlashesAt(s, p)
    {
      if p > 0 { assert !IdAt(t, p - 1) && !SlashesAt(t, p - 1); }
    }
    forall rule
      ensures Settled(rule, s)
    {
      forall j: nat, p | 0 <= p < j
        ensures !Matches(rule, s, p, j)
      {
        if p > 0 {
          assert Settled(rule, t);
          assert !Live(rule, t, j - 1);
          if Matches(rule, s, p, j) { MatchBehind(rule, ']', t, p, j); }
        }
      }
    }
  }

  // ---------------------------------------------------------------------------------------
  // The guard and the normal form
  // ---------------------------------------------------------------------------------------

  /** The text ends outside quotes, in a boolean operator and a name. */
  ghost predicate ClashesBehind(head: string) { Quotes(head) % 2 == 0 && EndsInOperand(LastPart(head)) }

  /** The guard goes outside quotes, behind a boolean operator and a name. */
  ghost predicate GuardClashes(query: string) { NeedsGuard(query) && ClashesBehind(query[..FirstSlash(query)]) }

  lemma LastPartWithin(head: string)
    ensures forall c: char | c !in head :: c !in LastPart(head)
  {
    var parts := Split(head, QUOTE);
    JoinSplit(head, QUOTE);
    var a, c := JoinPiece(parts, |parts| - 1, QUOTE);
    assert head == a + parts[|parts| - 1] + c;
  }

  /** Guarding a rewritten query keeps it in normal form, so that rewriting it once more would change
      nothing, exactly when the guard does not go behind an operand of a boolean operator. */
  lemma GuardKeepsNormalFormExactly(query: string)
    requires Stable(query)
    ensures Stable(Guarded(query)) <==> !GuardClashes(query)
  {
    if NeedsGuard(query) {
      var k := FirstSlash(query);
      FirstSlashSplits(query, k);
      StableIsFine(query);
      StableIsFine(Guarded(query));
      HeadOf(query, k);
      GuardInserted(query, Guarded(query), query[..k], query[k..]);
    }
  }

  lemma HeadOf(query: string, k: nat)
    requires k <= |query| && '[' !in query
    ensures query == query[..k] + query[k..] && '[' !in query[..k]
  {
  }

  lemma GuardInserted(query: string, guarded: string, head: string, rest: string)
    requires query == head + rest && guarded == head + GUARD + rest && rest != "" && rest[0] == '/'
    requires FinePieces(Split(query, QUOTE), true) && '/' !in head && '[' !in head
    ensures FinePieces(Split(guarded, QUOTE), true) <==> !ClashesBehind(head)
  {
    var parts, h := Split(head, QUOTE), LastPart(head);
    var t, back := SlashStarts(rest);
    GuardSplits(head, rest, t, back);
    SplitsKeepsFine(Split(query, QUOTE), Split(guarded, QUOTE), parts[..|parts| - 1], h, t, back);
    if Quotes(head) % 2 == 0 {
      LastPartWithin(head);
      AroundGuard(h, t);
    }
  }

  lemma AroundGuard(h: string, t: string)
    requires Fine(h + t) && '/' !in h && '[' !in h && t != "" && t[0] == '/'
    ensures Fine("]" + t) && (Fine(h + OPEN) <==> !EndsInOperand(h))
  {
    assert h + t == "" + h + t && h + t == h + t + "";
    SubstringKeepsFine("", h, t);
    SubstringKeepsFine(h, t, "");
    FrontExactly(h);
    BackIsFine(t);
  }

  /** The two steps of the constructor together. */
  lemma RewriteThenGuard(query: string)
    requires RewrittenQuery(query).Ok?
    ensures var q := RewrittenQuery(query).value; Stable(Guarded(q)) <==> !GuardClashes(q)
  {
    RewriteQueryIdempotent(query);
    GuardKeepsNormalFormExactly(RewrittenQuery(query).value);
  }

  /** Rewriting leaves `x or ab/c` alone, but not when it has been guarded. */
  lemma OperandExample()
    ensures Stable("x or ab/c") && !Stable(Guarded("x or ab/c"))
  {
    OperandStable("x or ab/c");
    OperandClashes("x or ab/c");
    GuardKeepsNormalFormExactly("x or ab/c");
  }

  lemma OperandClashes(query: string)
    requires query == "x or ab/c"
    ensures GuardClashes(query)
  {
    var head := "x or ab";
    assert query[7] == '/';
    assert FirstSlash(query) == 7;
    assert query[..7] == head;
    SplitFree(head, QUOTE);
    OperandMatches();
  }

  lemma OperandMatches()
    ensures EndsInOperand("x or ab")
  {
    var s := "x or ab" + "[";
    assert BoolAt(s, 1) == 4 && s[7] == '[';
    assert Matches(AfterBool, s, 1, 7);
  }

  lemma OperandStable(query: string)
    requires query == "x or ab/c"
    ensures Stable(query)
  {
    forall rule, p: nat, j: nat
      ensures !Matches(rule, query, p, j)
    {
      NoOperandMatch(rule, query, p, j);
    }
    assert forall rule :: Settled(rule, query);
    SplitFree(query, QUOTE);
    StableIsFine(query);
  }

  lemma NoOperandMatch(rule: Rule, query: string, p: nat, j: nat)
    requires query == "x or ab/c"
    ensures !Matches(rule, query, p, j)
  {
    if j < |query| && EndsAt(rule, query, j) {
      assert query[j] == ' ';
      assert j == 1 || j == 4;
      assert BoolAt(query, p) > 0 ==> p == 1;
    }
  }
}
