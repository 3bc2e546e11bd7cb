/** The rewrite loops of the query constructor (query.cpp): a numeric step becomes an id selector,
    and `/text()` is hacked in after the names that predicates compare.  Each loop replaces the
    leftmost match of a pattern until there is none. */
module Rewriting {
  import opened Wrappers
  import opened Strings

  /** [a-z0-9_/] */
  predicate IsName(c: char) { 'a' <= c <= 'z' || '0' <= c <= '9' || c == '_' || c == '/' }

  /** [_a-z] */
  predicate IsNameStart(c: char) { 'a' <= c <= 'z' || c == '_' }

  const TEXT: string := "/text()"

  /** The four patterns that insert `/text()`:
      \[([_a-z])([a-z0-9_/]+)([^(a-z0-9_/])
      ' '(or|and)' '([_a-z])([a-z0-9_/]+)([^(a-z0-9_/])
      ([^@])([_a-z])([0-9a-z_/]+)' '(or|and)' '
      ([^@])([_a-z])([0-9a-z_/]+)\] */
  datatype Rule = Bracket | AfterBool | BeforeBool | BeforeClose

  /** The length of ` or ` or ` and ` at position i, or zero. */
  function BoolAt(s: string, i: nat): (w: nat)
    ensures w > 0 ==> i + w <= |s| && s[i] == ' ' && s[i + w - 1] == ' '
  {
    if i + 4 <= |s| && s[i] == ' ' && s[i + 1] == 'o' && s[i + 2] == 'r' && s[i + 3] == ' ' then 4
    else if i + 5 <= |s| && s[i] == ' ' && s[i + 1] == 'a' && s[i + 2] == 'n' && s[i + 3] == 'd' && s[i + 4] == ' ' then 5
    else 0
  }

  predicate AllNames(s: string, from: nat, to: nat)
    requires to <= |s|
  {
    forall k | from <= k < to :: IsName(s[k])
  }

  /** The length of what a pattern matches before the name: a bracket, a boolean operator, or one
      character other than '@'; zero if that does not match. */
  function LeadAt(rule: Rule, s: string, p: nat): (w: nat)
    ensures w > 0 ==> p + w <= |s|
  {
    if p >= |s| then 0
    else match rule
      case Bracket => if s[p] == '[' then 1 else 0
      case AfterBool => BoolAt(s, p)
      case BeforeBool => if s[p] != '@' then 1 else 0
      case BeforeClose => if s[p] != '@' then 1 else 0
  }

  /** Whether a pattern can go on at position j, where the name ends. */
  predicate EndsAt(rule: Rule, s: string, j: nat)
    requires j < |s|
  {
    match rule
    case Bracket => s[j] != '(' && !IsName(s[j])
    case AfterBool => s[j] != '(' && !IsName(s[j])
    case BeforeBool => BoolAt(s, j) > 0
    case BeforeClose => s[j] == ']'
  }

  /** The pattern can match at p with the name ending at j, for whatever split of the name a
      backtracking matcher tries. */
  predicate Matches(rule: Rule, s: string, p: nat, j: nat) {
    var w := LeadAt(rule, s, p);
    w > 0 && p + w + 2 <= j < |s| && IsNameStart(s[p + w]) && AllNames(s, p + w + 1, j) && EndsAt(rule, s, j)
  }

  predicate Live(rule: Rule, s: string, j: nat) { exists p | 0 <= p < j :: Matches(rule, s, p, j) }

  // ---------------------------------------------------------------------------------------
  // Searching
  // ---------------------------------------------------------------------------------------

  function NameEnd(s: string, i: nat): (j: nat)
    requires i <= |s|
    ensures i <= j <= |s| && AllNames(s, i, j)
    ensures j < |s| ==> !IsName(s[j])
    decreases |s| - i
  {
    if i < |s| && IsName(s[i]) then NameEnd(s, i + 1) else i
  }

  /** The greedy matcher: the name runs as far as it can. */
  function MatchEnd(rule: Rule, s: string, p: nat): Option<nat> {
    var w := LeadAt(rule, s, p);
    if w == 0 || p + w >= |s| then None
    else var j := NameEnd(s, p + w); if Matches(rule, s, p, j) then Some(j) else None
  }

  lemma EndIsNoName(rule: Rule, s: string, j: nat)
    requires j < |s| && EndsAt(rule, s, j)
    ensures !IsName(s[j]) && s[j] != '('
  {
  }

  lemma {:induction false} NameEndUnique(s: string, i: nat, j: nat)
    requires i <= j < |s| && AllNames(s, i, j) && !IsName(s[j])
    ensures NameEnd(s, i) == j
    decreases j - i
  {
    if i < j { NameEndUnique(s, i + 1, j); }
  }

  /** What the guard against attribute names achieves in the last two patterns: a name after an '@'
      is spared exactly when no character but its first and its last is a letter or an underscore,
      because the pattern can also take the start of the name for the character before it. */
  lemma AtGuardExactly(rule: Rule, s: string, a: nat, j: nat)
    requires rule == BeforeBool || rule == BeforeClose
    requires a < j < |s| && s[a] == '@' && AllNames(s, a + 1, j) && EndsAt(rule, s, j)
    ensures Live(rule, s, j) <==> exists k :: a + 2 <= k < j - 1 && IsNameStart(s[k])
  {
    if Live(rule, s, j) {
      var p :| 0 <= p < j && Matches(rule, s, p, j);
      assert p != a;
      assert p + 1 >= a + 2 && IsNameStart(s[p + 1]);
    }
    if k :| a + 2 <= k < j - 1 && IsNameStart(s[k]) {
      assert IsName(s[k - 1]);
      assert Matches(rule, s, k - 1, j);
    }
  }

  /** The guard spares `@ab` and `@a12`, but not `@abc`. */
  lemma AtGuardFails()
    ensures !Live(BeforeClose, "@ab]", 3) && !Live(BeforeClose, "@a12]", 4) && Live(BeforeClose, "@abc]", 4)
  {
    AtGuardExactly(BeforeClose, "@ab]", 0, 3);
    AtGuardExactly(BeforeClose, "@a12]", 0, 4);
    AtGuardExactly(BeforeClose, "@abc]", 0, 4);
    assert IsNameStart("@abc]"[2]);
  }

  /** Greedy matching loses nothing: what can follow a name is never part of one, so giving back
      characters cannot make a pattern match. */
  lemma MunchIsExact(rule: Rule, s: string, p: nat, j: nat)
    ensures MatchEnd(rule, s, p) == Some(j) <==> Matches(rule, s, p, j)
  {
    if Matches(rule, s, p, j) {
      EndIsNoName(rule, s, j);
      NameEndUnique(s, p + LeadAt(rule, s, p), j);
    }
  }

  /** The pattern cannot match at p. */
  ghost predicate Dead(rule: Rule, s: string, p: nat) { forall j: nat :: !Matches(rule, s, p, j) }

  /** The leftmost match from p on, and where its name ends. */
  function FindFrom(rule: Rule, s: string, p: nat): (m: Option<(nat, nat)>)
    ensures m.None? ==> forall r | p <= r < |s| :: Dead(rule, s, r)
    ensures m.Some? ==> p <= m.value.0 < |s| && Matches(rule, s, m.value.0, m.value.1)
    ensures m.Some? ==> forall r | p <= r < m.value.0 :: Dead(rule, s, r)
    decreases |s| - p
  {
    if p >= |s| then None
    else match MatchEnd(rule, s, p)
      case Some(j) => Some((p, j))
      case None => NoMatchIsDead(rule, s, p); FindFrom(rule, s, p + 1)
  }

  lemma NoMatchIsDead(rule: Rule, s: string, p: nat)
    requires MatchEnd(rule, s, p).None?
    ensures Dead(rule, s, p)
  {
    forall j: nat
      ensures !Matches(rule, s, p, j)
    {
      MunchIsExact(rule, s, p, j);
    }
  }

  // ---------------------------------------------------------------------------------------
  // Inserting
  // ---------------------------------------------------------------------------------------

  function Insert(s: string, j: nat): (t: string)
    requires j <= |s|
    ensures |t| == |s| + 7
    ensures forall k | 0 <= k < j :: t[k] == s[k]
    ensures forall k | j <= k < |s| :: t[k + 7] == s[k]
    ensures t[j] == '/' && t[j + 5] == '(' && t[j + 6] == ')'
    ensures t[j + 1] == 't' && t[j + 2] == 'e' && t[j + 3] == 'x' && t[j + 4] == 't'
  {
    s[..j] + TEXT + s[j..]
  }

  /** A place where any of the patterns may insert: a name ends, and no parenthesis opens. */
  predicate Cut(s: string, j: nat) { 0 < j < |s| && IsName(s[j - 1]) && !IsName(s[j]) && s[j] != '(' }

  lemma LiveIsCut(rule: Rule, s: string, p: nat, j: nat)
    requires Matches(rule, s, p, j)
    ensures Cut(s, j)
  {
    EndIsNoName(rule, s, j);
  }

  /** A boolean operator of the longer text is one of the shorter text, at its own place. */
  lemma BoolBack(s: string, j: nat, i: nat)
    requires Cut(s, j) && BoolAt(Insert(s, j), i) > 0
    ensures i < j ==> BoolAt(s, i) == BoolAt(Insert(s, j), i) <= j - i
    ensures i >= j ==> i >= j + 7 && BoolAt(s, i - 7) == BoolAt(Insert(s, j), i)
  {
    var t := Insert(s, j);
  }

  /** Matches of the longer text are matches of the shorter one: an insertion creates none. */
  lemma MatchBack(rule: Rule, s: string, j: nat, p: nat, i: nat)
    requires Cut(s, j) && Matches(rule, Insert(s, j), p, i)
    ensures i < j ==> Matches(rule, s, p, i)
    ensures i >= j ==> i > j + 7 && p >= j + 7 && Matches(rule, s, p - 7, i - 7)
  {
    EndIsNoName(rule, Insert(s, j), i);
    if i < j { MatchBefore(rule, s, j, p, i); } else { MatchAfter(rule, s, j, p, i); }
  }

  lemma MatchBefore(rule: Rule, s: string, j: nat, p: nat, i: nat)
    requires Cut(s, j) && Matches(rule, Insert(s, j), p, i) && i < j
    ensures Matches(rule, s, p, i)
  {
    var t := Insert(s, j);
    if rule == AfterBool { BoolBack(s, j, p); }
    if rule == BeforeBool { BoolBack(s, j, i); }
    assert forall k | p <= k <= i :: t[k] == s[k];
  }

  lemma MatchAfter(rule: Rule, s: string, j: nat, p: nat, i: nat)
    requires Cut(s, j) && Matches(rule, Insert(s, j), p, i) && i >= j && !IsName(Insert(s, j)[i])
    ensures i > j + 7 && p >= j + 7 && Matches(rule, s, p - 7, i - 7)
  {
    var t := Insert(s, j);
    var w := LeadAt(rule, t, p);
    assert IsName(t[i - 1]);
    if rule == AfterBool { BoolBack(s, j, p); }
    if rule == BeforeBool { BoolBack(s, j, i); }
    assert i > j + 7;
    assert !IsName(t[j + 6]) && !IsName(t[j + 7]);
    assert p + w >= j + 8;
    assert forall k | p <= k <= i :: t[k] == s[k - 7];
  }

  /** Where position i of the shorter text is after the insertion at j. */
  function Moved(i: nat, j: nat): nat { if i < j then i else i + 7 }

  lemma LiveBack(rule: Rule, s: string, j: nat, i: nat)
    requires Cut(s, j) && Live(rule, Insert(s, j), i)
    ensures i < j ==> Live(rule, s, i)
    ensures i >= j ==> i > j + 7 && Live(rule, s, i - 7)
  {
    var p :| 0 <= p < i && Matches(rule, Insert(s, j), p, i);
    MatchBack(rule, s, j, p, i);
    if i >= j { assert Matches(rule, s, p - 7, i - 7); }
  }

  // ---------------------------------------------------------------------------------------
  // Counting the places that are left
  // ---------------------------------------------------------------------------------------

  /** How many of the first n positions a pattern would insert at. */
  function CountLive(rule: Rule, s: string, n: nat): nat {
    if n == 0 then 0 else CountLive(rule, s, n - 1) + if Live(rule, s, n - 1) then 1 else 0
  }

  function LiveCount(rule: Rule, s: string): nat { CountLive(rule, s, |s|) }

  lemma {:induction false} CountFlat(rule: Rule, s: string, a: nat, b: nat)
    requires a <= b && forall i | a <= i < b :: !Live(rule, s, i)
    ensures CountLive(rule, s, b) == CountLive(rule, s, a)
    decreases b - a
  {
    if a < b { CountFlat(rule, s, a, b - 1); }
  }

  lemma NoneInserted(rule: Rule, s: string, j: nat)
    requires Cut(s, j)
    ensures CountLive(rule, Insert(s, j), j + 8) == CountLive(rule, Insert(s, j), j)
  {
    forall k | j <= k < j + 8
      ensures !Live(rule, Insert(s, j), k)
    {
      if Live(rule, Insert(s, j), k) { LiveBack(rule, s, j, k); }
    }
    CountFlat(rule, Insert(s, j), j, j + 8);
  }

  /** The insertion at j destroys no other live place. */
  ghost predicate Spares(rule: Rule, s: string, j: nat)
    requires j <= |s|
  {
    forall i: nat | i != j && Live(rule, s, i) :: Live(rule, Insert(s, j), Moved(i, j))
  }

  lemma LiveElsewhere(rule: Rule, s: string, j: nat, i: nat, i': nat)
    requires Cut(s, j) && i != j && i' == Moved(i, j)
    ensures Live(rule, Insert(s, j), i') ==> Live(rule, s, i)
    ensures Spares(rule, s, j) && Live(rule, s, i) ==> Live(rule, Insert(s, j), i')
  {
    if Live(rule, Insert(s, j), i') { LiveBack(rule, s, j, i'); }
  }

  lemma CountStep(rule: Rule, s: string, n: nat)
    ensures CountLive(rule, s, n + 1) == CountLive(rule, s, n) + if Live(rule, s, n) then 1 else 0
  {
  }

  lemma {:induction false} CountUpTo(rule: Rule, s: string, j: nat, n: nat)
    requires Cut(s, j) && n <= j
    ensures CountLive(rule, Insert(s, j), n) <= CountLive(rule, s, n)
    ensures Spares(rule, s, j) ==> CountLive(rule, Insert(s, j), n) == CountLive(rule, s, n)
  {
    if n > 0 {
      CountUpTo(rule, s, j, n - 1);
      LiveElsewhere(rule, s, j, n - 1, n - 1);
    }
  }

  /** What is counted beyond the insertion, after and before it. */
  ghost predicate CountsBeyond(rule: Rule, s: string, t: string, j: nat, n: nat, exact: bool)
    requires j < n
  {
    var after, before := CountLive(rule, t, n + 7) - CountLive(rule, t, j + 8), CountLive(rule, s, n) - CountLive(rule, s, j + 1);
    after <= before && (exact ==> after == before)
  }

  /** Whether position i is live is decided, at most, by whether it was live before the insertion. */
  ghost predicate Follows(rule: Rule, s: string, t: string, i: nat, exact: bool) {
    (Live(rule, t, i + 7) ==> Live(rule, s, i)) && (exact && Live(rule, s, i) ==> Live(rule, t, i + 7))
  }

  lemma CountsBeyondStep(rule: Rule, s: string, t: string, j: nat, n: nat, exact: bool)
    requires j < n && CountsBeyond(rule, s, t, j, n, exact) && Follows(rule, s, t, n, exact)
    ensures CountsBeyond(rule, s, t, j, n + 1, exact)
  {
    CountStep(rule, t, n + 7);
    CountStep(rule, s, n);
  }

  lemma {:induction false} CountBeyond(rule: Rule, s: string, t: string, j: nat, n: nat, exact: bool)
    requires j < n && forall i: nat | j < i :: Follows(rule, s, t, i, exact)
    ensures CountsBeyond(rule, s, t, j, n, exact)
  {
    if n > j + 1 {
      CountBeyond(rule, s, t, j, n - 1, exact);
      CountsBeyondStep(rule, s, t, j, n - 1, exact);
    }
  }

  /** An insertion at a live place takes that place off the count and adds none; it leaves exactly
      the others when it spares them. */
  lemma CountAfter(rule: Rule, s: string, j: nat)
    requires Cut(s, j) && Live(rule, s, j)
    ensures LiveCount(rule, Insert(s, j)) < LiveCount(rule, s)
    ensures Spares(rule, s, j) ==> LiveCount(rule, Insert(s, j)) == LiveCount(rule, s) - 1
  {
    CountUpTo(rule, s, j, j);
    NoneInserted(rule, s, j);
    forall i: nat | j < i
      ensures Follows(rule, s, Insert(s, j), i, Spares(rule, s, j))
    {
      LiveElsewhere(rule, s, j, i, i + 7);
    }
    CountBeyond(rule, s, Insert(s, j), j, |s|, Spares(rule, s, j));
    CountStep(rule, s, j);
  }

  lemma InsertProgress(rule: Rule, s: string, p: nat, j: nat)
    requires Matches(rule, s, p, j)
    ensures LiveCount(rule, Insert(s, j)) < LiveCount(rule, s)
  {
    LiveIsCut(rule, s, p, j);
    assert Live(rule, s, j);
    CountAfter(rule, s, j);
  }

  // ---------------------------------------------------------------------------------------
  // The loop
  // ---------------------------------------------------------------------------------------

  /** Replacing until nothing matches. */
  function Rewrite(rule: Rule, s: string): string
    decreases LiveCount(rule, s)
  {
    match FindFrom(rule, s, 0)
    case None => s
    case Some((p, j)) => InsertProgress(rule, s, p, j); Rewrite(rule, Insert(s, j))
  }

  /** The pattern matches nowhere. */
  ghost predicate Settled(rule: Rule, s: string) { forall j: nat :: !Live(rule, s, j) }

  lemma NoneIsSettled(rule: Rule, s: string)
    requires FindFrom(rule, s, 0).None?
    ensures Settled(rule, s)
  {
    forall j: nat
      ensures !Live(rule, s, j)
    {
      forall p | 0 <= p < j
        ensures !Matches(rule, s, p, j)
      {
        if p < |s| { assert Dead(rule, s, p); }
      }
    }
  }

  // The patterns as they are written.

  ghost predicate NameChar(c: char) { 'a' <= c <= 'z' || '0' <= c <= '9' || c == '_' || c == '/' }

  ghost predicate NameText(name: string) {
    && |name| >= 2 && ('a' <= name[0] <= 'z' || name[0] == '_')
    && forall k | 1 <= k < |name| :: NameChar(name[k])
  }

  ghost predicate Operator(s: string) { s == " or " || s == " and " }

  /** These three texts match the parts of the pattern. */
  ghost predicate IsPattern(rule: Rule, lead: string, name: string, end: string) {
    NameText(name) &&
    match rule
    case Bracket => lead == "[" && |end| == 1 && end != "(" && !NameChar(end[0])
    case AfterBool => Operator(lead) && |end| == 1 && end != "(" && !NameChar(end[0])
    case BeforeBool => |lead| == 1 && lead != "@" && Operator(end)
    case BeforeClose => |lead| == 1 && lead != "@" && end == "]"
  }

  /** They do in this place of the text. */
  ghost predicate PatternIn(rule: Rule, s: string, a: string, lead: string, name: string, end: string, b: string) {
    s == a + lead + name + end + b && IsPattern(rule, lead, name, end)
  }

  lemma OperatorMeaning(s: string, i: nat, x: string)
    requires i + |x| <= |s| && x == s[i..i + |x|]
    ensures Operator(x) ==> BoolAt(s, i) == |x|
    ensures BoolAt(s, i) == |x| && |x| > 0 ==> Operator(x)
  {
    if |x| == 4 { assert x == " or " <==> x[0] == ' ' && x[1] == 'o' && x[2] == 'r' && x[3] == ' '; }
    if |x| == 5 { assert x == " and " <==> x[0] == ' ' && x[1] == 'a' && x[2] == 'n' && x[3] == 'd' && x[4] == ' '; }
  }

  lemma PatternMatches(rule: Rule, s: string, a: string, lead: string, name: string, end: string, b: string)
    requires PatternIn(rule, s, a, lead, name, end, b)
    ensures Matches(rule, s, |a|, |a| + |lead| + |name|)
  {
    var p, q, j := |a|, |a| + |lead|, |a| + |lead| + |name|;
    assert s[p..q] == lead && s[q..j] == name && s[j..j + |end|] == end;
    assert s[p] == lead[0] && s[j] == end[0];
    if rule == AfterBool { OperatorMeaning(s, p, lead); }
    if rule == BeforeBool { OperatorMeaning(s, j, end); }
    assert forall k | q <= k < j :: s[k] == name[k - q];
  }

  lemma MatchIsPattern(rule: Rule, s: string, p: nat, j: nat) returns (a: string, lead: string, name: string, end: string, b: string)
    requires Matches(rule, s, p, j)
    ensures PatternIn(rule, s, a, lead, name, end, b) && |a| == p && |a| + |lead| + |name| == j
  {
    var q := p + LeadAt(rule, s, p);
    var e := if rule == BeforeBool then j + BoolAt(s, j) else j + 1;
    a, lead, name, end, b := s[..p], s[p..q], s[q..j], s[j..e], s[e..];
    if rule == AfterBool { OperatorMeaning(s, p, lead); }
    if rule == BeforeBool { OperatorMeaning(s, j, end); }
    assert forall k | 0 <= k < |name| :: name[k] == s[q + k];
    assert lead[0] == s[p] && end[0] == s[j];
  }

  /** `RE(pattern).Replace(rewrite, &part)`: puts `/text()` behind the name of the first match, if
      there is one. */
  method ReplaceFirst(rule: Rule, s: string) returns (replaced: bool, t: string)
    ensures !replaced ==> t == s && forall a, lead, name, end, b :: !PatternIn(rule, s, a, lead, name, end, b)
    ensures replaced ==> exists a, lead, name, end, b ::
              && PatternIn(rule, s, a, lead, name, end, b) && t == a + lead + name + "/text()" + end + b
              && forall a', lead', name', end', b' | PatternIn(rule, s, a', lead', name', end', b') :: |a| <= |a'|
    ensures !replaced ==> t == s && Settled(rule, s)
    ensures replaced ==> exists p: nat, j: nat | Matches(rule, s, p, j) :: t == Insert(s, j) && forall r | 0 <= r < p :: Dead(rule, s, r)
    ensures Rewrite(rule, t) == Rewrite(rule, s)
    ensures replaced ==> LiveCount(rule, t) < LiveCount(rule, s)
  {
    match FindFrom(rule, s, 0) {
      case None =>
        NoneIsSettled(rule, s);
        NoPattern(rule, s);
        return false, s;
      case Some((p, j)) =>
        InsertProgress(rule, s, p, j);
        FirstPattern(rule, s, p, j);
        return true, Insert(s, j);
    }
  }

  lemma NoPattern(rule: Rule, s: string)
    requires Settled(rule, s)
    ensures forall a, lead, name, end, b :: !PatternIn(rule, s, a, lead, name, end, b)
  {
    forall a, lead, name, end, b
      ensures !PatternIn(rule, s, a, lead, name, end, b)
    {
      assert !Live(rule, s, |a| + |lead| + |name|);
      if PatternIn(rule, s, a, lead, name, end, b) { PatternMatches(rule, s, a, lead, name, end, b); }
    }
  }

  lemma FirstPattern(rule: Rule, s: string, p: nat, j: nat)
    requires Matches(rule, s, p, j) && forall r | 0 <= r < p :: Dead(rule, s, r)
    ensures exists a, lead, name, end, b ::
              && PatternIn(rule, s, a, lead, name, end, b) && Insert(s, j) == a + lead + name + "/text()" + end + b
              && forall a', lead', name', end', b' | PatternIn(rule, s, a', lead', name', end', b') :: |a| <= |a'|
  {
    var a, lead, name, end, b := MatchIsPattern(rule, s, p, j);
    forall a', lead', name', end', b' | PatternIn(rule, s, a', lead', name', end', b')
      ensures |a| <= |a'|
    {
      assert |a'| < p ==> Dead(rule, s, |a'|);
      PatternMatches(rule, s, a', lead', name', end', b');
    }
    assert s[..j] == a + lead + name && s[j..] == end + b;
    assert Insert(s, j) == a + lead + name + "/text()" + end + b;
  }

  method RewriteLoop(rule: Rule, s: string) returns (t: string)
    ensures t == Rewrite(rule, s)
  {
    var replaced;
    replaced, t := ReplaceFirst(rule, s);
    while replaced
      invariant Rewrite(rule, t) == Rewrite(rule, s)
      invariant !replaced ==> Settled(rule, t)
      decreases if replaced then LiveCount(rule, t) + 1 else 0
    {
      replaced, t := ReplaceFirst(rule, t);
    }
    if FindFrom(rule, t, 0).Some? { assert Live(rule, t, FindFrom(rule, t, 0).value.1); }
  }

  // ---------------------------------------------------------------------------------------
  // What the loops achieve
  // ---------------------------------------------------------------------------------------

  lemma InsertKeepsSettled(other: Rule, s: string, j: nat)
    requires Cut(s, j) && Settled(other, s)
    ensures Settled(other, Insert(s, j))
  {
    forall i: nat
      ensures !Live(other, Insert(s, j), i)
    {
      if Live(other, Insert(s, j), i) { LiveBack(other, s, j, i); }
    }
  }

  /** A loop settles its own pattern and unsettles no other. */
  lemma {:induction false} RewriteSettles(rule: Rule, other: Rule, s: string)
    ensures Settled(rule, Rewrite(rule, s))
    ensures Settled(other, s) ==> Settled(other, Rewrite(rule, s))
    ensures Settled(rule, s) ==> Rewrite(rule, s) == s
    decreases LiveCount(rule, s)
  {
    match FindFrom(rule, s, 0)
    case None => NoneIsSettled(rule, s);
    case Some((p, j)) =>
      InsertProgress(rule, s, p, j);
      LiveIsCut(rule, s, p, j);
      assert Live(rule, s, j);
      if Settled(other, s) { InsertKeepsSettled(other, s, j); }
      RewriteSettles(rule, other, Insert(s, j));
  }

  // ---------------------------------------------------------------------------------------
  // What exactly is inserted
  // ---------------------------------------------------------------------------------------

  /** Matches to the right of the insertion are still there. */
  lemma MatchShifts(rule: Rule, s: string, j: nat, q: nat, i: nat)
    requires j <= q && j <= |s| && Matches(rule, s, q, i)
    ensures Matches(rule, Insert(s, j), q + 7, i + 7)
  {
    var t := Insert(s, j);
    BoolShifts(s, j, q);
    BoolShifts(s, j, i);
    assert forall k | q <= k <= i :: t[k + 7] == s[k];
    forall k | q + 7 + LeadAt(rule, s, q) + 1 <= k < i + 7
      ensures IsName(t[k])
    {
      assert t[k] == s[k - 7];
    }
  }

  lemma BoolShifts(s: string, j: nat, i: nat)
    requires j <= i && j <= |s|
    ensures BoolAt(Insert(s, j), i + 7) == BoolAt(s, i)
  {
  }

  /** Except for the pattern that starts with a boolean operator, an insertion at the leftmost match
      destroys no other match. */
  lemma LeftmostSpares(rule: Rule, s: string, p: nat, j: nat)
    requires rule != AfterBool && Matches(rule, s, p, j) && forall r | 0 <= r < p :: Dead(rule, s, r)
    ensures Spares(rule, s, j)
  {
    forall i: nat | i != j && Live(rule, s, i)
      ensures Live(rule, Insert(s, j), Moved(i, j))
    {
      var q :| 0 <= q < i && Matches(rule, s, q, i);
      assert j <= q && j < i by {
        assert !Dead(rule, s, q);
        assert p <= q;
        EndIsNoName(rule, s, i);
        EndIsNoName(rule, s, j);
      }
      MatchShifts(rule, s, j, q, i);
    }
  }

  /** The loops for brackets, and for names before an operator or a closing bracket, insert once
      at every place where the pattern matched in the beginning. */
  lemma {:induction false} RewriteLength(rule: Rule, s: string)
    ensures |Rewrite(rule, s)| <= |s| + 7 * LiveCount(rule, s)
    ensures rule != AfterBool ==> |Rewrite(rule, s)| == |s| + 7 * LiveCount(rule, s)
    decreases LiveCount(rule, s)
  {
    match FindFrom(rule, s, 0)
    case None =>
      NoneIsSettled(rule, s);
      CountFlat(rule, s, 0, |s|);
    case Some((p, j)) =>
      InsertProgress(rule, s, p, j);
      LiveIsCut(rule, s, p, j);
      assert Live(rule, s, j);
      CountAfter(rule, s, j);
      if rule != AfterBool { LeftmostSpares(rule, s, p, j); }
      RewriteLength(rule, Insert(s, j));
  }

  /** Two matches of a pattern overlap: the second starts before the name of the first one ends. */
  ghost predicate Overlapping(s: string, p: nat, j: nat, q: nat, i: nat) {
    Matches(AfterBool, s, p, j) && Matches(AfterBool, s, q, i) && p < q < j
  }

  ghost predicate HasOverlap(s: string) { exists p: nat, j: nat, q: nat, i: nat :: Overlapping(s, p, j, q, i) }

  lemma SameStart(rule: Rule, s: string, p: nat, j: nat, i: nat)
    requires Matches(rule, s, p, j) && Matches(rule, s, p, i)
    ensures i == j
  {
    MunchIsExact(rule, s, p, j);
    MunchIsExact(rule, s, p, i);
  }

  /** A name follows one operator only. */
  lemma OneOperator(s: string, q: nat, r: nat, i: nat)
    requires Matches(AfterBool, s, q, i) && q < r
    ensures !Matches(AfterBool, s, r, i)
  {
    var v, w := BoolAt(s, q), BoolAt(s, r);
    if w > 0 { assert s[q + v - 1] == ' ' && s[r + w - 1] == ' '; }
  }

  /** The second operator of an overlap is the name of the first one. */
  lemma InnerStart(s: string, p: nat, j: nat, q: nat, i: nat)
    requires Overlapping(s, p, j, q, i)
    ensures q == p + BoolAt(s, p) - 1 && i > j
  {
    var v, w := BoolAt(s, p), BoolAt(s, q);
    assert s[q] == ' ' && s[q + w - 1] == ' ';
    assert q == p + v - 1;
    assert j <= q + w - 1;
  }

  lemma DeadBeyond(s: string, j: nat, i: nat)
    requires Cut(s, j) && i >= j && forall r: nat | j <= r :: !Matches(AfterBool, s, r, i)
    ensures !Live(AfterBool, Insert(s, j), i + 7)
  {
    var t, k := Insert(s, j), i + 7;
    forall r | 0 <= r < k
      ensures !Matches(AfterBool, t, r, k)
    {
      OperatorBack(s, j, r, i);
    }
  }

  lemma OperatorBack(s: string, j: nat, r: nat, i: nat)
    requires Cut(s, j) && i >= j
    ensures Matches(AfterBool, Insert(s, j), r, i + 7) ==> r >= j + 7 && Matches(AfterBool, s, r - 7, i)
  {
    if Matches(AfterBool, Insert(s, j), r, i + 7) { MatchBack(AfterBool, s, j, r, i + 7); }
  }

  /** The insertion for the first match of an overlap destroys the second one. */
  lemma OverlapDestroys(s: string, p: nat, j: nat, q: nat, i: nat)
    requires Overlapping(s, p, j, q, i)
    ensures i > j && Live(AfterBool, s, i) && !Live(AfterBool, Insert(s, j), i + 7)
  {
    InnerStart(s, p, j, q, i);
    LiveIsCut(AfterBool, s, p, j);
    forall r: nat | j <= r
      ensures !Matches(AfterBool, s, r, i)
    {
      OneOperator(s, q, r, i);
    }
    DeadBeyond(s, j, i);
  }

  ghost predicate Leftmost(rule: Rule, s: string, p: nat, j: nat) {
    Matches(rule, s, p, j) && forall r | 0 <= r < p :: Dead(rule, s, r)
  }

  /** What an overlap means for the leftmost match: it overlaps itself, or the overlap is still there
      after the insertion. */
  lemma OverlapStays(s: string, p: nat, j: nat, p1: nat, j1: nat, q1: nat, i1: nat)
    requires Leftmost(AfterBool, s, p, j) && Overlapping(s, p1, j1, q1, i1)
    ensures p1 < j ==> exists q: nat, i: nat :: Overlapping(s, p, j, q, i)
    ensures p1 >= j ==> HasOverlap(Insert(s, j))
  {
    assert !Dead(AfterBool, s, p1);
    if p1 == p {
      SameStart(AfterBool, s, p, j, j1);
      assert Overlapping(s, p, j, q1, i1);
    } else if p1 < j {
      assert Overlapping(s, p, j, p1, j1);
    } else {
      MatchShifts(AfterBool, s, j, p1, j1);
      MatchShifts(AfterBool, s, j, q1, i1);
      assert Overlapping(Insert(s, j), p1 + 7, j1 + 7, q1 + 7, i1 + 7);
    }
  }

  /** An insertion makes no overlap. */
  lemma OverlapBack(s: string, j: nat)
    requires Cut(s, j) && HasOverlap(Insert(s, j))
    ensures HasOverlap(s)
  {
    var p: nat, i: nat, q: nat, k: nat :| Overlapping(Insert(s, j), p, i, q, k);
    OverlapBackAt(s, j, p, i, q, k);
  }

  lemma OverlapBackAt(s: string, j: nat, p: nat, i: nat, q: nat, k: nat)
    requires Cut(s, j) && Overlapping(Insert(s, j), p, i, q, k)
    ensures i < j ==> Overlapping(s, p, i, q, k)
    ensures i >= j ==> p >= 7 && q >= 7 && i >= 7 && k >= 7 && Overlapping(s, p - 7, i - 7, q - 7, k - 7)
  {
    MatchBack(AfterBool, s, j, p, i);
    MatchBack(AfterBool, s, j, q, k);
  }

  lemma NoOverlapSpares(s: string, p: nat, j: nat)
    requires Leftmost(AfterBool, s, p, j) && !HasOverlap(s)
    ensures Spares(AfterBool, s, j)
  {
    forall i: nat | i != j && Live(AfterBool, s, i)
      ensures Live(AfterBool, Insert(s, j), Moved(i, j))
    {
      var q :| 0 <= q < i && Matches(AfterBool, s, q, i);
      assert !Dead(AfterBool, s, q);
      if q == p { SameStart(AfterBool, s, p, j, i); }
      assert !Overlapping(s, p, j, q, i);
      MatchShifts(AfterBool, s, j, q, i);
    }
  }

  /** A live place beyond the insertion that is lost makes the count smaller by one more. */
  lemma {:induction false} CountLost(rule: Rule, s: string, t: string, j: nat, m: nat, n: nat)
    requires j < m < n && forall i: nat | j < i :: Follows(rule, s, t, i, false)
    requires Live(rule, s, m) && !Live(rule, t, m + 7)
    ensures CountLive(rule, t, n + 7) - CountLive(rule, t, j + 8) < CountLive(rule, s, n) - CountLive(rule, s, j + 1)
  {
    CountStep(rule, t, n + 6);
    CountStep(rule, s, n - 1);
    assert Follows(rule, s, t, n - 1, false);
    if m < n - 1 { CountLost(rule, s, t, j, m, n - 1); } else { CountBeyond(rule, s, t, j, m, false); }
  }

  lemma CountAfterLoss(rule: Rule, s: string, j: nat, m: nat)
    requires Cut(s, j) && Live(rule, s, j) && j < m < |s| && Live(rule, s, m) && !Live(rule, Insert(s, j), m + 7)
    ensures LiveCount(rule, Insert(s, j)) < LiveCount(rule, s) - 1
  {
    CountUpTo(rule, s, j, j);
    NoneInserted(rule, s, j);
    forall i: nat | j < i
      ensures Follows(rule, s, Insert(s, j), i, false)
    {
      LiveElsewhere(rule, s, j, i, i + 7);
    }
    CountLost(rule, s, Insert(s, j), j, m, |s|);
    CountStep(rule, s, j);
  }

  /** The loop for names after an operator inserts once at every place where its pattern matched in the
      beginning, exactly when no two of these matches overlap. */
  lemma {:induction false} OperatorLengthExactly(s: string)
    ensures |Rewrite(AfterBool, s)| == |s| + 7 * LiveCount(AfterBool, s) <==> !HasOverlap(s)
    decreases LiveCount(AfterBool, s)
  {
    RewriteLength(AfterBool, s);
    match FindFrom(AfterBool, s, 0)
    case None =>
      NoneIsSettled(AfterBool, s);
      NoMatchNoOverlap(s);
      CountFlat(AfterBool, s, 0, |s|);
    case Some((p, j)) =>
      InsertProgress(AfterBool, s, p, j);
      OperatorLengthExactly(Insert(s, j));
      RewriteLength(AfterBool, Insert(s, j));
      OverlapStep(s, p, j);
  }

  lemma NoMatchNoOverlap(s: string)
    requires Settled(AfterBool, s)
    ensures !HasOverlap(s)
  {
    forall p: nat, j: nat, q: nat, i: nat
      ensures !Overlapping(s, p, j, q, i)
    {
      assert !Live(AfterBool, s, j);
    }
  }

  /** The first insertion loses a live place, or keeps an overlap, exactly when there is an overlap. */
  lemma OverlapStep(s: string, p: nat, j: nat)
    requires Leftmost(AfterBool, s, p, j)
    ensures var lost := LiveCount(AfterBool, Insert(s, j)) < LiveCount(AfterBool, s) - 1;
            HasOverlap(s) <==> lost || HasOverlap(Insert(s, j))
    ensures LiveCount(AfterBool, Insert(s, j)) <= LiveCount(AfterBool, s) - 1
  {
    LiveIsCut(AfterBool, s, p, j);
    assert Live(AfterBool, s, j);
    CountAfter(AfterBool, s, j);
    if HasOverlap(s) {
      var p1: nat, j1: nat, q1: nat, i1: nat :| Overlapping(s, p1, j1, q1, i1);
      OverlapStays(s, p, j, p1, j1, q1, i1);
      if p1 < j {
        var q: nat, i: nat :| Overlapping(s, p, j, q, i);
        OverlapDestroys(s, p, j, q, i);
        CountAfterLoss(AfterBool, s, j, i);
      }
    } else {
      NoOverlapSpares(s, p, j);
      if HasOverlap(Insert(s, j)) { OverlapBack(s, j); }
    }
  }

  predicate TextAt(s: string) { |s| >= 7 && s[..7] == TEXT }

  /** The text with every `/text()` taken out. */
  function Strip(s: string): string {
    if s == "" then "" else if TextAt(s) then Strip(s[7..]) else [s[0]] + Strip(s[1..])
  }

  /** Inserting does nothing but insert, whatever the text looked like before. */
  lemma {:induction false} StripInsert(s: string, j: nat)
    requires Cut(s, j)
    ensures Strip(Insert(s, j)) == Strip(s)
    decreases |s|
  {
    if TextAt(s) {
      CutOutsideText(s, j);
      StripInsert(s[7..], j - 7);
      InsertPastText(s, j);
    } else {
      if j > 1 { StripInsert(s[1..], j - 1); }
      InsertPastChar(s, j);
    }
  }

  lemma InsertPastText(s: string, j: nat)
    requires TextAt(s) && 7 < j <= |s|
    ensures Strip(Insert(s, j)) == Strip(Insert(s[7..], j - 7))
  {
    assert Insert(s, j)[7..] == Insert(s[7..], j - 7);
    assert Insert(s, j)[..7] == s[..7];
  }

  lemma InsertPastChar(s: string, j: nat)
    requires Cut(s, j) && !TextAt(s)
    ensures Strip(Insert(s, j)) == [s[0]] + if j == 1 then Strip(s[1..]) else Strip(Insert(s[1..], j - 1))
  {
    var t := Insert(s, j);
    InsertHidesNothing(s, j);
    assert Strip(t) == [s[0]] + Strip(t[1..]);
    if j == 1 {
      StripText(t[1..], s[1..]);
    } else {
      assert t[1..] == Insert(s[1..], j - 1);
    }
  }

  lemma StripText(t: string, rest: string)
    requires t == TEXT + rest
    ensures Strip(t) == Strip(rest)
  {
    assert t[..7] == TEXT && t[7..] == rest;
  }

  lemma CutOutsideText(s: string, j: nat)
    requires Cut(s, j) && TextAt(s)
    ensures j > 7 && Cut(s[7..], j - 7)
  {
    assert forall k | 0 <= k < 7 :: s[k] == TEXT[k];
  }

  lemma InsertHidesNothing(s: string, j: nat)
    requires Cut(s, j) && !TextAt(s)
    ensures !TextAt(Insert(s, j))
  {
    var t := Insert(s, j);
    if j >= 7 {
      assert t[..7] == s[..7];
    } else {
      assert t[..7][j] == '/' && TEXT[j] != '/';
    }
  }

  /** A loop changes nothing but the `/text()` it inserts. */
  lemma {:induction false} RewriteOnlyInserts(rule: Rule, s: string)
    ensures Strip(Rewrite(rule, s)) == Strip(s)
    decreases LiveCount(rule, s)
  {
    match FindFrom(rule, s, 0)
    case None =>
    case Some((p, j)) =>
      InsertProgress(rule, s, p, j);
      LiveIsCut(rule, s, p, j);
      StripInsert(s, j);
      RewriteOnlyInserts(rule, Insert(s, j));
  }

  // ---------------------------------------------------------------------------------------
  // Numeric steps
  // ---------------------------------------------------------------------------------------

  /** `/([0-9]+)` matches at p. */
  predicate IdAt(s: string, p: nat) { p + 1 < |s| && s[p] == '/' && IsDigit(s[p + 1]) }

  /** Where the run of digits at position i ends. */
  function DigitsEnd(s: string, i: nat): (e: nat)
    requires i <= |s|
    ensures i <= e <= |s| && AllDigits(s[i..e])
    ensures i < |s| && IsDigit(s[i]) ==> i < e
  {
    var n := DigitRun(s[i..]);
    assert s[i..][..n] == s[i..i + n];
    i + n
  }

  function Selector(digits: string): string { "[@id='" + digits + "']" }

  /** One pass from left to right that turns every numeric step into an id selector. */
  function IdPass(s: string): string {
    if s == "" then ""
    else if IdAt(s, 0) then Selector(s[1..DigitsEnd(s, 1)]) + IdPass(s[DigitsEnd(s, 1)..])
    else [s[0]] + IdPass(s[1..])
  }

  ghost predicate NoIdsBefore(s: string, n: nat) { forall p | 0 <= p < n :: !IdAt(s, p) }

  lemma IdPassStep(v: string, q: nat)
    requires q < |v| && !IdAt(v, q)
    ensures IdPass(v[q..]) == [v[q]] + IdPass(v[q + 1..])
  {
    assert !IdAt(v[q..], 0);
    assert v[q..][1..] == v[q + 1..];
  }

  lemma {:induction false} IdPassSkips(v: string, q: nat)
    requires q <= |v| && NoIdsBefore(v, q)
    ensures IdPass(v) == v[..q] + IdPass(v[q..])
  {
    if q > 0 {
      IdPassSkips(v, q - 1);
      IdPassStep(v, q - 1);
      SkipOne(v, q, IdPass(v[q..]));
    } else {
      assert v[0..] == v;
    }
  }

  lemma SkipOne(v: string, q: nat, rest: string)
    requires 0 < q <= |v|
    ensures v[..q - 1] + ([v[q - 1]] + rest) == v[..q] + rest
  {
  }

  method FindId(s: string) returns (p: nat)
    ensures p <= |s| && NoIdsBefore(s, p) && (p < |s| ==> IdAt(s, p))
  {
    p := 0;
    while p < |s| && !IdAt(s, p)
      invariant p <= |s| && NoIdsBefore(s, p)
    {
      p := p + 1;
    }
  }

  // A reader's view of a text with numeric steps in it.

  ghost predicate DecimalDigit(c: char) { '0' <= c <= '9' }

  /** No slash stands in front of a digit. */
  ghost predicate NoStep(a: string) { forall p | 0 <= p < |a| - 1 :: !(a[p] == '/' && DecimalDigit(a[p + 1])) }

  ghost predicate Number(d: string) { d != "" && forall k | 0 <= k < |d| :: DecimalDigit(d[k]) }

  /** The text `a`, and then every number with a slash in front of it and its own text behind it. */
  ghost function WithSteps(a: string, steps: seq<(string, string)>): string
    decreases |steps|
  {
    if steps == [] then a else a + ("/" + steps[0].0 + WithSteps(steps[0].1, steps[1..]))
  }

  /** The same with every step turned into a selector. */
  ghost function WithSelectors(a: string, steps: seq<(string, string)>): string
    decreases |steps|
  {
    if steps == [] then a else a + ("[@id='" + steps[0].0 + "']" + WithSelectors(steps[0].1, steps[1..]))
  }

  /** All numbers are whole, and the texts hold no further steps. */
  ghost predicate AllSteps(a: string, steps: seq<(string, string)>)
    decreases |steps|
  {
    && NoStep(a)
    && (steps != [] ==>
          && Number(steps[0].0) && (steps[0].1 != "" ==> !DecimalDigit(steps[0].1[0]))
          && AllSteps(steps[0].1, steps[1..]))
  }

  /** Every text can be read in this way. */
  lemma {:induction false} StepsExist(s: string) returns (a: string, steps: seq<(string, string)>)
    ensures AllSteps(a, steps) && s == WithSteps(a, steps)
  {
    if s == "" {
      a, steps := "", [];
    } else if IdAt(s, 0) {
      var e := DigitsEnd(s, 1);
      var b, more := StepsExist(s[e..]);
      a, steps := "", [(s[1..e], b)] + more;
      WithStepsStarts(b, more);
      assert steps[1..] == more;
      assert forall k | 0 <= k < e - 1 :: s[1..e][k] == s[1 + k];
      assert s == "/" + s[1..e] + s[e..];
    } else {
      var b, more := StepsExist(s[1..]);
      a, steps := [s[0]] + b, more;
      WithStepsStarts(b, more);
      WithStepsCons(s[0], b, more);
      assert s == [s[0]] + s[1..];
    }
  }

  lemma WithStepsStarts(a: string, steps: seq<(string, string)>)
    ensures a != "" ==> WithSteps(a, steps) != "" && WithSteps(a, steps)[0] == a[0]
    ensures a == "" && steps != [] ==> WithSteps(a, steps) != "" && WithSteps(a, steps)[0] == '/'
  {
  }

  lemma WithStepsCons(c: char, a: string, steps: seq<(string, string)>)
    ensures WithSteps([c] + a, steps) == [c] + WithSteps(a, steps)
  {
    if steps != [] { Reassociate([c], a, "/" + steps[0].0 + WithSteps(steps[0].1, steps[1..])); }
  }

  /** The pass turns exactly the steps into selectors. */
  lemma {:induction false} PassSelects(a: string, steps: seq<(string, string)>)
    requires AllSteps(a, steps)
    ensures IdPass(WithSteps(a, steps)) == WithSelectors(a, steps)
    decreases |steps|
  {
    var v, q := WithSteps(a, steps), |a|;
    forall p | 0 <= p < q
      ensures !IdAt(v, p)
    {
      if p < q - 1 { assert !(a[p] == '/' && DecimalDigit(a[p + 1])); }
    }
    IdPassSkips(v, q);
    if steps == [] {
      assert v[q..] == "" && v[..q] == a;
    } else {
      var d, b, more := steps[0].0, steps[0].1, steps[1..];
      PassSelects(b, more);
      WithStepsStarts(b, more);
      StepAt(a, d, WithSteps(b, more), v);
    }
  }

  lemma StepAt(a: string, d: string, rest: string, v: string)
    requires v == a + ("/" + d + rest) && Number(d) && (rest != "" ==> !IsDigit(rest[0]))
    ensures v[..|a|] == a && IdPass(v[|a|..]) == "[@id='" + d + "']" + IdPass(rest)
  {
    var q, e := |a|, |a| + 1 + |d|;
    DigitRunIs(d, rest);
    assert v[q..] == "/" + d + rest && v[q + 1..] == d + rest && v[q + 1..e] == d && v[e..] == rest;
    assert IsDigit(v[q + 1]) by { assert v[q + 1] == d[0]; }
    IdPassAt(v, q, e);
  }

  /** Replacing the leftmost numeric step until there is none turns every step into a selector, and
      is a single pass. */
  method RewriteIds(s: string) returns (t: string)
    ensures t == IdPass(s)
    ensures NoIdsBefore(t, |t|)
    ensures forall a, steps | AllSteps(a, steps) && s == WithSteps(a, steps) :: t == WithSelectors(a, steps)
  {
    forall a, steps | AllSteps(a, steps) && s == WithSteps(a, steps)
      ensures IdPass(s) == WithSelectors(a, steps)
    {
      PassSelects(a, steps);
    }
    t := s;
    ghost var u, v := "", s;
    var p := FindId(t);
    while p < |t|
      invariant t == u + v && NoIdsBefore(t, |u|) && IdPass(s) == u + IdPass(v)
      invariant |u| <= p <= |t| && NoIdsBefore(t, p) && (p < |t| ==> IdAt(t, p))
      decreases |v|
    {
      var e := DigitsEnd(t, p + 1);
      ReplaceKeeps(u, v, t, p, e, IdPass(s));
      u, v := t[..p] + Selector(t[p + 1..e]), t[e..];
      t := t[..p] + Selector(t[p + 1..e]) + t[e..];
      p := FindId(t);
    }
    IdPassSkips(t, |t|);
    IdPassTail(u, v);
  }

  lemma IdPassTail(u: string, v: string)
    requires NoIdsBefore(u + v, |u + v|)
    ensures IdPass(v) == v
  {
    forall p | 0 <= p < |v|
      ensures !IdAt(v, p)
    {
      assert !IdAt(u + v, |u| + p);
    }
    IdPassSkips(v, |v|);
    assert v[..|v|] == v && IdPass(v[|v|..]) == "";
  }

  /** One replacement, seen from the pass: everything up to the new selector is done. */
  lemma ReplaceKeeps(u: string, v: string, t: string, p: nat, e: nat, goal: string)
    requires t == u + v && |u| <= p < |t| && NoIdsBefore(t, p) && IdAt(t, p) && e == DigitsEnd(t, p + 1)
    requires goal == u + IdPass(v)
    ensures var u', v' := t[..p] + Selector(t[p + 1..e]), t[e..];
            goal == u' + IdPass(v') && |v'| < |v| && NoIdsBefore(u' + v', |u'|)
  {
    PassUpTo(u, v, t, p);
    IdPassAt(t, p, e);
    Reassociate(t[..p], Selector(t[p + 1..e]), IdPass(t[e..]));
    NoIdsPrefix(t, p);
    SelectorHasNoIds(t[..p], t[p + 1..e], t[e..]);
  }

  lemma PassUpTo(u: string, v: string, t: string, p: nat)
    requires t == u + v && |u| <= p <= |t| && NoIdsBefore(t, p)
    ensures u + IdPass(v) == t[..p] + IdPass(t[p..])
  {
    var q := p - |u|;
    NoIdsWithin(u, v, q);
    IdPassSkips(v, q);
    assert v[q..] == t[p..];
    assert t[..p] == u + v[..q];
    Reassociate(u, v[..q], IdPass(v[q..]));
  }

  lemma Reassociate(a: string, b: string, c: string)
    ensures a + (b + c) == a + b + c
  {
  }

  lemma NoIdsWithin(u: string, v: string, q: nat)
    requires NoIdsBefore(u + v, |u| + q)
    ensures NoIdsBefore(v, q)
  {
    forall r | 0 <= r < q
      ensures !IdAt(v, r)
    {
      assert !IdAt(u + v, |u| + r);
    }
  }

  lemma NoIdsPrefix(t: string, p: nat)
    requires p <= |t| && NoIdsBefore(t, p)
    ensures NoIdsBefore(t[..p], p)
  {
    forall r | 0 <= r < p
      ensures !IdAt(t[..p], r)
    {
      assert !IdAt(t, r);
    }
  }

  lemma IdPassAt(t: string, p: nat, e: nat)
    requires IdAt(t, p) && e == DigitsEnd(t, p + 1)
    ensures IdPass(t[p..]) == Selector(t[p + 1..e]) + IdPass(t[e..])
  {
    var w := t[p..];
    assert w[1..] == t[p + 1..];
    assert w[1..e - p] == t[p + 1..e] && w[e - p..] == t[e..];
  }

  lemma SelectorHasNoIds(a: string, d: string, b: string)
    requires NoIdsBefore(a, |a|) && AllDigits(d)
    ensures NoIdsBefore(a + Selector(d) + b, |a + Selector(d)|)
  {
    var x, m := a + Selector(d) + b, |a|;
    forall r | 0 <= r < |a + Selector(d)|
      ensures !IdAt(x, r)
    {
      if r < m - 1 {
        assert !IdAt(a, r);
      } else if m <= r {
        assert x[r] == Selector(d)[r - m];
      } else {
        assert x[m] == '[';
      }
    }
  }
}
