/** How the query constructor finds where a query starts (query.cpp): a leading slash, a permalink
    path, or a numeric id. */
module Permalinks {
  import opened Wrappers
  import opened Strings

  /** References to XML nodes and to contexts. */
  type Node = nat
  type Ctx = nat

  /** The site maps that the constructor reads; `contexts` is the `_private` pointer of a node. */
  datatype Site = Site(nodes: map<int, Node>, permalinks: map<string, Node>, contexts: map<Node, Ctx>) {
    function ContextOf(n: Node): Option<Ctx> { if n in contexts then Some(contexts[n]) else None }
  }

  // ---------------------------------------------------------------------------------------
  // Permalink paths
  // ---------------------------------------------------------------------------------------

  datatype Resolution = NoResult | Whole(node: Node) | Prefix(node: Node, rest: string)

  /** The first i parts of the path. */
  function Leading(path: string, i: nat): string
    requires i <= |Split(path, '/')|
  {
    Join(Split(path, '/')[..i], '/')
  }

  /** The number of leading parts of the longest prefix that is a permalink, or zero. */
  function LongestPresent(path: string, permalinks: map<string, Node>, i: nat): (n: nat)
    requires i <= |Split(path, '/')|
    ensures n <= i
    ensures n > 0 ==> Leading(path, n) in permalinks
    ensures forall j | n < j <= i :: Leading(path, j) !in permalinks
  {
    if i == 0 || Leading(path, i) in permalinks then i else LongestPresent(path, permalinks, i - 1)
  }

  function Resolve(path: string, permalinks: map<string, Node>): Resolution {
    var parts := Split(path, '/');
    var n := LongestPresent(path, permalinks, |parts|);
    if n == 0 then NoResult
    else if n == |parts| then Whole(permalinks[Leading(path, n)])
    else Prefix(permalinks[Leading(path, n)], Join(parts[n..], '/'))
  }

  method ResolvePermalink(path: string, permalinks: map<string, Node>) returns (r: Resolution)
    ensures r == Resolve(path, permalinks)
  {
    var pathParts := Split(path, '/');
    var end, i := |pathParts|, |pathParts|;
    while i >= 0
      invariant -1 <= i == end <= |pathParts| && i >= 0
      invariant LongestPresent(path, permalinks, i) == LongestPresent(path, permalinks, |pathParts|)
    {
      if i == 0 { return NoResult; }
      var permalink := Join(pathParts[..end], '/');
      if permalink in permalinks {
        if i == |pathParts| { return Whole(permalinks[permalink]); }
        return Prefix(permalinks[permalink], Join(pathParts[end..], '/'));
      }
      end := end - 1;
      i := i - 1;
    }
    return NoResult;
  }

  /** There is no result exactly when no non-empty list of leading parts is a permalink, the whole
      path wins when it is a permalink, and otherwise the longest proper prefix does; what is left
      of the query rejoins with it to the path. */
  lemma ResolutionIsLongest(path: string, permalinks: map<string, Node>)
    ensures var parts, r := Split(path, '/'), Resolve(path, permalinks);
            && (r.NoResult? <==> forall i | 1 <= i <= |parts| :: Leading(path, i) !in permalinks)
            && (r.Whole? <==> path in permalinks)
            && (r.Whole? ==> r.node == permalinks[path])
            && (r.Prefix? ==> exists n | 1 <= n < |parts| ::
                  && Leading(path, n) in permalinks && r.node == permalinks[Leading(path, n)]
                  && (forall j | n < j <= |parts| :: Leading(path, j) !in permalinks)
                  && path == Leading(path, n) + "/" + r.rest)
  {
    var parts := Split(path, '/');
    var n := LongestPresent(path, permalinks, |parts|);
    JoinSplit(path, '/');
    assert parts[..|parts|] == parts;
    assert Leading(path, |parts|) == path;
    if 0 < n < |parts| {
      JoinAppend(parts[..n], parts[n..], '/');
      assert parts[..n] + parts[n..] == parts;
    }
  }

  // ---------------------------------------------------------------------------------------
  // Locating the start of a query
  // ---------------------------------------------------------------------------------------

  /** Either the answer itself, or a context and the query that is left to evaluate there. */
  datatype Start = Answer(node: Option<Node>) | From(context: Option<Ctx>, query: string)

  predicate IsPrefix(p: string, s: string) { |p| <= |s| && s[..|p|] == p }

  /** The tail that `.*` matches: PCRE's dot does not match a newline. */
  predicate DotStar(s: string) { '\n' !in s }

  /** One way for `([0-9]+)(/.*|)` to match the whole query. */
  ghost predicate IdMatch(q: string, digits: string, tail: string) {
    && q == digits + tail && digits != "" && AllDigits(digits)
    && (tail == "" || (tail[0] == '/' && '\n' !in tail[1..]))
  }

  /** The greedy match, if there is one. */
  predicate IsIdPath(q: string) {
    var d := DigitRun(q);
    d > 0 && (d == |q| || (q[d] == '/' && DotStar(q[d + 1..])))
  }

  function LocateId(site: Site, context: Option<Ctx>, q: string): Start {
    if !IsIdPath(q) then From(context, q)
    else
      var d := DigitRun(q);
      var id := DigitsValue(q[..d]);
      if id !in site.nodes then Answer(None)
      else if d == |q| then Answer(Some(site.nodes[id]))
      else From(site.ContextOf(site.nodes[id]), q[d + 1..])
  }

  const PERMALINK: string := "permalink/"

  function LocatePermalink(site: Site, context: Option<Ctx>, q: string): Start {
    if IsPrefix(PERMALINK, q) && DotStar(q[|PERMALINK|..]) then
      match Resolve(q[|PERMALINK|..], site.permalinks)
      case NoResult => Answer(None)
      case Whole(n) => Answer(Some(n))
      case Prefix(n, rest) => LocateId(site, site.ContextOf(n), rest)
    else LocateId(site, context, q)
  }

  function Locate(site: Site, context: Option<Ctx>, q: string): Start {
    if IsPrefix("/", q) then LocatePermalink(site, None, q[1..]) else LocatePermalink(site, context, q)
  }

  /** The node with the id, or what is left of the query in its context. */
  ghost predicate StartsAtId(site: Site, id: int, tail: string, start: Start) {
    && (start == Answer(None) <==> id !in site.nodes)
    && (id in site.nodes && tail == "" ==> start == Answer(Some(site.nodes[id])))
    && (id in site.nodes && tail != "" ==> start.From? && start.context == site.ContextOf(site.nodes[id]) && tail == "/" + start.query)
  }

  /** However the pattern matches, it matches greedily. */
  lemma IdMatchIsGreedy(q: string, digits: string, tail: string)
    requires IdMatch(q, digits, tail)
    ensures IsIdPath(q) && digits == q[..DigitRun(q)] && tail == q[DigitRun(q)..]
  {
    var n := |digits|;
    assert q[..n] == digits && q[n..] == tail;
    if tail != "" { assert tail[1..] == q[n + 1..]; }
  }

  lemma LocatesMatch(site: Site, ctx: Option<Ctx>, q: string)
    ensures forall digits, tail | IdMatch(q, digits, tail) :: StartsAtId(site, DigitsValue(digits), tail, LocateId(site, ctx, q))
    ensures (forall digits, tail :: !IdMatch(q, digits, tail)) ==> LocateId(site, ctx, q) == From(ctx, q)
  {
    forall digits, tail | IdMatch(q, digits, tail)
      ensures StartsAtId(site, DigitsValue(digits), tail, LocateId(site, ctx, q))
    {
      IdMatchIsGreedy(q, digits, tail);
    }
    var n := DigitRun(q);
    if IsIdPath(q) { assert IdMatch(q, q[..n], q[n..]); }
  }

  /** However the pattern for an id matches, the query starts at the node with that id; if it does
      not match at all, the query is left alone. */
  method LocateById(site: Site, ctx: Option<Ctx>, q: string) returns (start: Start)
    ensures start == LocateId(site, ctx, q)
    ensures forall digits, tail | IdMatch(q, digits, tail) :: StartsAtId(site, DigitsValue(digits), tail, start)
    ensures (forall digits, tail :: !IdMatch(q, digits, tail)) ==> start == From(ctx, q)
  {
    LocatesMatch(site, ctx, q);
    if !IsIdPath(q) { return From(ctx, q); }
    var d := DigitRun(q);
    var id := DigitsValue(q[..d]);
    var found := if id in site.nodes then Some(site.nodes[id]) else None;
    if found.Some? && d < |q| {
      return From(site.ContextOf(found.value), q[d + 1..]);
    }
    return Answer(found);
  }

  // What the constructor promises about the start, whatever it does to find it.

  ghost predicate IdQuery(q: string) { exists digits, tail :: IdMatch(q, digits, tail) }

  /** From an id on, or the query itself in the context. */
  ghost predicate StartsBelow(site: Site, ctx: Option<Ctx>, q: string, start: Start) {
    && (forall digits, tail | IdMatch(q, digits, tail) :: StartsAtId(site, DigitsValue(digits), tail, start))
    && (!IdQuery(q) ==> start == From(ctx, q))
  }

  /** The first n parts are the longest leading parts that are a permalink. */
  ghost predicate IsLongest(site: Site, path: string, n: nat) {
    && 1 <= n <= |Split(path, '/')| && Leading(path, n) in site.permalinks
    && forall j | n < j <= |Split(path, '/')| :: Leading(path, j) !in site.permalinks
  }

  /** The node of the path, or nothing, or what follows the longest permalink in the context of it. */
  ghost predicate StartsAtPermalink(site: Site, path: string, start: Start) {
    && (path in site.permalinks ==> start == Answer(Some(site.permalinks[path])))
    && ((forall n | 1 <= n <= |Split(path, '/')| :: Leading(path, n) !in site.permalinks) ==> start == Answer(None))
    && (forall n: nat, rest | IsLongest(site, path, n) && path == Leading(path, n) + "/" + rest ::
          StartsBelow(site, site.ContextOf(site.permalinks[Leading(path, n)]), rest, start))
  }

  ghost predicate PermalinkQuery(q: string, path: string) { q == "permalink/" + path && '\n' !in path }

  ghost predicate Starts(site: Site, ctx: Option<Ctx>, q: string, start: Start) {
    && (forall path | PermalinkQuery(q, path) :: StartsAtPermalink(site, path, start))
    && ((forall path :: !PermalinkQuery(q, path)) ==> StartsBelow(site, ctx, q, start))
  }

  lemma StartBelow(site: Site, ctx: Option<Ctx>, q: string)
    ensures StartsBelow(site, ctx, q, LocateId(site, ctx, q))
  {
    LocatesMatch(site, ctx, q);
  }

  lemma LongestIsUnique(site: Site, path: string, n: nat)
    requires IsLongest(site, path, n)
    ensures LongestPresent(path, site.permalinks, |Split(path, '/')|) == n
  {
  }

  lemma StartAtPermalink(site: Site, path: string, start: Start)
    requires start == match Resolve(path, site.permalinks)
                      case NoResult => Answer(None)
                      case Whole(n) => Answer(Some(n))
                      case Prefix(n, rest) => LocateId(site, site.ContextOf(n), rest)
    ensures StartsAtPermalink(site, path, start)
  {
    ResolutionIsLongest(path, site.permalinks);
    forall n: nat, rest | IsLongest(site, path, n) && path == Leading(path, n) + "/" + rest
      ensures StartsBelow(site, site.ContextOf(site.permalinks[Leading(path, n)]), rest, start)
    {
      PrefixStart(site, path, n, rest);
      StartBelow(site, site.ContextOf(site.permalinks[Leading(path, n)]), rest);
    }
  }

  lemma PrefixStart(site: Site, path: string, n: nat, rest: string)
    requires IsLongest(site, path, n) && path == Leading(path, n) + "/" + rest
    ensures Resolve(path, site.permalinks) == Prefix(site.permalinks[Leading(path, n)], rest)
  {
    LongestIsUnique(site, path, n);
    var parts := Split(path, '/');
    JoinSplit(path, '/');
    assert parts[..|parts|] == parts;
    assert n < |parts|;
    JoinAppend(parts[..n], parts[n..], '/');
    assert parts[..n] + parts[n..] == parts;
    var left := Join(parts[n..], '/');
    assert path == Leading(path, n) + "/" + left;
    assert path[|Leading(path, n)| + 1..] == left && path[|Leading(path, n)| + 1..] == rest;
  }

  lemma StartsMeaning(site: Site, ctx: Option<Ctx>, q: string)
    ensures Starts(site, ctx, q, LocatePermalink(site, ctx, q))
  {
    var start := LocatePermalink(site, ctx, q);
    StartBelow(site, ctx, q);
    forall path | PermalinkQuery(q, path)
      ensures StartsAtPermalink(site, path, start)
    {
      assert q[..|PERMALINK|] == PERMALINK && q[|PERMALINK|..] == path;
      StartAtPermalink(site, path, start);
    }
    if IsPrefix(PERMALINK, q) && DotStar(q[|PERMALINK|..]) { assert PermalinkQuery(q, q[|PERMALINK|..]); }
  }

  /** A leading slash drops the context of the caller; then a permalink path or an id gives the start,
      and a query that matches neither pattern is evaluated where it is. */
  method LocateStart(site: Site, ctx: Option<Ctx>, q: string) returns (start: Start)
    ensures start == Locate(site, ctx, q)
    ensures q != "" && q[0] == '/' ==> Starts(site, None, q[1..], start) && forall other :: Locate(site, other, q) == start
    ensures q == "" || q[0] != '/' ==> Starts(site, ctx, q, start)
    ensures q != "" && q[0] == '/' && !IdQuery(q[1..]) && (forall path :: !PermalinkQuery(q[1..], path)) ==> start == From(None, q[1..])
    ensures (q == "" || q[0] != '/') && !IdQuery(q) && (forall path :: !PermalinkQuery(q, path)) ==> start == From(ctx, q)
  {
    assert IsPrefix("/", q) <==> q != "" && q[0] == '/';
    if q != "" { StartsMeaning(site, None, q[1..]); }
    StartsMeaning(site, ctx, q);
    var context, query := ctx, q;
    if IsPrefix("/", query) {
      query, context := query[1..], None;
    }
    if IsPrefix(PERMALINK, query) && DotStar(query[|PERMALINK|..]) {
      var r := ResolvePermalink(query[|PERMALINK|..], site.permalinks);
      match r {
        case NoResult => return Answer(None);
        case Whole(n) => return Answer(Some(n));
        case Prefix(n, rest) => context, query := site.ContextOf(n), rest;
      }
    }
    start := LocateById(site, context, query);
  }

  /** The parts of a path are the parts of its two halves. */
  lemma SplitPath(prefix: string, rest: string)
    ensures var p, r, all := Split(prefix, '/'), Split(rest, '/'), Split(prefix + "/" + rest, '/');
            && all == p + r && all[..|p|] == p && all[|p|..] == r
            && Join(all[..|p|], '/') == prefix && Join(all[|p|..], '/') == rest
  {
    var p, r := Split(prefix, '/'), Split(rest, '/');
    JoinSplit(prefix, '/');
    JoinSplit(rest, '/');
    JoinAppend(p, r, '/');
    SplitJoin(p + r, '/');
  }

  /** No longer leading part of the path than the prefix itself is a permalink. */
  ghost predicate NothingLonger(prefix: string, rest: string, permalinks: map<string, Node>) {
    var path := prefix + "/" + rest;
    forall i | |Split(prefix, '/')| < i <= |Split(path, '/')| :: Leading(path, i) !in permalinks
  }

  lemma ResolveBelow(prefix: string, rest: string, permalinks: map<string, Node>)
    requires prefix in permalinks && NothingLonger(prefix, rest, permalinks)
    ensures Resolve(prefix + "/" + rest, permalinks) == Prefix(permalinks[prefix], rest)
  {
    var path, n := prefix + "/" + rest, |Split(prefix, '/')|;
    SplitPath(prefix, rest);
    assert Leading(path, n) == prefix;
    var m := LongestPresent(path, permalinks, |Split(path, '/')|);
    assert m == n;
  }

  lemma LocateUnderPermalink(site: Site, ctx: Option<Ctx>, q: string, path: string)
    requires q == PERMALINK + path && DotStar(path)
    ensures Locate(site, ctx, q) ==
            match Resolve(path, site.permalinks)
            case NoResult => Answer(None)
            case Whole(n) => Answer(Some(n))
            case Prefix(n, rest) => LocateId(site, site.ContextOf(n), rest)
  {
    assert q[0] == 'p' && q[..|PERMALINK|] == PERMALINK && q[|PERMALINK|..] == path;
  }

  /** A permalink answers with its own node, and what follows it in a path is looked up under that
      node, exactly as the rest of the query would be from there; the caller's context plays no
      part. */
  lemma PermalinkRestartsBelow(site: Site, ctx: Option<Ctx>, prefix: string, rest: string)
    requires DotStar(prefix) && DotStar(rest) && prefix in site.permalinks
    requires NothingLonger(prefix, rest, site.permalinks)
    ensures Locate(site, ctx, PERMALINK + prefix) == Answer(Some(site.permalinks[prefix]))
    ensures Locate(site, ctx, PERMALINK + (prefix + "/" + rest)) ==
            LocateId(site, site.ContextOf(site.permalinks[prefix]), rest)
  {
    LocateUnderPermalink(site, ctx, PERMALINK + prefix, prefix);
    ResolutionIsLongest(prefix, site.permalinks);
    LocateUnderPermalink(site, ctx, PERMALINK + (prefix + "/" + rest), prefix + "/" + rest);
    ResolveBelow(prefix, rest, site.permalinks);
  }
}
