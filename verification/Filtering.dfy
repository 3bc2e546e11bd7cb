/** What `Response` means by a match: the text filter and the uniqueness filter (response.cpp). */
module Filtering {
  import opened Wrappers
  import opened SortOrder

  /** A node of the XML tree as the result pipeline sees it; `context` is the node's `_private`. */
  datatype XmlNode =
    | Element(children: seq<XmlNode>, context: Option<Context>)
    | Text(content: string)
    | Other
  {
    function Children(): seq<XmlNode> { if Element? then children else [] }
    function Ctx(): Option<Context> { if Element? then context else None }
  }

  // ---------------------------------------------------------------------------------------
  // The text filter
  // ---------------------------------------------------------------------------------------

  function ToLower(c: char): char { if 'A' <= c <= 'Z' then (c as int + 32) as char else c }

  predicate SameFolded(a: string, b: string) {
    |a| == |b| && forall k | 0 <= k < |a| :: ToLower(a[k]) == ToLower(b[k])
  }

  predicate FoldedAt(hay: string, needle: string, k: nat) {
    k + |needle| <= |hay| && SameFolded(hay[k..k + |needle|], needle)
  }

  /** `strcasestr`: somewhere in `hay`, ignoring case. */
  predicate ContainsFolded(hay: string, needle: string) {
    exists k | 0 <= k <= |hay| :: FoldedAt(hay, needle, k)
  }

  /** Some text node among `cs`, or among their children for `depth` two, and so on, reads `text`. */
  ghost predicate TextAmong(cs: seq<XmlNode>, depth: nat, text: string)
    decreases depth, 1
  {
    depth > 0 && exists i | 0 <= i < |cs| :: TextAt(cs[i], depth, text)
  }

  ghost predicate TextAt(c: XmlNode, depth: nat, text: string)
    requires depth > 0
    decreases depth, 0
  {
    c == Text(text) || (c.Element? && TextAmong(c.children, depth - 1, text))
  }

  ghost predicate OccursAmong(term: string, cs: seq<XmlNode>, depth: nat) {
    exists text :: TextAmong(cs, depth, text) && ContainsFolded(text, term)
  }

  /** A node passes the filter when every term occurs in some text at depth one or two. */
  ghost predicate FilterPasses(terms: seq<string>, node: XmlNode) {
    forall i | 0 <= i < |terms| :: OccursAmong(terms[i], node.Children(), 2)
  }

  // What passing the filter means to a reader of the page.

  /** The same character, or the same letter in the other case. */
  predicate SameLetter(c: char, d: char) {
    c == d || ('A' <= c <= 'Z' && d as int == c as int + 32) || ('A' <= d <= 'Z' && c as int == d as int + 32)
  }

  predicate HoldsAt(text: string, term: string, k: nat) {
    k + |term| <= |text| && forall i | 0 <= i < |term| :: SameLetter(text[k + i], term[i])
  }

  /** The term is somewhere in the text, in any case. */
  ghost predicate Holds(text: string, term: string) { exists k: nat :: HoldsAt(text, term, k) }

  /** The term is in a text node, or in a text node directly below an element. */
  ghost predicate AppearsAt(term: string, c: XmlNode) {
    || (c.Text? && Holds(c.content, term))
    || (c.Element? && exists i | 0 <= i < |c.children| :: c.children[i].Text? && Holds(c.children[i].content, term))
  }

  ghost predicate Appears(term: string, node: XmlNode) {
    exists i | 0 <= i < |node.Children()| :: AppearsAt(term, node.Children()[i])
  }

  lemma ContainsIsHolds(text: string, term: string)
    ensures ContainsFolded(text, term) <==> Holds(text, term)
  {
    forall k: nat
      ensures HoldsAt(text, term, k) <==> k <= |text| && FoldedAt(text, term, k)
    {
    }
    if ContainsFolded(text, term) {
      var k :| 0 <= k <= |text| && FoldedAt(text, term, k);
      assert HoldsAt(text, term, k);
    }
    if k: nat :| HoldsAt(text, term, k) { assert FoldedAt(text, term, k); }
  }

  lemma OccursAtIsAppears(term: string, c: XmlNode)
    ensures OccursAt(term, c, 2) <==> AppearsAt(term, c)
  {
    OccursAtMeaning(term, c, 2);
    if c.Text? { ContainsIsHolds(c.content, term); }
    if c.Element? { OccursBelow(term, c.children); }
  }

  lemma OccursBelow(term: string, cs: seq<XmlNode>)
    ensures OccursAmong(term, cs, 1) <==> exists i | 0 <= i < |cs| :: cs[i].Text? && Holds(cs[i].content, term)
  {
    if OccursAmong(term, cs, 1) {
      var text :| TextAmong(cs, 1, text) && ContainsFolded(text, term);
      var i :| 0 <= i < |cs| && TextAt(cs[i], 1, text);
      ContainsIsHolds(text, term);
      assert cs[i].Text? && cs[i].content == text;
    }
    if i :| 0 <= i < |cs| && cs[i].Text? && Holds(cs[i].content, term) {
      ContainsIsHolds(cs[i].content, term);
      assert TextAt(cs[i], 1, cs[i].content);
      assert TextAmong(cs, 1, cs[i].content);
    }
  }

  lemma OccursIsAppears(term: string, node: XmlNode)
    ensures OccursAmong(term, node.Children(), 2) <==> Appears(term, node)
  {
    var cs := node.Children();
    if OccursAmong(term, cs, 2) {
      var text :| TextAmong(cs, 2, text) && ContainsFolded(text, term);
      var i :| 0 <= i < |cs| && TextAt(cs[i], 2, text);
      assert OccursAt(term, cs[i], 2);
      OccursAtIsAppears(term, cs[i]);
    }
    if i :| 0 <= i < |cs| && AppearsAt(term, cs[i]) {
      OccursAtIsAppears(term, cs[i]);
      var text :| TextAt(cs[i], 2, text) && ContainsFolded(text, term);
      assert TextAmong(cs, 2, text);
    }
  }

  lemma PassesIsAppears(terms: seq<string>, node: XmlNode)
    ensures FilterPasses(terms, node) <==> forall i | 0 <= i < |terms| :: Appears(terms[i], node)
  {
    forall i | 0 <= i < |terms|
      ensures OccursAmong(terms[i], node.Children(), 2) <==> Appears(terms[i], node)
    {
      OccursIsAppears(terms[i], node);
    }
  }

  /** The terms that fail `found`, in order. */
  ghost function Missing(terms: seq<string>, found: string -> bool): seq<string> {
    if terms == [] then [] else (if found(terms[0]) then [] else [terms[0]]) + Missing(terms[1..], found)
  }

  /** Erasing in two rounds is erasing once, so the order of the text nodes does not matter. */
  lemma {:induction false} MissingCompose(terms: seq<string>, p: string -> bool, q: string -> bool, r: string -> bool)
    requires forall t :: r(t) <==> p(t) || q(t)
    ensures Missing(Missing(terms, p), q) == Missing(terms, r)
  {
    if terms != [] {
      MissingCompose(terms[1..], p, q, r);
      var rest := Missing(terms[1..], p);
      assert Missing(terms, p) == if p(terms[0]) then rest else [terms[0]] + rest;
      assert ([terms[0]] + rest)[1..] == rest;
    }
  }

  lemma {:induction false} MissingEmpty(terms: seq<string>, found: string -> bool)
    ensures Missing(terms, found) == [] <==> forall i | 0 <= i < |terms| :: found(terms[i])
  {
    if terms != [] { MissingEmpty(terms[1..], found); }
  }

  lemma {:induction false} MissingNone(terms: seq<string>, found: string -> bool)
    requires forall t :: !found(t)
    ensures Missing(terms, found) == terms
  {
    if terms != [] { MissingNone(terms[1..], found); }
  }

  lemma {:induction false} MissingStep(terms: seq<string>, n: nat, found: string -> bool)
    requires n < |terms|
    ensures Missing(terms[..n + 1], found) == Missing(terms[..n], found) + if found(terms[n]) then [] else [terms[n]]
  {
    if n > 0 {
      MissingStep(terms[1..], n - 1, found);
      assert terms[..n + 1][1..] == terms[1..][..n] && terms[..n][1..] == terms[1..][..n - 1];
    } else {
      assert terms[..1][1..] == [];
    }
  }

  /** One more child adds what occurs at that child. */
  lemma OccursStep(term: string, cs: seq<XmlNode>, n: nat, depth: nat)
    requires n < |cs| && depth > 0
    ensures OccursAmong(term, cs[..n + 1], depth) <==>
            OccursAmong(term, cs[..n], depth) || OccursAt(term, cs[n], depth)
  {
    forall text
      ensures TextAmong(cs[..n + 1], depth, text) <==> TextAmong(cs[..n], depth, text) || TextAt(cs[n], depth, text)
    {
      TextStep(cs, n, depth, text);
    }
  }

  lemma TextStep(cs: seq<XmlNode>, n: nat, depth: nat, text: string)
    requires n < |cs| && depth > 0
    ensures TextAmong(cs[..n + 1], depth, text) <==> TextAmong(cs[..n], depth, text) || TextAt(cs[n], depth, text)
  {
    if TextAmong(cs[..n], depth, text) {
      var i :| 0 <= i < n && TextAt(cs[..n][i], depth, text);
      assert TextAt(cs[..n + 1][i], depth, text);
    }
    if TextAt(cs[n], depth, text) { assert TextAt(cs[..n + 1][n], depth, text); }
    if TextAmong(cs[..n + 1], depth, text) {
      var i :| 0 <= i < n + 1 && TextAt(cs[..n + 1][i], depth, text);
      if i < n { assert TextAt(cs[..n][i], depth, text); }
    }
  }

  ghost predicate OccursAt(term: string, c: XmlNode, depth: nat)
    requires depth > 0
  {
    exists text :: TextAt(c, depth, text) && ContainsFolded(text, term)
  }

  lemma OccursAtMeaning(term: string, c: XmlNode, depth: nat)
    requires depth > 0
    ensures c.Text? ==> (OccursAt(term, c, depth) <==> ContainsFolded(c.content, term))
    ensures c.Element? ==> (OccursAt(term, c, depth) <==> OccursAmong(term, c.children, depth - 1))
    ensures c.Other? ==> !OccursAt(term, c, depth)
  {
    if c.Text? { assert TextAt(c, depth, c.content); }
  }

  // ---------------------------------------------------------------------------------------
  // The uniqueness filter
  // ---------------------------------------------------------------------------------------

  const SEPARATOR: string := "~!~"

  function UniqueKey(fields: seq<string>, c: Context): string {
    if fields == [] then "" else c.GetData(fields[0]) + SEPARATOR + UniqueKey(fields[1..], c)
  }

  function Values(fields: seq<string>, c: Context): seq<string> {
    seq(|fields|, i requires 0 <= i < |fields| => c.GetData(fields[i]))
  }

  function JoinValues(values: seq<string>): string {
    if values == [] then "" else values[0] + SEPARATOR + JoinValues(values[1..])
  }

  lemma {:induction false} UniqueKeyIsJoin(fields: seq<string>, c: Context)
    ensures UniqueKey(fields, c) == JoinValues(Values(fields, c))
  {
    if fields != [] {
      UniqueKeyIsJoin(fields[1..], c);
      assert Values(fields, c)[1..] == Values(fields[1..], c);
    }
  }

  ghost predicate SeparatorAt(s: string, k: nat) { k + 3 <= |s| && s[k..k + 3] == SEPARATOR }

  /** The separator first shows up in `v + SEPARATOR` where `v` ends. */
  ghost predicate Unambiguous(v: string) {
    forall k | 0 <= k < |v| :: !SeparatorAt(v + SEPARATOR, k)
  }

  lemma TildeFreeIsUnambiguous(v: string)
    requires '~' !in v
    ensures Unambiguous(v)
  {
    forall k | 0 <= k < |v|
      ensures !SeparatorAt(v + SEPARATOR, k)
    {
      assert (v + SEPARATOR)[k..k + 3][0] == v[k];
    }
  }

  /** Where a shorter first value ends, the longer one shows a separator. */
  lemma ShorterShowsSeparator(v: string, s: string, w: string, t: string)
    requires v + SEPARATOR + s == w + SEPARATOR + t && |v| < |w|
    ensures SeparatorAt(w + SEPARATOR, |v|)
  {
    assert (v + SEPARATOR + s)[|v|..|v| + 3] == SEPARATOR;
    assert (w + SEPARATOR)[|v|..|v| + 3] == (w + SEPARATOR + t)[|v|..|v| + 3];
  }

  /** The joined key determines the values when no value but the last hides a separator, in
      particular when no value contains a tilde, and whenever there is only one. */
  lemma {:induction false} JoinInjective(vs: seq<string>, ws: seq<string>)
    requires |vs| == |ws| && JoinValues(vs) == JoinValues(ws)
    requires forall i | 0 <= i < |vs| - 1 :: Unambiguous(vs[i]) && Unambiguous(ws[i])
    ensures vs == ws
  {
    if vs != [] {
      var v, w, s, t := vs[0], ws[0], JoinValues(vs[1..]), JoinValues(ws[1..]);
      if |vs| == 1 {
        assert s == t == "" && |v + SEPARATOR| == |w + SEPARATOR|;
      } else if |v| < |w| {
        ShorterShowsSeparator(v, s, w, t);
      } else if |w| < |v| {
        ShorterShowsSeparator(w, t, v, s);
      }
      assert v == (v + SEPARATOR + s)[..|v|] == (w + SEPARATOR + t)[..|w|] == w;
      assert s == (v + SEPARATOR + s)[|v| + 3..] == (w + SEPARATOR + t)[|w| + 3..] == t;
      JoinInjective(vs[1..], ws[1..]);
      assert vs == [v] + vs[1..] && ws == [w] + ws[1..];
    }
  }

  lemma {:induction false} JoinValuesAppend(a: seq<string>, b: seq<string>)
    ensures JoinValues(a + b) == JoinValues(a) + JoinValues(b)
  {
    if a == [] {
      assert a + b == b;
    } else {
      JoinValuesAppend(a[1..], b);
      assert (a + b)[1..] == a[1..] + b;
      Reassociate(a[0] + SEPARATOR, JoinValues(a[1..]), JoinValues(b));
    }
  }

  lemma Reassociate(a: string, b: string, c: string)
    ensures a + (b + c) == a + b + c
  {
  }

  /** The tuples agree before field i, where the other one has a shorter value. */
  ghost predicate ShorterAt(ws: seq<string>, vs: seq<string>, i: nat) {
    |ws| == |vs| && i < |vs| && ws[..i] == vs[..i] && |ws[i]| < |vs[i]|
  }

  /** Every other value but the last collides: its tuple has the key of one with a shorter value. */
  lemma AmbiguousCollides(vs: seq<string>, i: nat) returns (ws: seq<string>)
    requires i < |vs| - 1 && !Unambiguous(vs[i])
    ensures ShorterAt(ws, vs, i) && JoinValues(ws) == JoinValues(vs)
  {
    var v, w, front, back := vs[i], vs[i + 1], vs[..i], vs[i + 2..];
    var k :| 0 <= k < |v| && SeparatorAt(v + SEPARATOR, k);
    var all := v + SEPARATOR;
    var v', w' := all[..k], all[k + 3..] + w;
    assert all == v' + SEPARATOR + all[k + 3..];
    JoinPair(v, w);
    JoinPair(v', w');
    ws := front + ([v', w'] + back);
    assert vs == front + ([v, w] + back) && ws[..i] == front && ws[i] == v';
    JoinAround(front, [v, w], back);
    JoinAround(front, [v', w'], back);
  }

  lemma JoinAround(front: seq<string>, pair: seq<string>, back: seq<string>)
    ensures JoinValues(front + (pair + back)) == JoinValues(front) + (JoinValues(pair) + JoinValues(back))
  {
    JoinValuesAppend(front, pair + back);
    JoinValuesAppend(pair, back);
  }

  lemma ShorterIsHidden(vs: seq<string>, ws: seq<string>, i: nat)
    requires ShorterAt(ws, vs, i) && JoinValues(ws) == JoinValues(vs)
    ensures i < |vs| - 1 && !Unambiguous(vs[i])
  {
    var front := vs[..i];
    JoinValuesAppend(front, vs[i..]);
    JoinValuesAppend(front, ws[i..]);
    assert vs == front + vs[i..] && ws == front + ws[i..];
    var s, t := JoinValues(vs[i..]), JoinValues(ws[i..]);
    assert s == (JoinValues(front) + s)[|JoinValues(front)|..] == t;
    assert vs[i..][1..] == vs[i + 1..] && ws[i..][1..] == ws[i + 1..];
    assert s == vs[i] + SEPARATOR + JoinValues(vs[i + 1..]) && t == ws[i] + SEPARATOR + JoinValues(ws[i + 1..]);
    if i < |vs| - 1 {
      ShorterShowsSeparator(ws[i], JoinValues(ws[i + 1..]), vs[i], JoinValues(vs[i + 1..]));
    }
  }

  /** No tuple has the same key and, where it first differs, a shorter value, exactly when no value but
      the last hides a separator. */
  lemma UnambiguousExactly(vs: seq<string>)
    ensures (forall i | 0 <= i < |vs| - 1 :: Unambiguous(vs[i])) <==>
            !exists ws, i: nat :: ShorterAt(ws, vs, i) && JoinValues(ws) == JoinValues(vs)
  {
    if ws, i: nat :| ShorterAt(ws, vs, i) && JoinValues(ws) == JoinValues(vs) {
      ShorterIsHidden(vs, ws, i);
    }
    if i :| 0 <= i < |vs| - 1 && !Unambiguous(vs[i]) {
      var ws := AmbiguousCollides(vs, i);
    }
  }

  lemma JoinPair(v: string, w: string)
    ensures JoinValues([v, w]) == v + SEPARATOR + w + SEPARATOR
  {
    assert [v, w][1..] == [w] && [w][1..] == [];
    assert JoinValues([w]) == w + SEPARATOR + "";
  }

  // ---------------------------------------------------------------------------------------
  // Matches
  // ---------------------------------------------------------------------------------------

  datatype Criteria = Criteria(filter: bool, terms: seq<string>, unique: bool, fields: seq<string>) {

    ghost predicate Passes(node: XmlNode) { filter ==> FilterPasses(terms, node) }

    ghost function Key(node: XmlNode): string
      requires node.Ctx().Some?
    {
      UniqueKey(fields, node.Ctx().value)
    }

    /** The source reads the context of every node it checks for uniqueness. */
    ghost predicate Applicable(nodes: seq<XmlNode>) {
      unique ==> forall i | 0 <= i < |nodes| && Passes(nodes[i]) :: nodes[i].Ctx().Some?
    }

    /** Node i passes the filter, and is the first such node with its key. */
    ghost predicate Keeps(nodes: seq<XmlNode>, i: nat)
      requires Applicable(nodes) && i < |nodes|
    {
      Passes(nodes[i]) &&
      (unique ==> forall j | 0 <= j < i && Passes(nodes[j]) :: Key(nodes[j]) != Key(nodes[i]))
    }

    /** The matches among the first n nodes, in order. */
    ghost function Matched(nodes: seq<XmlNode>, n: nat): seq<XmlNode>
      requires Applicable(nodes) && n <= |nodes|
    {
      if n == 0 then [] else Matched(nodes, n - 1) + if Keeps(nodes, n - 1) then [nodes[n - 1]] else []
    }

    lemma {:induction false} MatchedAtMost(nodes: seq<XmlNode>, n: nat)
      requires Applicable(nodes) && n <= |nodes|
      ensures |Matched(nodes, n)| <= n
      ensures !filter && !unique ==> Matched(nodes, n) == nodes[..n]
      ensures forall k | 0 <= k < |Matched(nodes, n)| :: Matched(nodes, n)[k] in nodes
    {
      if n > 0 { MatchedAtMost(nodes, n - 1); }
    }

    ghost function TupleOf(node: XmlNode): seq<string>
      requires node.Ctx().Some?
    {
      Values(fields, node.Ctx().value)
    }

    /** When no value but the last hides a separator, the nodes kept are exactly the first passing node of each
        tuple of field values. */
    lemma KeepsFirstOfTuple(nodes: seq<XmlNode>, i: nat)
      requires unique && Applicable(nodes) && i < |nodes|
      requires forall j, k | 0 <= j < |nodes| && Passes(nodes[j]) && 0 <= k < |fields| - 1 :: Unambiguous(TupleOf(nodes[j])[k])
      ensures Keeps(nodes, i) <==>
              Passes(nodes[i]) && forall j | 0 <= j < i && Passes(nodes[j]) :: TupleOf(nodes[j]) != TupleOf(nodes[i])
    {
      if Passes(nodes[i]) {
        forall j | 0 <= j < i && Passes(nodes[j])
          ensures Key(nodes[j]) == Key(nodes[i]) <==> TupleOf(nodes[j]) == TupleOf(nodes[i])
        {
          UniqueKeyIsJoin(fields, nodes[i].Ctx().value);
          UniqueKeyIsJoin(fields, nodes[j].Ctx().value);
          if Key(nodes[j]) == Key(nodes[i]) { JoinInjective(TupleOf(nodes[j]), TupleOf(nodes[i])); }
        }
      }
    }
  }

  /** Two nodes with different tuples and one key: the second is dropped although its tuple is new. */
  lemma JoinedKeyMerges() returns (c: Criteria, nodes: seq<XmlNode>)
    ensures c.unique && c.Applicable(nodes) && |nodes| == 2 && nodes[0].Ctx().Some? && nodes[1].Ctx().Some?
    ensures c.TupleOf(nodes[0]) == ["a~!~b", "c"] && c.TupleOf(nodes[1]) == ["a", "b~!~c"]
    ensures !c.Keeps(nodes, 1)
  {
    var first := Context(1, map["x" := "a~!~b", "y" := "c"], map[]);
    var second := Context(2, map["x" := "a", "y" := "b~!~c"], map[]);
    c := Criteria(false, [], true, ["x", "y"]);
    nodes := [Element([], Some(first)), Element([], Some(second))];
    UniqueKeyIsJoin(c.fields, first);
    UniqueKeyIsJoin(c.fields, second);
    assert Values(c.fields, first) == ["a~!~b", "c"] && Values(c.fields, second) == ["a", "b~!~c"];
    JoinPair("a~!~b", "c");
    JoinPair("a", "b~!~c");
    assert "a~!~b" + SEPARATOR + "c" + SEPARATOR == "a" + SEPARATOR + "b~!~c" + SEPARATOR;
    assert c.Passes(nodes[0]) && c.Key(nodes[0]) == c.Key(nodes[1]);
  }
}
