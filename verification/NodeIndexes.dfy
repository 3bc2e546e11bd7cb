/** The tree pass after loading (context.cpp, the `Context` constructor; site.cpp, `loadXmlDoc`):
    staging nodes are unlinked, and every other node that the pass reaches is entered in the id and
    permalink maps. */
module NodeIndexes {
  import opened Wrappers
  import opened Strings

  /** A node of the document; attributes in document order. */
  datatype Xml = Element(attrs: seq<(string, string)>, children: seq<Xml>) | Other

  /** What the pass depends on: whether staging content is shown, and the types of structures. */
  datatype Config = Config(stagingMode: bool, types: map<int, string>)

  /** Child positions from the root. */
  type Path = seq<nat>

  // ---------------------------------------------------------------------------------------
  // Attributes
  // ---------------------------------------------------------------------------------------

  /** `isspace` */
  predicate IsSpace(c: char) { c == ' ' || '\t' <= c <= '\r' }

  function SkipSpace(s: string): string {
    if s != "" && IsSpace(s[0]) then SkipSpace(s[1..]) else s
  }

  /** The number that a string starts with, or zero. */
  function LeadingNumber(s: string): int { DigitsValue(s[..DigitRun(s)]) }

  /** `atoi` */
  function Atoi(s: string): int {
    var t := SkipSpace(s);
    if t != "" && t[0] == '-' then -LeadingNumber(t[1..])
    else if t != "" && t[0] == '+' then LeadingNumber(t[1..])
    else LeadingNumber(t)
  }

  /** White space, a sign, digits, and anything that does not go on with a digit. */
  lemma AtoiMeaning(space: string, sign: string, digits: string, rest: string)
    requires forall k | 0 <= k < |space| :: space[k] in " \t\n\r"
    requires sign in ["", "-", "+"] && digits != "" && AllDigits(digits) && (rest != "" ==> !IsDigit(rest[0]))
    ensures Atoi(space + (sign + (digits + rest))) == if sign == "-" then 0 - DigitsValue(digits) else DigitsValue(digits)
  {
    var t := sign + (digits + rest);
    assert t[0] == if sign == "" then digits[0] else sign[0];
    SkipSpaceIs(space, t);
    DigitRunIs(digits, rest);
    assert (digits + rest)[..|digits|] == digits;
    assert sign == "" ==> t == digits + rest;
    assert sign != "" ==> t[1..] == digits + rest;
  }

  lemma {:induction false} SkipSpaceIs(space: string, t: string)
    requires (forall k | 0 <= k < |space| :: IsSpace(space[k])) && t != "" && !IsSpace(t[0])
    ensures SkipSpace(space + t) == t
  {
    if space == "" {
      assert space + t == t;
    } else {
      SkipSpaceIs(space[1..], t);
      assert (space + t)[1..] == space[1..] + t;
    }
  }

  /** The value of the last attribute with the name among the first n. */
  function LastAttr(attrs: seq<(string, string)>, n: nat, name: string): Option<string>
    requires n <= |attrs|
  {
    if n == 0 then None else if attrs[n - 1].0 == name then Some(attrs[n - 1].1) else LastAttr(attrs, n - 1, name)
  }

  function Attr(attrs: seq<(string, string)>, name: string): Option<string> { LastAttr(attrs, |attrs|, name) }

  function NumberAttr(attrs: seq<(string, string)>, name: string): int {
    match Attr(attrs, name) case Some(v) => Atoi(v) case None => 0
  }

  predicate Killed(c: Config, attrs: seq<(string, string)>) { !c.stagingMode && Attr(attrs, "staging").Some? }

  predicate IsAssociationType(c: Config, structureId: int) {
    structureId > 0 && structureId in c.types &&
    (c.types[structureId] == "AssociationItem" || c.types[structureId] == "SingleAssociationItem")
  }

  predicate IsAssociation(c: Config, attrs: seq<(string, string)>) { IsAssociationType(c, NumberAttr(attrs, "type")) }

  datatype Populated = Populated(killed: bool, id: int, structureId: int, permalink: Option<string>)

  lemma {:induction false} LastAttrNone(attrs: seq<(string, string)>, n: nat, name: string)
    requires n <= |attrs|
    ensures LastAttr(attrs, n, name) == None <==> forall k | 0 <= k < n :: attrs[k].0 != name
  {
    if n > 0 { LastAttrNone(attrs, n - 1, name); }
  }

  ghost predicate HasAttr(attrs: seq<(string, string)>, name: string) { exists i | 0 <= i < |attrs| :: attrs[i].0 == name }

  /** Attribute i is the last one with the name. */
  ghost predicate IsLastAttr(attrs: seq<(string, string)>, name: string, i: nat) {
    i < |attrs| && attrs[i].0 == name && forall k | i < k < |attrs| :: attrs[k].0 != name
  }

  lemma {:induction false} LastAttrIs(attrs: seq<(string, string)>, n: nat, name: string, i: nat)
    requires i < n <= |attrs| && attrs[i].0 == name && forall k | i < k < n :: attrs[k].0 != name
    ensures LastAttr(attrs, n, name) == Some(attrs[i].1)
  {
    if i < n - 1 { LastAttrIs(attrs, n - 1, name, i); }
  }

  lemma AttrMeaning(attrs: seq<(string, string)>, name: string)
    ensures Attr(attrs, name) == None <==> !HasAttr(attrs, name)
    ensures forall i: nat | IsLastAttr(attrs, name, i) :: Attr(attrs, name) == Some(attrs[i].1)
  {
    LastAttrNone(attrs, |attrs|, name);
    forall i: nat | IsLastAttr(attrs, name, i)
      ensures Attr(attrs, name) == Some(attrs[i].1)
    {
      LastAttrIs(attrs, |attrs|, name, i);
    }
  }

  /** `populateAttrs` up to the structure lookup: it stops at a staging attribute. */
  method PopulateAttrs(c: Config, attrs: seq<(string, string)>) returns (p: Populated)
    ensures p.killed == Killed(c, attrs)
    ensures !p.killed ==> p.id == NumberAttr(attrs, "id") && p.structureId == NumberAttr(attrs, "type")
    ensures !p.killed ==> p.permalink == Attr(attrs, "permalink")
    ensures p.killed <==> !c.stagingMode && HasAttr(attrs, "staging")
    ensures !p.killed ==>
              && (forall i: nat | IsLastAttr(attrs, "id", i) :: p.id == Atoi(attrs[i].1))
              && (forall i: nat | IsLastAttr(attrs, "type", i) :: p.structureId == Atoi(attrs[i].1))
              && (forall i: nat | IsLastAttr(attrs, "permalink", i) :: p.permalink == Some(attrs[i].1))
    ensures !p.killed ==>
              && (!HasAttr(attrs, "id") ==> p.id == 0) && (!HasAttr(attrs, "type") ==> p.structureId == 0)
              && (!HasAttr(attrs, "permalink") ==> p.permalink == None)
  {
    AttrMeaning(attrs, "id");
    AttrMeaning(attrs, "type");
    AttrMeaning(attrs, "permalink");
    AttrMeaning(attrs, "staging");
    p := ReadAttrs(c, attrs);
  }

  /** The loop over the attributes. */
  method ReadAttrs(c: Config, attrs: seq<(string, string)>) returns (p: Populated)
    ensures p.killed == Killed(c, attrs)
    ensures !p.killed ==> p.id == NumberAttr(attrs, "id") && p.structureId == NumberAttr(attrs, "type")
    ensures !p.killed ==> p.permalink == Attr(attrs, "permalink")
  {
    p := Populated(false, 0, 0, None);
    var n := 0;
    while n < |attrs|
      invariant 0 <= n <= |attrs| && !p.killed
      invariant c.stagingMode || LastAttr(attrs, n, "staging") == None
      invariant p.id == match LastAttr(attrs, n, "id") case Some(v) => Atoi(v) case None => 0
      invariant p.structureId == match LastAttr(attrs, n, "type") case Some(v) => Atoi(v) case None => 0
      invariant p.permalink == LastAttr(attrs, n, "permalink")
    {
      var (name, value) := attrs[n];
      if name == "id" { p := p.(id := Atoi(value)); }
      if name == "type" { p := p.(structureId := Atoi(value)); }
      if name == "permalink" { p := p.(permalink := Some(value)); }
      if !c.stagingMode && name == "staging" {
        LastAttrNone(attrs, |attrs|, "staging");
        return p.(killed := true);
      }
      n := n + 1;
    }
  }

  // ---------------------------------------------------------------------------------------
  // The pass
  // ---------------------------------------------------------------------------------------

  /** An entry made in the maps; the path is relative to where the visit started. */
  datatype Visit = Visit(path: Path, id: int, permalink: Option<string>, association: bool)

  function VisitOf(c: Config, attrs: seq<(string, string)>): Visit {
    Visit([], NumberAttr(attrs, "id"), Attr(attrs, "permalink"), IsAssociation(c, attrs))
  }

  /** The visits as seen from `path` above. */
  function Under(path: Path, vs: seq<Visit>): seq<Visit> {
    seq(|vs|, i requires 0 <= i < |vs| => vs[i].(path := path + vs[i].path))
  }

  /** The entries made for a node and what is below it, in the order in which they are made. */
  function VisitNode(c: Config, x: Xml): seq<Visit>
    decreases x, 0
  {
    if x.Other? || Killed(c, x.attrs) then []
    else if IsAssociation(c, x.attrs) then [VisitOf(c, x.attrs)]
    else VisitForest(c, x.children, |x.children|) + [VisitOf(c, x.attrs)]
  }

  function VisitForest(c: Config, xs: seq<Xml>, n: nat): seq<Visit>
    requires n <= |xs|
    decreases xs, n
  {
    if n == 0 then [] else VisitForest(c, xs, n - 1) + Under([n - 1], VisitNode(c, xs[n - 1]))
  }

  function Prune(c: Config, x: Xml): Xml
    decreases x, 0
  {
    if x.Other? || IsAssociation(c, x.attrs) then x else Element(x.attrs, PruneForest(c, x.children, |x.children|))
  }

  function PruneForest(c: Config, xs: seq<Xml>, n: nat): seq<Xml>
    requires n <= |xs|
    decreases xs, n
  {
    if n == 0 then [] else PruneForest(c, xs, n - 1) + if Survives(c, xs[n - 1]) then [Prune(c, xs[n - 1])] else []
  }

  predicate Survives(c: Config, x: Xml) { x.Other? || !Killed(c, x.attrs) }

  /** What the pass fills in: the id and permalink maps, and the associations to initialize. */
  datatype Maps = Maps(nodes: map<int, Path>, permalinks: map<string, Path>, associations: seq<Path>)

  function EnterOne(m: Maps, v: Visit): Maps {
    Maps(m.nodes[v.id := v.path],
         match v.permalink case Some(k) => m.permalinks[k := v.path] case None => m.permalinks,
         m.associations + if v.association then [v.path] else [])
  }

  /** Entering visits one after the other; a later entry replaces an earlier one. */
  function Enter(m: Maps, vs: seq<Visit>): Maps {
    if vs == [] then m else EnterOne(Enter(m, vs[..|vs| - 1]), vs[|vs| - 1])
  }

  lemma {:induction false} EnterAppend(m: Maps, vs: seq<Visit>, ws: seq<Visit>)
    ensures Enter(m, vs + ws) == Enter(Enter(m, vs), ws)
  {
    if ws == [] {
      assert vs + ws == vs;
    } else {
      EnterAppend(m, vs, ws[..|ws| - 1]);
      assert (vs + ws)[..|vs + ws| - 1] == vs + ws[..|ws| - 1];
    }
  }

  /** The maps after the pass over the children of the root. */
  function Loaded(c: Config, xs: seq<Xml>): Maps {
    Enter(Maps(map[], map[], []), Under([], VisitForest(c, xs, |xs|)))
  }

  class SiteIndex {
    const config: Config
    var nodes: map<int, Path>
    var permalinks: map<string, Path>
    var associationsToInitialize: seq<Path>

    constructor (config: Config)
      ensures this.config == config && Now() == Maps(map[], map[], [])
    {
      this.config, nodes, permalinks, associationsToInitialize := config, map[], map[], [];
    }

    ghost function Now(): Maps
      reads this
    {
      Maps(nodes, permalinks, associationsToInitialize)
    }

    /** `loadXmlDoc`: the root itself gets no context. */
    method LoadXmlDoc(rootChildren: seq<Xml>) returns (kept: seq<Xml>)
      requires Now() == Maps(map[], map[], [])
      modifies this
      ensures kept == PruneForest(config, rootChildren, |rootChildren|)
      ensures Now() == Loaded(config, rootChildren)
      ensures config.stagingMode ==> kept == rootChildren
      ensures !config.stagingMode ==> AllUnstaged(config, kept)
    {
      if config.stagingMode { StagingShowsAll(config, rootChildren, |rootChildren|); } else { NothingStaged(config, rootChildren, |rootChildren|); }
      kept := BuildChildren(rootChildren, []);
    }

    /** The constructor of a context; None is `killMe`.  Otherwise the node as it is after the pass. */
    method BuildContext(x: Xml, path: Path) returns (kept: Option<Xml>)
      requires x.Element?
      modifies this
      ensures kept == if Survives(config, x) then Some(Prune(config, x)) else None
      ensures Now() == Enter(old(Now()), Under(path, VisitNode(config, x)))
      decreases x, 0
    {
      var p := PopulateAttrs(config, x.attrs);
      if p.killed { return None; }
      var children := x.children;
      if IsAssociationType(config, p.structureId) {
        associationsToInitialize := associationsToInitialize + [path];
      } else {
        children := BuildChildren(x.children, path);
      }
      if p.permalink.Some? {
        permalinks := permalinks[p.permalink.value := path];
      }
      nodes := nodes[p.id := path];
      kept := Some(Element(x.attrs, children));
      EnterSelf(config, x, path, old(Now()));
    }

    /** The loop over the children, which unlinks while it walks. */
    method BuildChildren(xs: seq<Xml>, path: Path) returns (kept: seq<Xml>)
      modifies this
      ensures kept == PruneForest(config, xs, |xs|)
      ensures Now() == Enter(old(Now()), Under(path, VisitForest(config, xs, |xs|)))
      decreases xs
    {
      kept := [];
      var n := 0;
      while n < |xs|
        invariant 0 <= n <= |xs| && kept == PruneForest(config, xs, n)
        invariant Now() == Enter(old(Now()), Under(path, VisitForest(config, xs, n)))
      {
        var r := BuildChild(xs[n], path + [n]);
        EnterStep(config, xs, n, path, old(Now()));
        kept := kept + if r.Some? then [r.value] else [];
        n := n + 1;
      }
    }

    /** One child: only elements get a context. */
    method BuildChild(x: Xml, path: Path) returns (kept: Option<Xml>)
      modifies this
      ensures kept == if Survives(config, x) then Some(Prune(config, x)) else None
      ensures Now() == Enter(old(Now()), Under(path, VisitNode(config, x)))
      decreases x, 1
    {
      if x.Element? { kept := BuildContext(x, path); } else { kept := Some(x); }
    }
  }

  /** In staging mode nothing is pruned. */
  lemma {:induction false} StagingShowsAll(c: Config, xs: seq<Xml>, n: nat)
    requires c.stagingMode && n <= |xs|
    ensures PruneForest(c, xs, n) == xs[..n]
    ensures n == |xs| ==> PruneForest(c, xs, n) == xs
    decreases xs, n
  {
    if n > 0 {
      StagingShowsAll(c, xs, n - 1);
      StagingShows(c, xs[n - 1]);
      assert xs[..n] == xs[..n - 1] + [xs[n - 1]];
    }
    if n == |xs| { assert xs[..n] == xs; }
  }

  lemma {:induction false} StagingShows(c: Config, x: Xml)
    requires c.stagingMode
    ensures Survives(c, x) && Prune(c, x) == x
    decreases x, 0
  {
    if x.Element? { StagingShowsAll(c, x.children, |x.children|); }
  }

  /** No staging content is left, down to the items of associations. */
  ghost predicate Unstaged(c: Config, x: Xml)
    decreases x, 0
  {
    x.Element? ==> !HasAttr(x.attrs, "staging") && (IsAssociation(c, x.attrs) || AllUnstaged(c, x.children))
  }

  ghost predicate AllUnstaged(c: Config, xs: seq<Xml>)
    decreases xs
  {
    forall i | 0 <= i < |xs| :: Unstaged(c, xs[i])
  }

  lemma {:induction false} NothingStaged(c: Config, xs: seq<Xml>, n: nat)
    requires !c.stagingMode && n <= |xs|
    ensures AllUnstaged(c, PruneForest(c, xs, n))
    decreases xs, n
  {
    if n > 0 {
      NothingStaged(c, xs, n - 1);
      var x, front := xs[n - 1], PruneForest(c, xs, n - 1);
      if Survives(c, x) {
        UnstagedNode(c, x);
        assert PruneForest(c, xs, n) == front + [Prune(c, x)];
      } else {
        assert PruneForest(c, xs, n) == front;
      }
    }
  }

  lemma {:induction false} UnstagedNode(c: Config, x: Xml)
    requires !c.stagingMode && Survives(c, x)
    ensures Unstaged(c, Prune(c, x))
    decreases x, 0
  {
    if x.Element? {
      AttrMeaning(x.attrs, "staging");
      NothingStaged(c, x.children, |x.children|);
    }
  }

  /** An item of an association is entered and recorded, and what is below it is left alone. */
  lemma AssociationsEnd(c: Config, x: Xml, i: nat)
    requires x.Element? && IsLastAttr(x.attrs, "type", i)
    ensures var id := Atoi(x.attrs[i].1);
            IsAssociation(c, x.attrs) <==> id > 0 && id in c.types && c.types[id] in ["AssociationItem", "SingleAssociationItem"]
    ensures IsAssociation(c, x.attrs) ==> Prune(c, x) == x
    ensures IsAssociation(c, x.attrs) && !Killed(c, x.attrs) ==> |VisitNode(c, x)| == 1 && VisitNode(c, x)[0].association
  {
    AttrMeaning(x.attrs, "type");
  }

  lemma UnderStep(c: Config, xs: seq<Xml>, n: nat, path: Path)
    requires n < |xs|
    ensures Under(path, VisitForest(c, xs, n + 1)) ==
            Under(path, VisitForest(c, xs, n)) + Under(path + [n], VisitNode(c, xs[n]))
  {
    var vs := VisitNode(c, xs[n]);
    forall i | 0 <= i < |vs|
      ensures path + ([n] + vs[i].path) == path + [n] + vs[i].path
    {
    }
  }

  lemma EnterStep(c: Config, xs: seq<Xml>, n: nat, path: Path, m: Maps)
    requires n < |xs|
    ensures Enter(m, Under(path, VisitForest(c, xs, n + 1))) ==
            Enter(Enter(m, Under(path, VisitForest(c, xs, n))), Under(path + [n], VisitNode(c, xs[n])))
  {
    UnderStep(c, xs, n, path);
    EnterAppend(m, Under(path, VisitForest(c, xs, n)), Under(path + [n], VisitNode(c, xs[n])));
  }

  lemma EnterSnoc(m: Maps, front: seq<Visit>, v: Visit)
    ensures Enter(m, front + [v]) == EnterOne(Enter(m, front), v)
  {
    assert (front + [v])[..|front|] == front;
  }

  lemma EnterUnderSnoc(m: Maps, path: Path, front: seq<Visit>, v: Visit)
    requires v.path == []
    ensures Enter(m, Under(path, front + [v])) == EnterOne(Enter(m, Under(path, front)), v.(path := path))
  {
    assert Under(path, front + [v]) == Under(path, front) + [v.(path := path)] by {
      assert path + [] == path;
    }
    EnterSnoc(m, Under(path, front), v.(path := path));
  }

  /** The visits strictly below a node that survives. */
  function VisitsBelow(c: Config, x: Xml): seq<Visit>
    requires x.Element?
  {
    if IsAssociation(c, x.attrs) then [] else VisitForest(c, x.children, |x.children|)
  }

  lemma VisitNodeIs(c: Config, x: Xml)
    requires x.Element? && !Killed(c, x.attrs)
    ensures VisitNode(c, x) == VisitsBelow(c, x) + [VisitOf(c, x.attrs)]
  {
  }

  lemma EnterSelf(c: Config, x: Xml, path: Path, m: Maps)
    requires x.Element? && !Killed(c, x.attrs)
    ensures Enter(m, Under(path, VisitNode(c, x))) ==
            EnterOne(Enter(m, Under(path, VisitsBelow(c, x))), VisitOf(c, x.attrs).(path := path))
  {
    VisitNodeIs(c, x);
    EnterUnderSnoc(m, path, VisitsBelow(c, x), VisitOf(c, x.attrs));
  }
}
