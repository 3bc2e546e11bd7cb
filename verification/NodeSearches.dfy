/** The maps that the tree pass fills agree with a search of the tree (context.cpp, site.cpp; used by
    `Query::find`, query.cpp). */
module NodeSearches {
  import opened Wrappers
  import opened NodeIndexes

  // ---------------------------------------------------------------------------------------
  // Searching
  // ---------------------------------------------------------------------------------------

  /** The path leads to an element, no node on it is hidden as staging content, and no node strictly
      above its end is an association item. */
  ghost predicate Reached(c: Config, xs: seq<Xml>, path: Path)
    decreases |path|
  {
    && path != [] && path[0] < |xs|
    && var x := xs[path[0]];
       x.Element? && !Killed(c, x.attrs) && (|path| == 1 || (!IsAssociation(c, x.attrs) && Reached(c, x.children, path[1..])))
  }

  ghost function AttrsAt(c: Config, xs: seq<Xml>, path: Path): seq<(string, string)>
    requires Reached(c, xs, path)
    decreases |path|
  {
    if |path| == 1 then xs[path[0]].attrs else AttrsAt(c, xs[path[0]].children, path[1..])
  }

  /** Post-order: what is below a node comes before it, and earlier siblings before later ones. */
  ghost predicate PostBefore(p: Path, q: Path) {
    p != [] && (q == [] || p[0] < q[0] || (p[0] == q[0] && PostBefore(p[1..], q[1..])))
  }

  // ---------------------------------------------------------------------------------------
  // The visits are the search in post-order
  // ---------------------------------------------------------------------------------------

  ghost predicate IsVisitOf(c: Config, xs: seq<Xml>, n: nat, v: Visit) {
    Reached(c, xs, v.path) && v.path[0] < n && v == VisitOf(c, AttrsAt(c, xs, v.path)).(path := v.path)
  }

  ghost predicate Sound(c: Config, xs: seq<Xml>, n: nat, vs: seq<Visit>) {
    forall i | 0 <= i < |vs| :: IsVisitOf(c, xs, n, vs[i])
  }

  ghost predicate HasPath(vs: seq<Visit>, path: Path) { exists i | 0 <= i < |vs| :: vs[i].path == path }

  ghost predicate Complete(c: Config, xs: seq<Xml>, n: nat, vs: seq<Visit>) {
    forall path | Reached(c, xs, path) && path[0] < n :: HasPath(vs, path)
  }

  ghost predicate InPostOrder(vs: seq<Visit>) {
    forall i, j | 0 <= i < j < |vs| :: PostBefore(vs[i].path, vs[j].path)
  }

  lemma PostBeforeUnder(a: nat, p: Path, q: Path)
    ensures PostBefore([a] + p, [a] + q) == PostBefore(p, q)
  {
    assert ([a] + p)[1..] == p && ([a] + q)[1..] == q;
  }

  /** The visits below a node are the search below it, if the pass goes there at all. */
  ghost predicate BelowOk(c: Config, x: Xml)
    requires x.Element?
  {
    if IsAssociation(c, x.attrs) then VisitsBelow(c, x) == []
    else IsSearch(c, x.children, |x.children|, VisitsBelow(c, x))
  }

  /** The visits of child n, seen from its parent. */
  ghost function ChildVisits(c: Config, xs: seq<Xml>, n: nat): seq<Visit>
    requires n < |xs| && xs[n].Element?
  {
    Under([n], VisitsBelow(c, xs[n]) + [VisitOf(c, xs[n].attrs)])
  }

  ghost predicate IsVisitOfChild(c: Config, xs: seq<Xml>, n: nat, v: Visit) {
    IsVisitOf(c, xs, n + 1, v) && v.path[0] == n
  }

  lemma ChildSound(c: Config, xs: seq<Xml>, n: nat, i: nat)
    requires n < |xs| && xs[n].Element? && Survives(c, xs[n]) && BelowOk(c, xs[n])
    requires i < |ChildVisits(c, xs, n)|
    ensures IsVisitOfChild(c, xs, n, ChildVisits(c, xs, n)[i])
  {
    var x, below, w := xs[n], VisitsBelow(c, xs[n]), ChildVisits(c, xs, n)[i];
    if i < |below| {
      assert IsVisitOf(c, x.children, |x.children|, below[i]);
      assert w.path[1..] == below[i].path;
    } else {
      assert w.path == [n];
    }
  }

  lemma ChildComplete(c: Config, xs: seq<Xml>, n: nat, path: Path)
    requires n < |xs| && xs[n].Element? && Survives(c, xs[n]) && BelowOk(c, xs[n])
    requires Reached(c, xs, path) && path[0] == n
    ensures HasPath(ChildVisits(c, xs, n), path)
  {
    var below, ws := VisitsBelow(c, xs[n]), ChildVisits(c, xs, n);
    if |path| == 1 {
      assert ws[|below|].path == [n] + [] == path;
    } else {
      assert HasPath(below, path[1..]);
      var i :| 0 <= i < |below| && below[i].path == path[1..];
      assert ws[i].path == [n] + path[1..] == path;
    }
  }

  lemma ChildInPostOrder(c: Config, xs: seq<Xml>, n: nat)
    requires n < |xs| && xs[n].Element? && BelowOk(c, xs[n])
    ensures InPostOrder(ChildVisits(c, xs, n))
  {
    var below, ws := VisitsBelow(c, xs[n]), ChildVisits(c, xs, n);
    var all := below + [VisitOf(c, xs[n].attrs)];
    forall i, j | 0 <= i < j < |ws|
      ensures PostBefore(ws[i].path, ws[j].path)
    {
      PostBeforeUnder(n, all[i].path, all[j].path);
      assert IsVisitOf(c, xs[n].children, |xs[n].children|, below[i]);
    }
  }

  /** These visits are the search of the first n nodes and of what is below them, in post-order. */
  ghost predicate IsSearch(c: Config, xs: seq<Xml>, n: nat, vs: seq<Visit>) {
    Sound(c, xs, n, vs) && Complete(c, xs, n, vs) && InPostOrder(vs)
  }

  /** The pass enters exactly the nodes that a search reaches, in post-order. */
  lemma {:induction false} VisitsAreSearch(c: Config, xs: seq<Xml>, n: nat)
    requires n <= |xs|
    ensures IsSearch(c, xs, n, VisitForest(c, xs, n))
    decreases xs, n
  {
    if n == 0 {
      NothingSearched(c, xs);
    } else {
      VisitsAreSearch(c, xs, n - 1);
      ChildSearched(c, xs[n - 1]);
      VisitChild(c, xs, n - 1, VisitForest(c, xs, n - 1));
    }
  }

  lemma NothingSearched(c: Config, xs: seq<Xml>)
    ensures IsSearch(c, xs, 0, [])
  {
  }

  lemma {:induction false} ChildSearched(c: Config, x: Xml)
    ensures x.Element? ==> BelowOk(c, x)
    decreases x, 0
  {
    if x.Element? {
      VisitsAreSearch(c, x.children, |x.children|);
      SearchedBelow(c, x);
    }
  }

  lemma SearchedBelow(c: Config, x: Xml)
    requires x.Element? && IsSearch(c, x.children, |x.children|, VisitForest(c, x.children, |x.children|))
    ensures BelowOk(c, x)
  {
  }

  lemma VisitChild(c: Config, xs: seq<Xml>, n: nat, front: seq<Visit>)
    requires n < |xs| && IsSearch(c, xs, n, front)
    requires xs[n].Element? ==> BelowOk(c, xs[n])
    ensures IsSearch(c, xs, n + 1, front + Under([n], VisitNode(c, xs[n])))
  {
    if xs[n].Element? && Survives(c, xs[n]) {
      AppendVisits(c, xs, n, front);
      VisitNodeIs(c, xs[n]);
    } else {
      SkipChild(c, xs, n, front);
      assert front + Under([n], []) == front;
    }
  }

  /** The search finds nothing at a node that the pass skips. */
  lemma SkipChild(c: Config, xs: seq<Xml>, n: nat, front: seq<Visit>)
    requires n < |xs| && !(xs[n].Element? && Survives(c, xs[n]))
    requires Sound(c, xs, n, front) && Complete(c, xs, n, front)
    ensures Sound(c, xs, n + 1, front) && Complete(c, xs, n + 1, front)
  {
    forall i | 0 <= i < |front|
      ensures IsVisitOf(c, xs, n + 1, front[i])
    {
      assert IsVisitOf(c, xs, n, front[i]);
    }
  }

  lemma AppendVisits(c: Config, xs: seq<Xml>, n: nat, front: seq<Visit>)
    requires n < |xs| && xs[n].Element? && Survives(c, xs[n]) && BelowOk(c, xs[n])
    requires Sound(c, xs, n, front) && Complete(c, xs, n, front) && InPostOrder(front)
    ensures var all := front + ChildVisits(c, xs, n);
            Sound(c, xs, n + 1, all) && Complete(c, xs, n + 1, all) && InPostOrder(all)
  {
    var ws := ChildVisits(c, xs, n);
    forall i | 0 <= i < |ws|
      ensures IsVisitOfChild(c, xs, n, ws[i])
    {
      ChildSound(c, xs, n, i);
    }
    ChildInPostOrder(c, xs, n);
    AppendSound(c, xs, n, front, ws);
    forall path | Reached(c, xs, path) && path[0] == n
      ensures HasPath(ws, path)
    {
      ChildComplete(c, xs, n, path);
    }
    AppendComplete(c, xs, n, front, ws);
  }

  lemma AppendSound(c: Config, xs: seq<Xml>, n: nat, front: seq<Visit>, ws: seq<Visit>)
    requires Sound(c, xs, n, front) && InPostOrder(front) && InPostOrder(ws)
    requires forall i | 0 <= i < |ws| :: IsVisitOfChild(c, xs, n, ws[i])
    ensures Sound(c, xs, n + 1, front + ws) && InPostOrder(front + ws)
  {
    var all := front + ws;
    forall i | 0 <= i < |all|
      ensures IsVisitOf(c, xs, n + 1, all[i])
    {
      if i < |front| { assert IsVisitOf(c, xs, n, front[i]); }
    }
    forall i, j | 0 <= i < j < |all|
      ensures PostBefore(all[i].path, all[j].path)
    {
      if i < |front| { assert IsVisitOf(c, xs, n, front[i]); }
    }
  }

  lemma AppendComplete(c: Config, xs: seq<Xml>, n: nat, front: seq<Visit>, ws: seq<Visit>)
    requires Complete(c, xs, n, front)
    requires forall path | Reached(c, xs, path) && path[0] == n :: HasPath(ws, path)
    ensures Complete(c, xs, n + 1, front + ws)
  {
    var all := front + ws;
    forall path | Reached(c, xs, path) && path[0] < n + 1
      ensures HasPath(all, path)
    {
      if path[0] < n {
        assert HasPath(front, path);
        var i :| 0 <= i < |front| && front[i].path == path;
        assert all[i].path == path;
      } else {
        var i :| 0 <= i < |ws| && ws[i].path == path;
        assert all[|front| + i].path == path;
      }
    }
  }

  // ---------------------------------------------------------------------------------------
  // The maps
  // ---------------------------------------------------------------------------------------

  /** Visit i is the last one that satisfies `key`. */
  ghost predicate IsLast(vs: seq<Visit>, i: nat, key: Visit -> bool) {
    i < |vs| && key(vs[i]) && forall j | i < j < |vs| :: !key(vs[j])
  }

  function HasId(id: int): Visit -> bool { (v: Visit) => v.id == id }

  function HasPermalink(k: string): Visit -> bool { (v: Visit) => v.permalink == Some(k) }

  lemma {:induction false} NodesHoldLast(vs: seq<Visit>, id: int) returns (i: nat)
    ensures var nodes := Enter(Maps(map[], map[], []), vs).nodes;
            if id in nodes then IsLast(vs, i, HasId(id)) && nodes[id] == vs[i].path
            else forall j | 0 <= j < |vs| :: vs[j].id != id
  {
    i := 0;
    if vs != [] {
      var n := |vs| - 1;
      i := NodesHoldLast(vs[..n], id);
      if vs[n].id == id { i := n; }
    }
  }

  lemma {:induction false} PermalinksHoldLast(vs: seq<Visit>, k: string) returns (i: nat)
    ensures var permalinks := Enter(Maps(map[], map[], []), vs).permalinks;
            if k in permalinks then IsLast(vs, i, HasPermalink(k)) && permalinks[k] == vs[i].path
            else forall j | 0 <= j < |vs| :: vs[j].permalink != Some(k)
  {
    i := 0;
    if vs != [] {
      var n := |vs| - 1;
      i := PermalinksHoldLast(vs[..n], k);
      if vs[n].permalink == Some(k) { i := n; }
    }
  }

  lemma UnderNothing(vs: seq<Visit>)
    ensures Under([], vs) == vs
  {
    forall i | 0 <= i < |vs|
      ensures Under([], vs)[i] == vs[i]
    {
      assert [] + vs[i].path == vs[i].path;
    }
  }

  /** The node at the path satisfies `key`, and every other reached node that does comes before it in
      post-order. */
  ghost predicate LastReached(c: Config, xs: seq<Xml>, path: Path, key: Visit -> bool) {
    && Reached(c, xs, path) && key(VisitOf(c, AttrsAt(c, xs, path)))
    && forall q | Reached(c, xs, q) && key(VisitOf(c, AttrsAt(c, xs, q))) && q != path :: PostBefore(q, path)
  }

  ghost predicate PathBlind(key: Visit -> bool) { forall v: Visit, p: Path :: key(v.(path := p)) == key(v) }

  /** What is asked of a node does not depend on where it is entered. */
  lemma SameKey(c: Config, xs: seq<Xml>, v: Visit, key: Visit -> bool)
    requires IsVisitOf(c, xs, |xs|, v) && PathBlind(key)
    ensures key(v) == key(VisitOf(c, AttrsAt(c, xs, v.path)))
  {
  }

  lemma LastVisitIsLastReached(c: Config, xs: seq<Xml>, vs: seq<Visit>, i: nat, key: Visit -> bool)
    requires vs == VisitForest(c, xs, |xs|) && IsLast(vs, i, key) && PathBlind(key)
    ensures LastReached(c, xs, vs[i].path, key)
  {
    VisitsAreSearch(c, xs, |xs|);
    SameKey(c, xs, vs[i], key);
    forall q | Reached(c, xs, q) && key(VisitOf(c, AttrsAt(c, xs, q))) && q != vs[i].path
      ensures PostBefore(q, vs[i].path)
    {
      assert HasPath(vs, q);
      var j :| 0 <= j < |vs| && vs[j].path == q;
      SameKey(c, xs, vs[j], key);
    }
  }

  lemma NoVisitNoneReached(c: Config, xs: seq<Xml>, vs: seq<Visit>, key: Visit -> bool)
    requires vs == VisitForest(c, xs, |xs|) && PathBlind(key) && forall j | 0 <= j < |vs| :: !key(vs[j])
    ensures forall q | Reached(c, xs, q) :: !key(VisitOf(c, AttrsAt(c, xs, q)))
  {
    VisitsAreSearch(c, xs, |xs|);
    forall q | Reached(c, xs, q)
      ensures !key(VisitOf(c, AttrsAt(c, xs, q)))
    {
      assert HasPath(vs, q);
      var j :| 0 <= j < |vs| && vs[j].path == q;
      SameKey(c, xs, vs[j], key);
    }
  }

  /** The id map agrees with a search: it has an id exactly when a reached node has it, and then it
      has the last such node in post-order. */
  lemma IdIndexIsSearch(c: Config, xs: seq<Xml>, id: int)
    ensures var nodes, key := Loaded(c, xs).nodes, HasId(id);
            if id in nodes then LastReached(c, xs, nodes[id], key)
            else forall q | Reached(c, xs, q) :: !key(VisitOf(c, AttrsAt(c, xs, q)))
  {
    var vs := VisitForest(c, xs, |xs|);
    UnderNothing(vs);
    var i := NodesHoldLast(vs, id);
    if id in Loaded(c, xs).nodes {
      LastVisitIsLastReached(c, xs, vs, i, HasId(id));
    } else {
      NoVisitNoneReached(c, xs, vs, HasId(id));
    }
  }

  /** `Query::find` on a loaded site: a search of the document for the last node with the id, among
      those that the pass reaches. */
  method Find(site: SiteIndex, id: int, ghost document: seq<Xml>) returns (node: Option<Path>)
    requires site.Now() == Loaded(site.config, document)
    ensures node.Some? ==> LastReached(site.config, document, node.value, HasId(id))
    ensures node.None? ==> forall q | Reached(site.config, document, q) :: NumberAttr(AttrsAt(site.config, document, q), "id") != id
  {
    IdIndexIsSearch(site.config, document, id);
    node := if id in site.nodes then Some(site.nodes[id]) else None;
  }

  /** So does the permalink map. */
  lemma PermalinkIndexIsSearch(c: Config, xs: seq<Xml>, k: string)
    ensures var permalinks, key := Loaded(c, xs).permalinks, HasPermalink(k);
            if k in permalinks then LastReached(c, xs, permalinks[k], key)
            else forall q | Reached(c, xs, q) :: !key(VisitOf(c, AttrsAt(c, xs, q)))
  {
    var vs := VisitForest(c, xs, |xs|);
    UnderNothing(vs);
    var i := PermalinksHoldLast(vs, k);
    if k in Loaded(c, xs).permalinks {
      LastVisitIsLastReached(c, xs, vs, i, HasPermalink(k));
    } else {
      NoVisitNoneReached(c, xs, vs, HasPermalink(k));
    }
  }

  // ---------------------------------------------------------------------------------------
  // Pruning
  // ---------------------------------------------------------------------------------------

  /** `at` lists, in order, the positions of the survivors. */
  ghost predicate ListsSurvivors(c: Config, xs: seq<Xml>, n: nat, at: seq<nat>)
    requires n <= |xs|
  {
    && (forall i | 0 <= i < |at| :: at[i] < n && Survives(c, xs[at[i]]))
    && (forall i, j | 0 <= i < j < |at| :: at[i] < at[j])
    && (forall k | 0 <= k < n && Survives(c, xs[k]) :: k in at)
  }

  /** `kept` are the pruned nodes at these positions. */
  ghost predicate IsPruned(c: Config, xs: seq<Xml>, kept: seq<Xml>, at: seq<nat>) {
    |kept| == |at| && forall i | 0 <= i < |at| :: at[i] < |xs| && kept[i] == Prune(c, xs[at[i]])
  }

  lemma SurvivorsStep(c: Config, xs: seq<Xml>, n: nat, at: seq<nat>)
    requires n < |xs| && ListsSurvivors(c, xs, n, at)
    ensures Survives(c, xs[n]) ==> ListsSurvivors(c, xs, n + 1, at + [n])
    ensures !Survives(c, xs[n]) ==> ListsSurvivors(c, xs, n + 1, at)
  {
    var more := at + [n];
    forall k | 0 <= k < n + 1 && Survives(c, xs[k])
      ensures k in more
    {
      if k < n { assert k in at; } else { assert more[|at|] == k; }
    }
  }

  /** Unlinking while walking keeps exactly the survivors, in their order. */
  lemma {:induction false} PruneKeepsSurvivors(c: Config, xs: seq<Xml>, n: nat) returns (at: seq<nat>)
    requires n <= |xs|
    ensures ListsSurvivors(c, xs, n, at) && IsPruned(c, xs, PruneForest(c, xs, n), at)
    decreases n
  {
    at := [];
    if n > 0 {
      at := PruneKeepsSurvivors(c, xs, n - 1);
      SurvivorsStep(c, xs, n - 1, at);
      if Survives(c, xs[n - 1]) { at := at + [n - 1]; }
    }
  }

  /** And so does it below every node but the items of associations, which it leaves as they are. */
  lemma PruneKeepsBelow(c: Config, x: Xml) returns (at: seq<nat>)
    requires x.Element?
    ensures Prune(c, x).Element? && Prune(c, x).attrs == x.attrs
    ensures IsAssociation(c, x.attrs) ==> Prune(c, x).children == x.children
    ensures !IsAssociation(c, x.attrs) ==>
              ListsSurvivors(c, x.children, |x.children|, at) && IsPruned(c, x.children, Prune(c, x).children, at)
  {
    at := PruneKeepsSurvivors(c, x.children, |x.children|);
  }

  /** The ids, permalinks and association flags entered, without the paths. */
  ghost function Labels(vs: seq<Visit>): seq<Visit> {
    seq(|vs|, i requires 0 <= i < |vs| => vs[i].(path := []))
  }

  lemma {:induction false} VisitPrefix(c: Config, xs: seq<Xml>, y: Xml, n: nat)
    requires n <= |xs|
    ensures VisitForest(c, xs + [y], n) == VisitForest(c, xs, n)
    decreases n
  {
    if n > 0 { VisitPrefix(c, xs, y, n - 1); }
  }

  lemma LabelsAppend(vs: seq<Visit>, ws: seq<Visit>, path: Path)
    ensures Labels(vs + Under(path, ws)) == Labels(vs) + Labels(ws)
  {
  }

  lemma {:induction false} NodeLabels(c: Config, x: Xml)
    requires Survives(c, x)
    ensures Survives(c, Prune(c, x)) && Labels(VisitNode(c, Prune(c, x))) == Labels(VisitNode(c, x))
    decreases x, 0
  {
    if x.Element? && !IsAssociation(c, x.attrs) {
      ForestLabels(c, x.children, |x.children|);
      var y := Prune(c, x);
      VisitNodeIs(c, x);
      VisitNodeIs(c, y);
      var self := [VisitOf(c, x.attrs)];
      LabelsSnoc(VisitsBelow(c, x), self[0]);
      LabelsSnoc(VisitsBelow(c, y), self[0]);
    }
  }

  lemma LabelsSnoc(vs: seq<Visit>, v: Visit)
    ensures Labels(vs + [v]) == Labels(vs) + [v.(path := [])]
  {
  }

  /** A pass over the pruned tree enters the same nodes again, in the same order. */
  lemma {:induction false} ForestLabels(c: Config, xs: seq<Xml>, n: nat)
    requires n <= |xs|
    ensures var ps := PruneForest(c, xs, n);
            Labels(VisitForest(c, ps, |ps|)) == Labels(VisitForest(c, xs, n))
    decreases xs, n
  {
    if n > 0 {
      var x, ps := xs[n - 1], PruneForest(c, xs, n - 1);
      ForestLabels(c, xs, n - 1);
      LabelsAppend(VisitForest(c, xs, n - 1), VisitNode(c, x), [n - 1]);
      if Survives(c, x) {
        var y := Prune(c, x);
        NodeLabels(c, x);
        VisitPrefix(c, ps, y, |ps|);
        LabelsAppend(VisitForest(c, ps, |ps|), VisitNode(c, y), [|ps|]);
        assert PruneForest(c, xs, n) == ps + [y];
      } else {
        assert PruneForest(c, xs, n) == ps;
      }
    }
  }
}
