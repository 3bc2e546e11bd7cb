/** The result pipeline of `Response::query` (response.cpp): filter, unique, sort, skip, page. */
module Responses {
  import opened Wrappers
  import opened SortOrder
  import opened Sorting
  import opened Paging
  import opened Filtering

  datatype SortType = NoSort | Reverse | Shuffle | Specific

  datatype ResponseContext = ResponseContext(contexts: seq<Context>, total: int)

  // ---------------------------------------------------------------------------------------
  // The specification
  // ---------------------------------------------------------------------------------------

  /** The contexts of the nodes that have one. */
  function Present(nodes: seq<XmlNode>): seq<Context> {
    if nodes == [] then []
    else Present(nodes[..|nodes| - 1]) + match nodes[|nodes| - 1].Ctx() case Some(c) => [c] case None => []
  }

  ghost predicate IsReverse(xs: seq<Context>, ys: seq<Context>) {
    |ys| == |xs| && forall i | 0 <= i < |xs| :: ys[i] == xs[|xs| - 1 - i]
  }

  /** `ys` is an admissible order of `xs` for the sort type.  Sorting by fields is only defined when
      the comparator can rank the contexts.  With a descending first id field it is true of a context
      and itself; std::sort is taken never to compare an element with itself. */
  ghost predicate Orders(t: SortType, fs: seq<SortField>, xs: seq<Context>, ys: seq<Context>) {
    match t
    case NoSort => ys == xs
    case Reverse => IsReverse(xs, ys)
    case Shuffle => multiset(ys) == multiset(xs)
    case Specific => multiset(ys) == multiset(xs) && (AllMeasurable(fs, xs) && NoDescIdTies(fs, xs) ==> IsSortOf(fs, xs, ys))
  }

  /** Match, order, drop, take. */
  ghost predicate IsPage(t: SortType, fs: seq<SortField>, xs: seq<Context>, skip: int, paginate: int, page: seq<Context>) {
    exists ys :: Orders(t, fs, xs, ys) && page == Take(Drop(ys, skip), paginate)
  }

  /** The answer of the source in all cases.  Nodes without a context are dropped after windowing
      when nothing is filtered, and before taking when something is. */
  ghost predicate Answers(t: SortType, fs: seq<SortField>, c: Criteria, nodes: seq<XmlNode>, skip: int, paginate: int, r: ResponseContext)
    requires c.Applicable(nodes)
  {
    var matched := c.Matched(nodes, |nodes|);
    && r.total == |matched|
    && if t != NoSort then IsPage(t, fs, Present(matched), skip, paginate, r.contexts)
       else r.contexts == Collected(c, matched, skip, paginate)
  }

  ghost predicate AllPresent(nodes: seq<XmlNode>) {
    forall i | 0 <= i < |nodes| :: nodes[i].Ctx().Some?
  }

  lemma {:induction false} PresentAll(nodes: seq<XmlNode>)
    requires AllPresent(nodes)
    ensures |Present(nodes)| == |nodes|
    ensures forall i | 0 <= i < |nodes| :: Present(nodes)[i] == nodes[i].Ctx().value
  {
    if nodes != [] { PresentAll(nodes[..|nodes| - 1]); }
  }

  lemma PresentDrop(nodes: seq<XmlNode>, n: int)
    requires AllPresent(nodes)
    ensures AllPresent(Drop(nodes, n)) && Present(Drop(nodes, n)) == Drop(Present(nodes), n)
  {
    PresentAll(nodes);
    PresentAll(Drop(nodes, n));
  }

  lemma PresentTake(nodes: seq<XmlNode>, n: int)
    requires AllPresent(nodes)
    ensures Present(Take(nodes, n)) == Take(Present(nodes), n)
  {
    PresentAll(nodes);
    PresentAll(Take(nodes, n));
  }

  /** `xs` are the contexts of the matches from number `skip` on, counted from the end for Reverse. */
  ghost predicate Shows(t: SortType, matched: seq<XmlNode>, skip: nat, xs: seq<Context>) {
    forall i | 0 <= i < |xs| ::
      skip + i < |matched| && Some(xs[i]) == matched[if t == Reverse then |matched| - 1 - skip - i else skip + i].Ctx()
  }

  /** All of them. */
  ghost predicate ShowsAllFrom(t: SortType, matched: seq<XmlNode>, skip: nat, xs: seq<Context>) {
    Shows(t, matched, skip, xs) && |xs| == if skip < |matched| then |matched| - skip else 0
  }

  /** At most `n` of them. */
  ghost predicate ShowsPage(t: SortType, matched: seq<XmlNode>, skip: nat, n: nat, xs: seq<Context>) {
    Shows(t, matched, skip, xs) && |xs| == if skip + n <= |matched| then n else if skip < |matched| then |matched| - skip else 0
  }

  /** When every result node has a context, all paths of the source answer the same question: the
      page of the ordered matches, with the number of matches as total. */
  lemma AnswersArePages(t: SortType, fs: seq<SortField>, c: Criteria, nodes: seq<XmlNode>, skip: int, paginate: int, r: ResponseContext)
    requires c.Applicable(nodes) && AllPresent(nodes)
    ensures var matched := c.Matched(nodes, |nodes|);
            Answers(t, fs, c, nodes, skip, paginate, r) <==>
            r.total == |matched| && IsPage(t, fs, Present(matched), skip, paginate, r.contexts)
  {
    var matched := c.Matched(nodes, |nodes|);
    c.MatchedAtMost(nodes, |nodes|);
    assert AllPresent(matched);
    if t == NoSort {
      PresentDrop(matched, skip);
      PresentTake(Drop(matched, skip), paginate);
      var ys := Present(matched);
      assert Orders(t, fs, ys, ys);
    }
  }

  // ---------------------------------------------------------------------------------------
  // The source
  // ---------------------------------------------------------------------------------------

  class Response {
    const filter: bool
    const filterTerms: seq<string>
    var filterRemainingTerms: seq<string>
    const unique: bool
    const uniqueFields: seq<string>
    var uniqueFound: set<string>
    const options: Options
    const sortType: SortType
    const sortFields: seq<SortField>
    var contexts: seq<ResponseContext>

    constructor (filter: bool, filterTerms: seq<string>, unique: bool, uniqueFields: seq<string>,
                 options: Options, sortType: SortType, sortFields: seq<SortField>)
      ensures TheCriteria() == Criteria(filter, filterTerms, unique, uniqueFields)
      ensures this.options == options && this.sortType == sortType && this.sortFields == sortFields
      ensures contexts == []
    {
      this.filter, this.filterTerms, filterRemainingTerms := filter, filterTerms, [];
      this.unique, this.uniqueFields, uniqueFound := unique, uniqueFields, {};
      this.options, this.sortType, this.sortFields, contexts := options, sortType, sortFields, [];
    }

    ghost function TheCriteria(): Criteria { Criteria(filter, filterTerms, unique, uniqueFields) }

    method FilterMatch(node: XmlNode) returns (b: bool)
      modifies this`filterRemainingTerms
      ensures b <==> FilterPasses(filterTerms, node)
      ensures b <==> forall i | 0 <= i < |filterTerms| :: Appears(filterTerms[i], node)
    {
      PassesIsAppears(filterTerms, node);
      filterRemainingTerms := filterTerms;
      FilterMatchRecursive(node, 0);
      MissingEmpty(filterTerms, t => OccursAmong(t, node.Children(), 2));
      b := |filterRemainingTerms| == 0;
    }

    method FilterMatchRecursive(node: XmlNode, reentry: nat)
      requires reentry < 2
      modifies this`filterRemainingTerms
      ensures filterRemainingTerms == Missing(old(filterRemainingTerms), t => OccursAmong(t, node.Children(), 2 - reentry))
      decreases node
    {
      var cs := node.Children();
      ghost var depth := 2 - reentry;
      ghost var terms := filterRemainingTerms;
      var n := 0;
      MissingNone(terms, t => OccursAmong(t, cs[..0], depth));
      while n < |cs|
        invariant 0 <= n <= |cs|
        invariant filterRemainingTerms == Missing(terms, t => OccursAmong(t, cs[..n], depth))
      {
        var child := cs[n];
        ghost var before := filterRemainingTerms;
        ghost var here := (t: string) => OccursAt(t, child, depth);
        if child.Element? {
          if reentry < 1 {
            FilterMatchRecursive(child, reentry + 1);
          }
        } else if child.Text? {
          EraseFound(child.content);
        }
        MissingHere(before, child, depth);
        assert filterRemainingTerms == Missing(before, here);
        forall t
          ensures OccursAmong(t, cs[..n + 1], depth) <==> OccursAmong(t, cs[..n], depth) || here(t)
        {
          OccursStep(t, cs, n, depth);
        }
        MissingCompose(terms, t => OccursAmong(t, cs[..n], depth), here, t => OccursAmong(t, cs[..n + 1], depth));
        n := n + 1;
      }
      assert cs[..n] == cs;
    }

    /** The erasing loop over the remaining terms. */
    method EraseFound(content: string)
      modifies this`filterRemainingTerms
      ensures filterRemainingTerms == Missing(old(filterRemainingTerms), t => ContainsFolded(content, t))
    {
      ghost var terms := filterRemainingTerms;
      ghost var found := (t: string) => ContainsFolded(content, t);
      ghost var n := 0;
      var it := 0;
      while it < |filterRemainingTerms|
        invariant 0 <= n <= |terms| && 0 <= it <= |filterRemainingTerms|
        invariant filterRemainingTerms[..it] == Missing(terms[..n], found)
        invariant filterRemainingTerms[it..] == terms[n..]
        decreases |terms| - n
      {
        MissingStep(terms, n, found);
        assert filterRemainingTerms[it..][0] == terms[n..][0];
        if ContainsFolded(content, filterRemainingTerms[it]) {
          assert filterRemainingTerms[it + 1..] == filterRemainingTerms[it..][1..] == terms[n + 1..];
          filterRemainingTerms := filterRemainingTerms[..it] + filterRemainingTerms[it + 1..];
        } else {
          assert filterRemainingTerms[it + 1..] == filterRemainingTerms[it..][1..] == terms[n + 1..];
          it := it + 1;
        }
        n := n + 1;
      }
      assert terms[..n] == terms && filterRemainingTerms[..it] == filterRemainingTerms;
    }

    method UniqueMatch(node: XmlNode) returns (b: bool)
      requires node.Ctx().Some?
      modifies this`uniqueFound
      ensures b <==> TheCriteria().Key(node) !in old(uniqueFound)
      ensures uniqueFound == old(uniqueFound) + {TheCriteria().Key(node)}
    {
      var context := node.Ctx().value;
      var val, it := "", 0;
      assert uniqueFields[0..] == uniqueFields;
      while it < |uniqueFields|
        invariant 0 <= it <= |uniqueFields|
        invariant uniqueFound == old(uniqueFound)
        invariant val + UniqueKey(uniqueFields[it..], context) == UniqueKey(uniqueFields, context)
      {
        UniqueKeyStep(uniqueFields, it, context, val);
        val := val + context.GetData(uniqueFields[it]) + SEPARATOR;
        it := it + 1;
      }
      assert val == TheCriteria().Key(node);
      b := val !in uniqueFound;
      if b {
        uniqueFound := uniqueFound + {val};
      }
    }

    /** The test in the streaming loop: uniqueness is only asked of nodes that pass the filter. */
    method Accepts(nodes: seq<XmlNode>, i: nat) returns (b: bool)
      requires i < |nodes| && TheCriteria().Applicable(nodes)
      requires unique ==> uniqueFound == KeysBefore(TheCriteria(), nodes, i)
      modifies this`filterRemainingTerms, this`uniqueFound
      ensures b <==> TheCriteria().Keeps(nodes, i)
      ensures unique ==> uniqueFound == KeysBefore(TheCriteria(), nodes, i + 1)
    {
      b := true;
      if filter { b := FilterMatch(nodes[i]); }
      if b && unique { b := UniqueMatch(nodes[i]); }
    }

    /** The streaming loop over filtered or unique results: it skips the first `start` matches and
        keeps contexts until `end` matches are skipped or kept. */
    method Collect(nodes: seq<XmlNode>, start: nat, end: nat) returns (kept: seq<Context>, total: nat)
      requires TheCriteria().Applicable(nodes) && end <= |nodes|
      modifies this`filterRemainingTerms, this`uniqueFound
      ensures total == |TheCriteria().Matched(nodes, |nodes|)|
      ensures kept == Take(Present(Drop(TheCriteria().Matched(nodes, |nodes|), start)), end - start)
    {
      ghost var c := TheCriteria();
      kept, total := [], 0;
      var skipped, included := 0, 0;
      uniqueFound := {};
      var i := 0;
      while i < |nodes|
        invariant 0 <= i <= |nodes|
        invariant Collecting(c.Matched(nodes, i), start, end, kept, total, skipped, included)
        invariant unique ==> uniqueFound == KeysBefore(c, nodes, i)
      {
        var node := nodes[i];
        var matches := Accepts(nodes, i);
        assert c.Matched(nodes, i + 1) == if matches then c.Matched(nodes, i) + [node] else c.Matched(nodes, i);
        if matches {
          CollectStep(c.Matched(nodes, i), node, start, end, kept, total, skipped, included);
          total := total + 1;
          if skipped < start {
            skipped := skipped + 1;
          } else if included + skipped < end {
            if node.Ctx().Some? {
              kept := kept + [node.Ctx().value];
              included := included + 1;
            }
          }
        }
        i := i + 1;
      }
    }

    /** The plain loop over unfiltered results. */
    static method CollectPlain(nodes: seq<XmlNode>, start: nat, end: nat) returns (kept: seq<Context>)
      requires end <= |nodes|
      ensures kept == Present(Take(Drop(nodes, start), end - start))
    {
      kept := [];
      var i := start;
      while i < end
        invariant start <= i && (i <= end || i == start)
        invariant i <= end ==> kept == Present(nodes[start..i])
        invariant i > end ==> kept == []
      {
        PresentSlice(nodes, start, i);
        if nodes[i].Ctx().Some? {
          kept := kept + [nodes[i].Ctx().value];
        }
        i := i + 1;
      }
      if start <= end { assert Take(Drop(nodes, start), end - start) == nodes[start..end]; }
    }

    /** Puts the kept contexts in order; `rolls` stands for the random numbers of the shuffle. */
    method Arrange(xs: seq<Context>, rolls: nat -> nat) returns (ys: seq<Context>)
      ensures Orders(sortType, sortFields, xs, ys)
      ensures sortType == NoSort ==> ys == xs
      ensures sortType == Reverse ==> |ys| == |xs| && forall i | 0 <= i < |xs| :: ys[i] == xs[|xs| - 1 - i]
    {
      ys := xs;
      if sortType == Reverse {
        ys := seq(|xs|, i requires 0 <= i < |xs| => xs[|xs| - 1 - i]);
      } else if sortType == Shuffle {
        ys := RandomShuffle(xs, rolls);
      } else if sortType == Specific {
        ys := InsertionSort(sortFields, xs);
        InsertionSortPermutes(sortFields, xs);
        if AllMeasurable(sortFields, xs) && NoDescIdTies(sortFields, xs) { InsertionSortSorts(sortFields, xs); }
      }
    }

    /** `std::random_shuffle`: swaps every element with one at a random position not after it. */
    static method RandomShuffle(xs: seq<Context>, rolls: nat -> nat) returns (ys: seq<Context>)
      ensures multiset(ys) == multiset(xs)
    {
      ys := xs;
      var i := 1;
      while i < |ys|
        invariant |ys| == |xs| && multiset(ys) == multiset(xs)
      {
        var j := rolls(i) % (i + 1);
        ys := ys[i := ys[j]][j := ys[i]];
        i := i + 1;
      }
    }

    /** Erases what is skipped from the front and resizes to the page. */
    static method Cut(xs: seq<Context>, skip: nat, paginate: nat) returns (page: seq<Context>)
      ensures page == Take(Drop(xs, skip), paginate)
    {
      page := if |xs| > skip then xs[skip..] else [];
      if |page| > paginate {
        page := page[..paginate];
      }
    }

    /** Which matches are collected: the window itself when nothing is sorted, else all. */
    method Bounds(size: nat, skip: nat, paginate: nat) returns (start: nat, end: nat)
      ensures end <= size
      ensures sortType == NoSort ==> start == skip && end == if paginate + skip < size then paginate + skip else size
      ensures sortType != NoSort ==> start == 0 && end == size
    {
      start, end := 0, size;
      if sortType == NoSort {
        start := skip;
        if paginate + start < end {
          end := paginate + skip;
        }
      }
      if end > size {
        end := size;
      }
    }

    /** Collects the contexts, with or without filtering. */
    method Gather(nodes: seq<XmlNode>, start: nat, end: nat) returns (kept: seq<Context>, total: nat)
      requires TheCriteria().Applicable(nodes) && end <= |nodes|
      modifies this`filterRemainingTerms, this`uniqueFound
      ensures total == |TheCriteria().Matched(nodes, |nodes|)|
      ensures kept == Collected(TheCriteria(), TheCriteria().Matched(nodes, |nodes|), start, end - start)
    {
      ghost var matched := TheCriteria().Matched(nodes, |nodes|);
      TheCriteria().MatchedAtMost(nodes, |nodes|);
      if filter || unique {
        kept, total := Collect(nodes, start, end);
      } else {
        assert matched == nodes[..|nodes|] == nodes;
        kept := CollectPlain(nodes, start, end);
        total := |nodes|;
      }
    }

    /** `query` on the result nodes of the fetched query. */
    method Query(nodes: seq<XmlNode>, rolls: nat -> nat)
      requires Computable(options) && TheCriteria().Applicable(nodes)
      modifies this
      ensures |contexts| == |old(contexts)| + 1 && contexts[..|old(contexts)|] == old(contexts)
      ensures var w := Window(options, |nodes|);
              Answers(sortType, sortFields, TheCriteria(), nodes, w.0, w.1, contexts[|old(contexts)|])
      ensures AllPresent(nodes) && (sortType == NoSort || sortType == Reverse) ==>
                var w := Window(options, |nodes|);
                ShowsPage(sortType, TheCriteria().Matched(nodes, |nodes|), w.0, w.1, contexts[|old(contexts)|].contexts)
    {
      var size := |nodes|;
      var skip, paginate := ComputeWindow(options, size);
      var start, end := Bounds(size, skip, paginate);
      var kept, total := Gather(nodes, start, end);
      ghost var gathered := kept;
      kept := Arrange(kept, rolls);
      ghost var arranged := kept;
      if sortType != NoSort {
        kept := Cut(kept, skip, paginate);
      }
      AnswerComplete(sortType, sortFields, TheCriteria(), nodes, start, end, skip, paginate, gathered, arranged, kept);
      contexts := contexts + [ResponseContext(kept, total)];
      if AllPresent(nodes) && Determined(sortType) {
        PageShows(sortType, sortFields, TheCriteria(), nodes, skip, paginate, ResponseContext(kept, total));
      }
    }
  }

  /** The phases put together. */
  lemma AnswerComplete(t: SortType, fs: seq<SortField>, c: Criteria, nodes: seq<XmlNode>, start: nat, end: nat, skip: nat,
                       paginate: nat, gathered: seq<Context>, arranged: seq<Context>, page: seq<Context>)
    requires c.Applicable(nodes) && gathered == Collected(c, c.Matched(nodes, |nodes|), start, end - start)
    requires t == NoSort ==> start == skip && end == if paginate + skip < |nodes| then paginate + skip else |nodes|
    requires t != NoSort ==> start == 0 && end == |nodes|
    requires if t == NoSort then arranged == gathered else Orders(t, fs, gathered, arranged)
    requires page == if t == NoSort then arranged else Take(Drop(arranged, skip), paginate)
    ensures Answers(t, fs, c, nodes, skip, paginate, ResponseContext(page, |c.Matched(nodes, |nodes|)|))
  {
    var matched := c.Matched(nodes, |nodes|);
    c.MatchedAtMost(nodes, |nodes|);
    GatheredWindow(c, matched, start, end - start, paginate);
    if t == NoSort {
      assert end - start == paginate || (end - start <= paginate && |matched| - start <= end - start);
      assert page == arranged == gathered == Collected(c, matched, skip, paginate);
    } else {
      assert gathered == Present(matched);
      CutIsPage(t, fs, gathered, arranged, skip, paginate);
    }
  }

  lemma CutIsPage(t: SortType, fs: seq<SortField>, xs: seq<Context>, ys: seq<Context>, skip: nat, paginate: nat)
    requires Orders(t, fs, xs, ys)
    ensures IsPage(t, fs, xs, skip, paginate, Take(Drop(ys, skip), paginate))
  {
  }

  /** What one child contributes, by its kind. */
  lemma MissingHere(terms: seq<string>, child: XmlNode, depth: nat)
    requires depth > 0
    ensures child.Text? ==>
              Missing(terms, t => OccursAt(t, child, depth)) == Missing(terms, t => ContainsFolded(child.content, t))
    ensures child.Element? ==>
              Missing(terms, t => OccursAt(t, child, depth)) == Missing(terms, t => OccursAmong(t, child.children, depth - 1))
    ensures child.Other? || (child.Element? && depth == 1) ==> Missing(terms, t => OccursAt(t, child, depth)) == terms
  {
    var here := (t: string) => OccursAt(t, child, depth);
    forall t
      ensures child.Text? ==> (here(t) <==> ContainsFolded(child.content, t))
      ensures child.Element? ==> (here(t) <==> OccursAmong(t, child.children, depth - 1))
      ensures child.Other? ==> !here(t)
    {
      OccursAtMeaning(t, child, depth);
    }
    if child.Text? { MissingSame(terms, here, t => ContainsFolded(child.content, t)); }
    if child.Element? { MissingSame(terms, here, t => OccursAmong(t, child.children, depth - 1)); }
    if child.Other? || (child.Element? && depth == 1) { MissingNone(terms, here); }
  }

  lemma {:induction false} MissingSame(terms: seq<string>, p: string -> bool, q: string -> bool)
    requires forall t :: p(t) <==> q(t)
    ensures Missing(terms, p) == Missing(terms, q)
  {
    if terms != [] { MissingSame(terms[1..], p, q); }
  }

  lemma UniqueKeyStep(fields: seq<string>, i: nat, c: Context, val: string)
    requires i < |fields|
    ensures val + UniqueKey(fields[i..], c) == val + c.GetData(fields[i]) + SEPARATOR + UniqueKey(fields[i + 1..], c)
  {
    assert fields[i..][1..] == fields[i + 1..];
  }

  lemma PresentStep(nodes: seq<XmlNode>, node: XmlNode)
    ensures Present(nodes + [node]) == Present(nodes) + match node.Ctx() case Some(c) => [c] case None => []
  {
    assert (nodes + [node])[..|nodes|] == nodes;
  }

  lemma PresentSlice(nodes: seq<XmlNode>, start: nat, i: nat)
    requires start <= i < |nodes|
    ensures Present(nodes[start..i + 1]) == Present(nodes[start..i]) + match nodes[i].Ctx() case Some(c) => [c] case None => []
  {
    assert nodes[start..i + 1] == nodes[start..i] + [nodes[i]];
    PresentStep(nodes[start..i], nodes[i]);
  }

  lemma {:induction false} PresentAtMost(nodes: seq<XmlNode>)
    ensures |Present(nodes)| <= |nodes|
  {
    if nodes != [] { PresentAtMost(nodes[..|nodes| - 1]); }
  }

  ghost predicate IsWindow(kept: seq<Context>, matched: seq<XmlNode>, start: nat, n: int) {
    kept == Take(Present(Drop(matched, start)), n)
  }

  /** How the window over the present contexts grows with one more match. */
  lemma WindowStep(kept: seq<Context>, matched: seq<XmlNode>, node: XmlNode, start: nat, n: int)
    requires IsWindow(kept, matched, start, n)
    ensures |matched| < start || |kept| >= n || node.Ctx().None? ==> IsWindow(kept, matched + [node], start, n)
    ensures |matched| >= start && |kept| < n && node.Ctx().Some? ==>
              IsWindow(kept + [node.Ctx().value], matched + [node], start, n)
  {
    if |matched| < start {
      assert Drop(matched, start) == Drop(matched + [node], start) == [];
    } else {
      assert Drop(matched + [node], start) == Drop(matched, start) + [node];
      PresentStep(Drop(matched, start), node);
    }
  }

  /** The state of the streaming loop after the given matches. */
  ghost predicate Collecting(matched: seq<XmlNode>, start: nat, end: nat, kept: seq<Context>, total: int, skipped: int, included: int) {
    && total == |matched| && included == |kept|
    && skipped == (if total < start then total else start)
    && IsWindow(kept, matched, start, end - start)
  }

  lemma CollectStep(matched: seq<XmlNode>, node: XmlNode, start: nat, end: nat, kept: seq<Context>, total: int, skipped: int, included: int)
    requires Collecting(matched, start, end, kept, total, skipped, included)
    ensures var more := matched + [node];
            if skipped < start then Collecting(more, start, end, kept, total + 1, skipped + 1, included)
            else if included + skipped < end && node.Ctx().Some? then
              Collecting(more, start, end, kept + [node.Ctx().value], total + 1, skipped, included + 1)
            else Collecting(more, start, end, kept, total + 1, skipped, included)
  {
    WindowStep(kept, matched, node, start, end - start);
  }

  lemma InsertionSortSorts(fs: seq<SortField>, xs: seq<Context>)
    requires AllMeasurable(fs, xs) && NoDescIdTies(fs, xs)
    ensures IsSortOf(fs, xs, InsertionSort(fs, xs))
  {
    var ys := InsertionSort(fs, xs);
    InsertionSortPermutes(fs, xs);
    InsertionSortRanks(fs, xs);
    NoTiesAfter(fs, xs, ys);
    SortedIsRanked(fs, xs, ys);
  }

  /** The keys of the passing nodes among the first n. */
  ghost function KeysBefore(c: Criteria, nodes: seq<XmlNode>, n: nat): set<string>
    requires c.unique && c.Applicable(nodes) && n <= |nodes|
  {
    set j | 0 <= j < n && c.Passes(nodes[j]) :: c.Key(nodes[j])
  }

  /** What is collected for a window over the matches. */
  ghost function Collected(c: Criteria, matched: seq<XmlNode>, start: int, n: int): seq<Context> {
    if c.filter || c.unique then Take(Present(Drop(matched, start)), n) else Present(Take(Drop(matched, start), n))
  }

  /** Neither stopping at the end of the results nor collecting everything changes the window. */
  lemma GatheredWindow(c: Criteria, matched: seq<XmlNode>, start: nat, n: int, paginate: int)
    ensures n == paginate || (n <= paginate && |matched| - start <= n) ==>
              Collected(c, matched, start, n) == Collected(c, matched, start, paginate)
    ensures start == 0 && |matched| <= n ==> Collected(c, matched, start, n) == Present(matched)
  {
    PresentAtMost(Drop(matched, start));
  }

  // ---------------------------------------------------------------------------------------
  // Whole runs of pages
  // ---------------------------------------------------------------------------------------

  /** The sort types whose order is determined. */
  predicate Determined(t: SortType) { t == NoSort || t == Reverse }

  function InOrder(t: SortType, xs: seq<Context>): seq<Context>
    requires Determined(t)
  {
    if t == Reverse then seq(|xs|, i requires 0 <= i < |xs| => xs[|xs| - 1 - i]) else xs
  }

  /** `rs` are the answers for pages 1, 2, ... with the same options otherwise. */
  ghost predicate AnswerPages(t: SortType, fs: seq<SortField>, c: Criteria, nodes: seq<XmlNode>, o: Options, rs: seq<ResponseContext>)
    requires c.Applicable(nodes)
  {
    forall k | 0 <= k < |rs| ::
      && Computable(o.(page := k + 1))
      && var w := Window(o.(page := k + 1), |nodes|); Answers(t, fs, c, nodes, w.0, w.1, rs[k])
  }

  function ContextsOf(rs: seq<ResponseContext>): seq<seq<Context>> {
    seq(|rs|, k requires 0 <= k < |rs| => rs[k].contexts)
  }

  /** All matches in the order of the answer. */
  ghost function AllInOrder(t: SortType, c: Criteria, nodes: seq<XmlNode>): seq<Context>
    requires Determined(t) && c.Applicable(nodes)
  {
    InOrder(t, Present(c.Matched(nodes, |nodes|)))
  }

  lemma AnswerIsPageOf(t: SortType, fs: seq<SortField>, c: Criteria, nodes: seq<XmlNode>, o: Options, r: ResponseContext)
    requires Determined(t) && c.Applicable(nodes) && AllPresent(nodes) && Computable(o)
    requires var w := Window(o, |nodes|); Answers(t, fs, c, nodes, w.0, w.1, r)
    ensures r.contexts == PageOf(AllInOrder(t, c, nodes), o, |nodes|)
    ensures r.total == |c.Matched(nodes, |nodes|)|
  {
    var w := Window(o, |nodes|);
    AnswersArePages(t, fs, c, nodes, w.0, w.1, r);
    DeterminedPage(t, fs, Present(c.Matched(nodes, |nodes|)), w.0, w.1, r.contexts);
  }

  lemma DeterminedPage(t: SortType, fs: seq<SortField>, xs: seq<Context>, skip: int, paginate: int, page: seq<Context>)
    requires Determined(t) && IsPage(t, fs, xs, skip, paginate, page)
    ensures page == Take(Drop(InOrder(t, xs), skip), paginate)
  {
    var ys :| Orders(t, fs, xs, ys) && page == Take(Drop(ys, skip), paginate);
    assert ys == InOrder(t, xs);
  }

  /** `xs` are the contexts of the matches. */
  ghost predicate Lists(matched: seq<XmlNode>, xs: seq<Context>) {
    |xs| == |matched| && forall i | 0 <= i < |xs| :: Some(xs[i]) == matched[i].Ctx()
  }

  lemma MatchesListed(c: Criteria, nodes: seq<XmlNode>)
    requires c.Applicable(nodes) && AllPresent(nodes)
    ensures Lists(c.Matched(nodes, |nodes|), Present(c.Matched(nodes, |nodes|)))
  {
    c.MatchedAtMost(nodes, |nodes|);
    PresentAll(c.Matched(nodes, |nodes|));
  }

  lemma TakeDropAt<T>(ys: seq<T>, skip: nat, n: nat)
    ensures |Drop(ys, skip)| == if skip < |ys| then |ys| - skip else 0
    ensures |Take(Drop(ys, skip), n)| == if skip + n <= |ys| then n else |Drop(ys, skip)|
    ensures forall i | 0 <= i < |Drop(ys, skip)| :: Drop(ys, skip)[i] == ys[skip + i]
    ensures forall i | 0 <= i < |Take(Drop(ys, skip), n)| :: Take(Drop(ys, skip), n)[i] == ys[skip + i]
  {
  }

  lemma InOrderShows(t: SortType, matched: seq<XmlNode>, xs: seq<Context>, skip: nat, shown: seq<Context>)
    requires Determined(t) && Lists(matched, xs) && (shown != [] ==> skip + |shown| <= |xs|)
    requires forall i | 0 <= i < |shown| :: shown[i] == InOrder(t, xs)[skip + i]
    ensures Shows(t, matched, skip, shown)
  {
    forall i | 0 <= i < |shown|
      ensures Some(shown[i]) == matched[if t == Reverse then |matched| - 1 - skip - i else skip + i].Ctx()
    {
      assert shown[i] == InOrder(t, xs)[skip + i];
    }
  }

  lemma PageShows(t: SortType, fs: seq<SortField>, c: Criteria, nodes: seq<XmlNode>, skip: nat, paginate: nat, r: ResponseContext)
    requires Determined(t) && c.Applicable(nodes) && AllPresent(nodes) && Answers(t, fs, c, nodes, skip, paginate, r)
    ensures ShowsPage(t, c.Matched(nodes, |nodes|), skip, paginate, r.contexts)
  {
    var matched := c.Matched(nodes, |nodes|);
    var xs := Present(matched);
    MatchesListed(c, nodes);
    AnswersArePages(t, fs, c, nodes, skip, paginate, r);
    DeterminedPage(t, fs, xs, skip, paginate, r.contexts);
    TakeDropAt(InOrder(t, xs), skip, paginate);
    InOrderShows(t, matched, xs, skip, r.contexts);
  }

  lemma DropShows(t: SortType, c: Criteria, nodes: seq<XmlNode>, skip: nat)
    requires Determined(t) && c.Applicable(nodes) && AllPresent(nodes)
    ensures ShowsAllFrom(t, c.Matched(nodes, |nodes|), skip, Drop(AllInOrder(t, c, nodes), skip))
  {
    var matched := c.Matched(nodes, |nodes|);
    var xs := Present(matched);
    MatchesListed(c, nodes);
    TakeDropAt(InOrder(t, xs), skip, 0);
    InOrderShows(t, matched, xs, skip, Drop(InOrder(t, xs), skip));
  }

  lemma MatchesFit(t: SortType, c: Criteria, nodes: seq<XmlNode>)
    requires Determined(t) && c.Applicable(nodes) && AllPresent(nodes)
    ensures |AllInOrder(t, c, nodes)| == |c.Matched(nodes, |nodes|)| <= |nodes|
  {
    c.MatchedAtMost(nodes, |nodes|);
    PresentAll(c.Matched(nodes, |nodes|));
  }

  /** With or without filtering, unsorted or reversed, the answers for groups 1..g concatenate to all
      the matches from `skip` on, in that order. */
  lemma GroupedAnswersTile(t: SortType, fs: seq<SortField>, c: Criteria, nodes: seq<XmlNode>, o: Options, rs: seq<ResponseContext>)
    requires Determined(t) && c.Applicable(nodes) && AllPresent(nodes) && AnswerPages(t, fs, c, nodes, o, rs)
    requires 0 < o.groups == |rs| && 0 <= o.skip <= |nodes|
    ensures ShowsAllFrom(t, c.Matched(nodes, |nodes|), o.skip, Flatten(ContextsOf(rs), |rs|))
  {
    forall k | 0 <= k < |rs|
      ensures ContextsOf(rs)[k] == PageOf(AllInOrder(t, c, nodes), o.(page := k + 1), |nodes|)
    {
      AnswerIsPageOf(t, fs, c, nodes, o.(page := k + 1), rs[k]);
    }
    MatchesFit(t, c, nodes);
    GroupPagesTile(AllInOrder(t, c, nodes), o, |nodes|, ContextsOf(rs));
    DropShows(t, c, nodes, o.skip);
  }

  /** The sizes of the answers for groups 1..g never grow, and differ by at most one exactly under the
      condition on what is filtered out. */
  lemma GroupedAnswersBalance(t: SortType, fs: seq<SortField>, c: Criteria, nodes: seq<XmlNode>, o: Options, rs: seq<ResponseContext>)
    requires Determined(t) && c.Applicable(nodes) && AllPresent(nodes) && AnswerPages(t, fs, c, nodes, o, rs)
    requires 0 < o.groups == |rs| && 0 <= o.skip <= |nodes|
    ensures NeverGrow(ContextsOf(rs))
    ensures WithinOne(ContextsOf(rs)) <==> GroupsStayBalanced(|nodes|, |c.Matched(nodes, |nodes|)|, o.skip, o.groups)
  {
    forall k | 0 <= k < |rs|
      ensures ContextsOf(rs)[k] == PageOf(AllInOrder(t, c, nodes), o.(page := k + 1), |nodes|)
    {
      AnswerIsPageOf(t, fs, c, nodes, o.(page := k + 1), rs[k]);
    }
    MatchesFit(t, c, nodes);
    GroupPagesBalancedExactly(AllInOrder(t, c, nodes), o, |nodes|, ContextsOf(rs));
  }

  /** The answers for plain pages 1..PageCount concatenate to all the matches from `skip` on. */
  lemma PlainAnswersTile(t: SortType, fs: seq<SortField>, c: Criteria, nodes: seq<XmlNode>, o: Options, rs: seq<ResponseContext>)
    requires Determined(t) && c.Applicable(nodes) && AllPresent(nodes) && AnswerPages(t, fs, c, nodes, o, rs)
    requires o.groups == 0 && o.paginate > 0 && 0 <= o.skip < |nodes| && |rs| == PageCount(o, |nodes|)
    ensures ShowsAllFrom(t, c.Matched(nodes, |nodes|), o.skip, Flatten(ContextsOf(rs), |rs|))
  {
    forall k | 0 <= k < |rs|
      ensures ContextsOf(rs)[k] == PageOf(AllInOrder(t, c, nodes), o.(page := k + 1), |nodes|)
    {
      AnswerIsPageOf(t, fs, c, nodes, o.(page := k + 1), rs[k]);
    }
    MatchesFit(t, c, nodes);
    PlainPagesTile(AllInOrder(t, c, nodes), o, |nodes|, ContextsOf(rs));
    DropShows(t, c, nodes, o.skip);
  }
}
