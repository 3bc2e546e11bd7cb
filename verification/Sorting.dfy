/** What sorting with the comparator yields (response.cpp, the std::sort call): a permutation in
    which no later context belongs before an earlier one.  Such a permutation exists exactly when
    no two positions tie on a DESC(id), and then it is determined up to ties. */
module Sorting {
  import opened SortOrder

  ghost predicate IsSortOf(fs: seq<SortField>, xs: seq<Context>, ys: seq<Context>) {
    multiset(ys) == multiset(xs) && forall i, j | 0 <= i < j < |ys| :: !Callback(fs, ys[j], ys[i])
  }

  ghost predicate AllMeasurable(fs: seq<SortField>, xs: seq<Context>) {
    forall i | 0 <= i < |xs| :: Measurable(fs, xs[i])
  }

  /** No two positions hold contexts that tie on a DESC(id). */
  ghost predicate NoDescIdTies(fs: seq<SortField>, xs: seq<Context>) {
    forall i, j | 0 <= i < j < |xs| :: !DescIdTie(fs, xs[i], xs[j])
  }

  ghost predicate Ranked(fs: seq<SortField>, ys: seq<Context>) {
    forall i, j | 0 <= i < j < |ys| :: Rank(fs, ys[i], ys[j]) >= 0
  }

  /** In a sorted list no later context is smaller in the first field, or larger if that descends. */
  lemma SortedByFirstField(fs: seq<SortField>, xs: seq<Context>, ys: seq<Context>, i: nat, j: nat)
    requires fs != [] && IsSortOf(fs, xs, ys) && i < j < |ys|
    ensures fs[0].direction == Asc ==> !Smaller(fs[0], ys[j], ys[i])
    ensures fs[0].direction == Desc ==> !Smaller(fs[0], ys[i], ys[j])
  {
    FieldDecides(fs, ys[j], ys[i]);
  }

  // ---------------------------------------------------------------------------------------
  // A sorting function
  // ---------------------------------------------------------------------------------------

  function Insert(fs: seq<SortField>, x: Context, ys: seq<Context>): seq<Context> {
    if ys == [] then [x]
    else if Rank(fs, x, ys[0]) >= 0 then [x] + ys
    else [ys[0]] + Insert(fs, x, ys[1..])
  }

  /** Stands for std::sort, whose result can differ from this one only within ties. */
  function InsertionSort(fs: seq<SortField>, xs: seq<Context>): seq<Context> {
    if xs == [] then [] else Insert(fs, xs[0], InsertionSort(fs, xs[1..]))
  }

  lemma {:induction false} InsertPermutes(fs: seq<SortField>, x: Context, ys: seq<Context>)
    ensures multiset(Insert(fs, x, ys)) == multiset{x} + multiset(ys)
  {
    if ys != [] && Rank(fs, x, ys[0]) < 0 {
      InsertPermutes(fs, x, ys[1..]);
      assert ys == [ys[0]] + ys[1..];
    }
  }

  lemma {:induction false} InsertionSortPermutes(fs: seq<SortField>, xs: seq<Context>)
    ensures multiset(InsertionSort(fs, xs)) == multiset(xs)
  {
    if xs != [] {
      InsertionSortPermutes(fs, xs[1..]);
      InsertPermutes(fs, xs[0], InsertionSort(fs, xs[1..]));
      assert xs == [xs[0]] + xs[1..];
    }
  }

  lemma SamePermutationMembers(xs: seq<Context>, ys: seq<Context>)
    requires multiset(ys) == multiset(xs)
    ensures forall i | 0 <= i < |ys| :: ys[i] in xs
    ensures |ys| == |xs|
  {
    assert |multiset(ys)| == |ys| && |multiset(xs)| == |xs|;
    forall i | 0 <= i < |ys|
      ensures ys[i] in xs
    {
      assert ys[i] in multiset(ys);
    }
  }

  lemma MeasurableAfter(fs: seq<SortField>, xs: seq<Context>, ys: seq<Context>)
    requires AllMeasurable(fs, xs) && multiset(ys) == multiset(xs)
    ensures AllMeasurable(fs, ys)
  {
    SamePermutationMembers(xs, ys);
  }

  ghost predicate RanksBefore(fs: seq<SortField>, x: Context, ys: seq<Context>) {
    forall i | 0 <= i < |ys| :: Rank(fs, x, ys[i]) >= 0
  }

  /** Heads the ranked list `ys` with something before its first element. */
  lemma RanksBeforeAll(fs: seq<SortField>, x: Context, ys: seq<Context>)
    requires Ranked(fs, ys) && AllMeasurable(fs, ys) && Measurable(fs, x)
    requires ys != [] ==> Rank(fs, x, ys[0]) >= 0
    ensures RanksBefore(fs, x, ys)
  {
    forall i | 0 < i < |ys|
      ensures Rank(fs, x, ys[i]) >= 0
    {
      RankChains(fs, x, ys[0], ys[i]);
    }
  }

  lemma RanksBeforeInsert(fs: seq<SortField>, x: Context, y: Context, ys: seq<Context>)
    requires RanksBefore(fs, y, ys) && Rank(fs, y, x) >= 0
    ensures RanksBefore(fs, y, Insert(fs, x, ys))
  {
    InsertPermutes(fs, x, ys);
    var zs := Insert(fs, x, ys);
    forall i | 0 <= i < |zs|
      ensures Rank(fs, y, zs[i]) >= 0
    {
      assert zs[i] in multiset(zs);
    }
  }

  lemma {:induction false} InsertRanks(fs: seq<SortField>, x: Context, ys: seq<Context>)
    requires Ranked(fs, ys) && AllMeasurable(fs, ys) && Measurable(fs, x)
    ensures Ranked(fs, Insert(fs, x, ys))
  {
    if ys != [] && Rank(fs, x, ys[0]) < 0 {
      InsertRanks(fs, x, ys[1..]);
      RankOpposite(fs, x, ys[0]);
      RanksBeforeInsert(fs, x, ys[0], ys[1..]);
    } else {
      RanksBeforeAll(fs, x, ys);
    }
  }

  lemma {:induction false} InsertionSortRanks(fs: seq<SortField>, xs: seq<Context>)
    requires AllMeasurable(fs, xs)
    ensures Ranked(fs, InsertionSort(fs, xs))
  {
    if xs != [] {
      InsertionSortRanks(fs, xs[1..]);
      InsertionSortPermutes(fs, xs[1..]);
      MeasurableAfter(fs, xs[1..], InsertionSort(fs, xs[1..]));
      InsertRanks(fs, xs[0], InsertionSort(fs, xs[1..]));
    }
  }

  // ---------------------------------------------------------------------------------------
  // Existence
  // ---------------------------------------------------------------------------------------

  lemma {:induction false} OccurrenceAt(xs: seq<Context>, v: Context) returns (p: nat)
    requires v in multiset(xs)
    ensures p < |xs| && xs[p] == v && multiset(xs[..p] + xs[p + 1..]) == multiset(xs) - multiset{v}
  {
    p :| 0 <= p < |xs| && xs[p] == v;
    assert xs == xs[..p] + [v] + xs[p + 1..];
  }

  /** The values at two distinct positions of a permutation sit at two distinct positions of the
      original as well. */
  lemma DistinctPositions(xs: seq<Context>, ys: seq<Context>, i: nat, j: nat) returns (p: nat, q: nat)
    requires multiset(ys) == multiset(xs) && i < j < |ys|
    ensures p < |xs| && q < |xs| && p != q && xs[p] == ys[i] && xs[q] == ys[j]
  {
    assert ys == ys[..i] + [ys[i]] + ys[i + 1..];
    assert ys[j] == ys[i + 1..][j - i - 1];
    assert ys[j] in multiset(ys[i + 1..]);
    assert multiset(ys) == multiset(ys[..i]) + multiset{ys[i]} + multiset(ys[i + 1..]);
    p := OccurrenceAt(xs, ys[i]);
    var q' := OccurrenceAt(xs[..p] + xs[p + 1..], ys[j]);
    q := if q' < p then q' else q' + 1;
  }

  lemma NoTiesAfter(fs: seq<SortField>, xs: seq<Context>, ys: seq<Context>)
    requires multiset(ys) == multiset(xs) && NoDescIdTies(fs, xs)
    ensures NoDescIdTies(fs, ys)
  {
    forall i, j | 0 <= i < j < |ys|
      ensures !DescIdTie(fs, ys[i], ys[j])
    {
      var p, q := DistinctPositions(xs, ys, i, j);
      RankOpposite(fs, ys[i], ys[j]);
    }
  }

  /** A permutation is sorted exactly when it is ranked and free of DESC(id) ties. */
  lemma SortedIsRanked(fs: seq<SortField>, xs: seq<Context>, ys: seq<Context>)
    requires multiset(ys) == multiset(xs)
    ensures IsSortOf(fs, xs, ys) <==> Ranked(fs, ys) && NoDescIdTies(fs, ys)
  {
    forall i, j | 0 <= i < j < |ys|
      ensures !Callback(fs, ys[j], ys[i]) <==> Rank(fs, ys[i], ys[j]) >= 0 && !DescIdTie(fs, ys[i], ys[j])
    {
      CallbackMeaning(fs, ys[j], ys[i]);
      RankOpposite(fs, ys[i], ys[j]);
    }
  }

  /** A sorted permutation exists exactly when no two positions tie on a DESC(id). */
  lemma SortExistsExactly(fs: seq<SortField>, xs: seq<Context>)
    requires AllMeasurable(fs, xs)
    ensures (exists ys :: IsSortOf(fs, xs, ys)) <==> NoDescIdTies(fs, xs)
  {
    if NoDescIdTies(fs, xs) {
      var ys := InsertionSort(fs, xs);
      InsertionSortPermutes(fs, xs);
      InsertionSortRanks(fs, xs);
      NoTiesAfter(fs, xs, ys);
      SortedIsRanked(fs, xs, ys);
    }
    forall ys | IsSortOf(fs, xs, ys)
      ensures NoDescIdTies(fs, xs)
    {
      SortedIsRanked(fs, xs, ys);
      NoTiesAfter(fs, ys, xs);
    }
  }

  // ---------------------------------------------------------------------------------------
  // Uniqueness up to ties
  // ---------------------------------------------------------------------------------------

  /** How many of `xs` come strictly before `x`. */
  ghost function CountBefore(fs: seq<SortField>, x: Context, xs: seq<Context>): nat {
    if xs == [] then 0 else (if Rank(fs, xs[0], x) > 0 then 1 else 0) + CountBefore(fs, x, xs[1..])
  }

  lemma {:induction false} CountSplit(fs: seq<SortField>, x: Context, xs: seq<Context>, ys: seq<Context>)
    ensures CountBefore(fs, x, xs + ys) == CountBefore(fs, x, xs) + CountBefore(fs, x, ys)
  {
    if xs == [] {
      assert xs + ys == ys;
    } else {
      CountSplit(fs, x, xs[1..], ys);
      assert (xs + ys)[1..] == xs[1..] + ys;
    }
  }

  lemma {:induction false} CountBounds(fs: seq<SortField>, x: Context, xs: seq<Context>)
    ensures CountBefore(fs, x, xs) <= |xs|
    ensures (forall i | 0 <= i < |xs| :: Rank(fs, xs[i], x) > 0) ==> CountBefore(fs, x, xs) == |xs|
    ensures (forall i | 0 <= i < |xs| :: Rank(fs, xs[i], x) <= 0) ==> CountBefore(fs, x, xs) == 0
  {
    if xs != [] { CountBounds(fs, x, xs[1..]); }
  }

  lemma CountRemove(fs: seq<SortField>, x: Context, ys: seq<Context>, p: nat)
    requires p < |ys|
    ensures CountBefore(fs, x, ys) == CountBefore(fs, x, ys[..p] + ys[p + 1..]) + if Rank(fs, ys[p], x) > 0 then 1 else 0
  {
    var tail := [ys[p]] + ys[p + 1..];
    assert ys == ys[..p] + tail && tail[1..] == ys[p + 1..];
    CountSplit(fs, x, ys[..p], ys[p + 1..]);
    CountSplit(fs, x, ys[..p], tail);
  }

  lemma {:induction false} CountPermutes(fs: seq<SortField>, x: Context, xs: seq<Context>, ys: seq<Context>)
    requires multiset(xs) == multiset(ys)
    ensures CountBefore(fs, x, xs) == CountBefore(fs, x, ys)
    decreases |xs|
  {
    if xs == [] {
      SamePermutationMembers(xs, ys);
    } else {
      assert xs == [xs[0]] + xs[1..];
      assert multiset(xs[1..]) == multiset(xs) - multiset{xs[0]};
      var p := OccurrenceAt(ys, xs[0]);
      CountPermutes(fs, x, xs[1..], ys[..p] + ys[p + 1..]);
      CountRemove(fs, x, ys, p);
    }
  }

  /** Fewer than i + 1 elements of a ranked list come strictly before its element i. */
  lemma AtMostBefore(fs: seq<SortField>, ys: seq<Context>, i: nat)
    requires Ranked(fs, ys) && i < |ys|
    ensures CountBefore(fs, ys[i], ys) <= i
  {
    var x := ys[i];
    assert ys == ys[..i] + ys[i..];
    CountSplit(fs, x, ys[..i], ys[i..]);
    CountBounds(fs, x, ys[..i]);
    forall k | 0 <= k < |ys[i..]|
      ensures Rank(fs, ys[i..][k], x) <= 0
    {
      RankOpposite(fs, ys[i + k], x);
    }
    CountBounds(fs, x, ys[i..]);
  }

  /** If element i of a ranked list comes strictly before `x`, so do i + 1 elements of it. */
  lemma AtLeastBefore(fs: seq<SortField>, zs: seq<Context>, i: nat, x: Context)
    requires Ranked(fs, zs) && AllMeasurable(fs, zs) && Measurable(fs, x) && i < |zs|
    requires Rank(fs, zs[i], x) > 0
    ensures CountBefore(fs, x, zs) >= i + 1
  {
    assert zs == zs[..i + 1] + zs[i + 1..];
    CountSplit(fs, x, zs[..i + 1], zs[i + 1..]);
    var front := zs[..i + 1];
    forall k | 0 <= k < |front|
      ensures Rank(fs, front[k], x) > 0
    {
      assert Rank(fs, zs[k], x) > 0 by {
        if k < i { RankChains(fs, zs[k], zs[i], x); }
      }
    }
    CountBounds(fs, x, front);
  }

  /** Any two results of sorting the same contexts agree position by position, up to ties. */
  lemma SortUniqueUpToTies(fs: seq<SortField>, xs: seq<Context>, ys: seq<Context>, zs: seq<Context>, i: nat)
    requires AllMeasurable(fs, xs) && IsSortOf(fs, xs, ys) && IsSortOf(fs, xs, zs)
    requires i < |xs|
    ensures |ys| == |zs| == |xs| && Rank(fs, ys[i], zs[i]) == 0
  {
    SamePermutationMembers(xs, ys);
    SamePermutationMembers(xs, zs);
    SortedIsRanked(fs, xs, ys);
    SortedIsRanked(fs, xs, zs);
    MeasurableAfter(fs, xs, ys);
    MeasurableAfter(fs, xs, zs);
    NoEarlier(fs, ys, zs, i);
    NoEarlier(fs, zs, ys, i);
    RankOpposite(fs, ys[i], zs[i]);
  }

  lemma NoEarlier(fs: seq<SortField>, ys: seq<Context>, zs: seq<Context>, i: nat)
    requires multiset(ys) == multiset(zs) && Ranked(fs, ys) && Ranked(fs, zs)
    requires AllMeasurable(fs, ys) && AllMeasurable(fs, zs) && i < |ys| && i < |zs|
    ensures Rank(fs, zs[i], ys[i]) <= 0
  {
    AtMostBefore(fs, ys, i);
    CountPermutes(fs, ys[i], ys, zs);
    if Rank(fs, zs[i], ys[i]) > 0 { AtLeastBefore(fs, zs, i, ys[i]); }
  }
}
