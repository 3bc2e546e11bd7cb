/** The multi-key comparator that `Response` hands to std::sort (response.cpp). */
module SortOrder {
  import opened Strings
  import opened NaturalCompare

  /** A context as the comparator sees it: its id and the answers to its data and count queries.
      A query that selects nothing answers "" or 0. */
  datatype Context = Context(id: int, data: map<string, string>, counts: map<string, int>) {
    function GetData(field: string): string { if field in data then data[field] else "" }
    function GetCount(field: string): int { if field in counts then counts[field] else 0 }
  }

  datatype Direction = Asc | Desc

  datatype SortField = SortField(field: string, count: bool, direction: Direction) {
    predicate IsId() { field == "id" }
    predicate ComparesData() { !IsId() && !count }
  }

  // ---------------------------------------------------------------------------------------
  // The comparator
  // ---------------------------------------------------------------------------------------

  /** `sortCallback`: note that the id branch ends the loop even when the ids are equal. */
  predicate Callback(fs: seq<SortField>, l: Context, r: Context) {
    if fs == [] then false
    else if fs[0].IsId() then (l.id < r.id) != (fs[0].direction == Desc)
    else if fs[0].count then
      if l.GetCount(fs[0].field) == r.GetCount(fs[0].field) then Callback(fs[1..], l, r)
      else (l.GetCount(fs[0].field) < r.GetCount(fs[0].field)) != (fs[0].direction == Desc)
    else
      var c := Compare(l.GetData(fs[0].field), r.GetData(fs[0].field));
      if c == 0 then Callback(fs[1..], l, r) else (c > 0) != (fs[0].direction == Desc)
  }

  /** The contexts are the same in this field, and the loop goes on. */
  ghost predicate Agrees(f: SortField, l: Context, r: Context) {
    !f.IsId() && if f.count then l.GetCount(f.field) == r.GetCount(f.field) else l.GetData(f.field) == r.GetData(f.field)
  }

  /** The field says that `l` is smaller: by id, by count, by a word in a dictionary, or by a number. */
  ghost predicate Smaller(f: SortField, l: Context, r: Context) {
    if f.IsId() then l.id < r.id
    else if f.count then l.GetCount(f.field) < r.GetCount(f.field)
    else
      var x, y := l.GetData(f.field), r.GetData(f.field);
      || (IsWord(x) && IsWord(y) && WordBefore(x, y))
      || (IsNumber(x) && IsNumber(y) && DigitsValue(x) < DigitsValue(y))
      || (x == "" && y != "")
  }

  /** The first field in which two contexts differ decides: an ascending one puts the smaller one
      first, a descending one the other. */
  method SortCallback(sortFields: seq<SortField>, lhs: Context, rhs: Context) returns (comp: bool)
    ensures comp == Callback(sortFields, lhs, rhs)
    ensures forall i | 0 <= i < |sortFields| && (forall k | 0 <= k < i :: Agrees(sortFields[k], lhs, rhs)) ::
              && (Smaller(sortFields[i], lhs, rhs) ==> comp == (sortFields[i].direction == Asc))
              && (Smaller(sortFields[i], rhs, lhs) ==> comp == (sortFields[i].direction == Desc))
    ensures (forall k | 0 <= k < |sortFields| :: Agrees(sortFields[k], lhs, rhs)) ==> !comp
  {
    FirstDifferenceDecides(sortFields, lhs, rhs);
    comp := false;
    var it := 0;
    assert sortFields[0..] == sortFields;
    while it < |sortFields|
      invariant 0 <= it <= |sortFields| && !comp
      invariant Callback(sortFields[it..], lhs, rhs) == Callback(sortFields, lhs, rhs)
    {
      var f := sortFields[it];
      assert sortFields[it..][1..] == sortFields[it + 1..];
      it := it + 1;
      if f.IsId() {
        comp := lhs.id < rhs.id;
      } else if f.count {
        var lcount, rcount := lhs.GetCount(f.field), rhs.GetCount(f.field);
        if lcount == rcount { continue; }
        comp := lcount < rcount;
      } else {
        var icomp := StrCompareNat(lhs.GetData(f.field), rhs.GetData(f.field));
        if icomp == 0 { continue; }
        comp := icomp > 0;
      }
      if f.direction == Desc {
        comp := !comp;
      }
      break;
    }
  }

  lemma FieldDecides(fs: seq<SortField>, l: Context, r: Context)
    requires fs != []
    ensures Smaller(fs[0], l, r) ==> Callback(fs, l, r) == (fs[0].direction == Asc)
    ensures Smaller(fs[0], r, l) ==> Callback(fs, l, r) == (fs[0].direction == Desc)
    ensures Agrees(fs[0], l, r) ==> Callback(fs, l, r) == Callback(fs[1..], l, r)
  {
    if !fs[0].IsId() && !fs[0].count {
      var x, y := l.GetData(fs[0].field), r.GetData(fs[0].field);
      CompareMeaning(x, y);
      CompareMeaning(y, x);
      CompareAntisymmetric(x, y);
    }
  }

  /** The first field in which the contexts differ decides. */
  lemma {:induction false} FirstDifferenceAt(fs: seq<SortField>, l: Context, r: Context, i: nat)
    requires i < |fs| && forall k | 0 <= k < i :: Agrees(fs[k], l, r)
    ensures Smaller(fs[i], l, r) ==> Callback(fs, l, r) == (fs[i].direction == Asc)
    ensures Smaller(fs[i], r, l) ==> Callback(fs, l, r) == (fs[i].direction == Desc)
  {
    FieldDecides(fs, l, r);
    if i > 0 { FirstDifferenceAt(fs[1..], l, r, i - 1); }
  }

  lemma {:induction false} NoDifference(fs: seq<SortField>, l: Context, r: Context)
    requires forall k | 0 <= k < |fs| :: Agrees(fs[k], l, r)
    ensures !Callback(fs, l, r)
  {
    if fs != [] {
      FieldDecides(fs, l, r);
      NoDifference(fs[1..], l, r);
    }
  }

  lemma FirstDifferenceDecides(fs: seq<SortField>, l: Context, r: Context)
    ensures forall i | 0 <= i < |fs| && (forall k | 0 <= k < i :: Agrees(fs[k], l, r)) ::
              && (Smaller(fs[i], l, r) ==> Callback(fs, l, r) == (fs[i].direction == Asc))
              && (Smaller(fs[i], r, l) ==> Callback(fs, l, r) == (fs[i].direction == Desc))
    ensures (forall k | 0 <= k < |fs| :: Agrees(fs[k], l, r)) ==> !Callback(fs, l, r)
  {
    forall i | 0 <= i < |fs| && (forall k | 0 <= k < i :: Agrees(fs[k], l, r))
      ensures Smaller(fs[i], l, r) ==> Callback(fs, l, r) == (fs[i].direction == Asc)
      ensures Smaller(fs[i], r, l) ==> Callback(fs, l, r) == (fs[i].direction == Desc)
    {
      FirstDifferenceAt(fs, l, r, i);
    }
    if forall k | 0 <= k < |fs| :: Agrees(fs[k], l, r) { NoDifference(fs, l, r); }
  }

  // ---------------------------------------------------------------------------------------
  // The order it means
  // ---------------------------------------------------------------------------------------

  function CompareInt(l: int, r: int): int { if l == r then 0 else if l < r then 1 else -1 }

  /** Three-way comparison on one field, positive when `l` comes first. */
  function FieldRank(f: SortField, l: Context, r: Context): int {
    var c := if f.IsId() then CompareInt(l.id, r.id)
             else if f.count then CompareInt(l.GetCount(f.field), r.GetCount(f.field))
             else Compare(l.GetData(f.field), r.GetData(f.field));
    if f.direction == Desc then -c else c
  }

  /** Lexicographic three-way comparison; fields after an id never count. */
  function Rank(fs: seq<SortField>, l: Context, r: Context): int {
    if fs == [] then 0
    else if FieldRank(fs[0], l, r) != 0 || fs[0].IsId() then FieldRank(fs[0], l, r)
    else Rank(fs[1..], l, r)
  }

  /** The two contexts tie on everything up to a DESC(id), and have the same id. */
  ghost predicate DescIdTie(fs: seq<SortField>, l: Context, r: Context) {
    fs != [] && FieldRank(fs[0], l, r) == 0 &&
    if fs[0].IsId() then fs[0].direction == Desc else DescIdTie(fs[1..], l, r)
  }

  lemma {:induction false} CallbackMeaning(fs: seq<SortField>, l: Context, r: Context)
    ensures Callback(fs, l, r) <==> Rank(fs, l, r) > 0 || DescIdTie(fs, l, r)
  {
    if fs != [] && !fs[0].IsId() { CallbackMeaning(fs[1..], l, r); }
  }

  /** The data that the field compares, if it compares data, has at most ten fractional digits. */
  ghost predicate MeasurableBy(f: SortField, c: Context) {
    f.ComparesData() ==> FractionsWithin(c.GetData(f.field), 10)
  }

  ghost predicate Measurable(fs: seq<SortField>, c: Context) {
    forall i | 0 <= i < |fs| :: MeasurableBy(fs[i], c)
  }

  lemma FieldRankOpposite(f: SortField, l: Context, r: Context)
    ensures FieldRank(f, l, r) == -FieldRank(f, r, l)
  {
    CompareAntisymmetric(l.GetData(f.field), r.GetData(f.field));
  }

  lemma {:induction false} RankOpposite(fs: seq<SortField>, l: Context, r: Context)
    ensures Rank(fs, l, r) == -Rank(fs, r, l)
    ensures DescIdTie(fs, l, r) == DescIdTie(fs, r, l)
    ensures DescIdTie(fs, l, r) ==> Rank(fs, l, r) == 0
  {
    if fs != [] {
      FieldRankOpposite(fs[0], l, r);
      RankOpposite(fs[1..], l, r);
    }
  }

  lemma FieldRankChains(f: SortField, a: Context, b: Context, c: Context)
    requires MeasurableBy(f, a) && MeasurableBy(f, b) && MeasurableBy(f, c)
    ensures Chains(FieldRank(f, a, b), FieldRank(f, b, c), FieldRank(f, a, c))
  {
    if f.ComparesData() {
      var x, y, z := a.GetData(f.field), b.GetData(f.field), c.GetData(f.field);
      CompareChains(x, y, z);
      CompareChains(z, y, x);
      CompareAntisymmetric(x, y);
      CompareAntisymmetric(y, z);
      CompareAntisymmetric(x, z);
    }
  }

  lemma {:induction false} RankChains(fs: seq<SortField>, a: Context, b: Context, c: Context)
    requires Measurable(fs, a) && Measurable(fs, b) && Measurable(fs, c)
    ensures Chains(Rank(fs, a, b), Rank(fs, b, c), Rank(fs, a, c))
  {
    if fs != [] {
      FieldRankChains(fs[0], a, b, c);
      RankChains(fs[1..], a, b, c);
    }
  }

  // ---------------------------------------------------------------------------------------
  // When the comparator is a strict weak order
  // ---------------------------------------------------------------------------------------

  ghost predicate StrictWeakOrder(fs: seq<SortField>, s: set<Context>) {
    && (forall x, y | x in s && y in s :: !(Callback(fs, x, y) && Callback(fs, y, x)))
    && (forall x, y, z | x in s && y in s && z in s ::
          Callback(fs, x, y) && Callback(fs, y, z) ==> Callback(fs, x, z))
    && (forall x, y, z | x in s && y in s && z in s ::
          Incomparable(fs, x, y) && Incomparable(fs, y, z) ==> Incomparable(fs, x, z))
  }

  ghost predicate Incomparable(fs: seq<SortField>, x: Context, y: Context) {
    !Callback(fs, x, y) && !Callback(fs, y, x)
  }

  /** The first id field of the list, if there is one, is descending. */
  predicate FirstIdDescends(fs: seq<SortField>) {
    fs != [] && if fs[0].IsId() then fs[0].direction == Desc else FirstIdDescends(fs[1..])
  }

  lemma {:induction false} SelfTie(fs: seq<SortField>, x: Context)
    ensures DescIdTie(fs, x, x) <==> FirstIdDescends(fs)
  {
    if fs != [] {
      FieldRankOpposite(fs[0], x, x);
      SelfTie(fs[1..], x);
    }
  }

  lemma {:induction false} TieNeedsDescId(fs: seq<SortField>, x: Context, y: Context)
    requires DescIdTie(fs, x, y)
    ensures FirstIdDescends(fs)
  {
    if !fs[0].IsId() { TieNeedsDescId(fs[1..], x, y); }
  }

  lemma CallbackIsRank(fs: seq<SortField>, x: Context, y: Context)
    requires !FirstIdDescends(fs)
    ensures Callback(fs, x, y) <==> Rank(fs, x, y) > 0
    ensures Incomparable(fs, x, y) <==> Rank(fs, x, y) == 0
  {
    CallbackMeaning(fs, x, y);
    CallbackMeaning(fs, y, x);
    RankOpposite(fs, x, y);
    if DescIdTie(fs, x, y) { TieNeedsDescId(fs, x, y); }
  }

  lemma CallbackChains(fs: seq<SortField>, x: Context, y: Context, z: Context)
    requires !FirstIdDescends(fs) && Measurable(fs, x) && Measurable(fs, y) && Measurable(fs, z)
    ensures Callback(fs, x, y) && Callback(fs, y, z) ==> Callback(fs, x, z)
    ensures Incomparable(fs, x, y) && Incomparable(fs, y, z) ==> Incomparable(fs, x, z)
  {
    CallbackIsRank(fs, x, y);
    CallbackIsRank(fs, y, z);
    CallbackIsRank(fs, x, z);
    RankChains(fs, x, y, z);
  }

  /** On any non-empty set of contexts, the comparator is a strict weak order exactly when the
      first id field of the sort list is not descending. */
  lemma StrictWeakOrderExactly(fs: seq<SortField>, s: set<Context>)
    requires s != {} && forall x | x in s :: Measurable(fs, x)
    ensures StrictWeakOrder(fs, s) <==> !FirstIdDescends(fs)
  {
    if FirstIdDescends(fs) {
      var x :| x in s;
      SelfTie(fs, x);
      CallbackMeaning(fs, x, x);
    } else {
      forall x, y | x in s && y in s
        ensures !(Callback(fs, x, y) && Callback(fs, y, x))
      {
        CallbackIsRank(fs, x, y);
        CallbackIsRank(fs, y, x);
        RankOpposite(fs, x, y);
      }
      forall x, y, z | x in s && y in s && z in s
        ensures Callback(fs, x, y) && Callback(fs, y, z) ==> Callback(fs, x, z)
        ensures Incomparable(fs, x, y) && Incomparable(fs, y, z) ==> Incomparable(fs, x, z)
      {
        CallbackChains(fs, x, y, z);
      }
    }
  }
}
