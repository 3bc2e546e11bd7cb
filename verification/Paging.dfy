/** Skip, page and group arithmetic of `Response::query` (response.cpp), on mathematical integers,
    with `ceil((float)a / b)` as the exact ceiling. */
module Paging {
  import opened Floats

  /** The result options that pick a window; page -1 stands for "last". */
  datatype Options = Options(groups: int, page: int, paginate: int, skip: int)

  /** Exact ceiling of a / b. */
  function CeilDiv(a: int, b: int): (q: int)
    requires b != 0
    ensures b > 0 ==> (q - 1) * b < a <= q * b
    ensures b < 0 ==> (q - 1) * b > a >= q * b
  {
    if b > 0 then -((-a) / b) else -(a / (-b))
  }

  /** The source converts both operands to binary32 and takes the ceiling of the rounded quotient.
      For up to 24 bits of results, also when more is skipped than there is, and any positive int as
      divisor, this is the exact ceiling. */
  lemma FloatCeilIsExact(a: int, b: int, fa: real, fb: real, x: real)
    requires -MANTISSA < a < MANTISSA && 0 < b < 2147483648
    requires Nearest(a as real, fa) && Nearest(b as real, fb) && fb > 0.0 && Nearest(fa / fb, x)
    ensures var q := CeilDiv(a, b); (q - 1) as real < x <= q as real
  {
    IntegerIsFloat(a);
    NoCrossing(a as real, fa, a as real);
    if a >= 0 {
      FloatCeil(a, b, fb, x);
    } else {
      NegativeCeil(a, b, fb, x);
    }
  }

  lemma NegativeCeil(a: int, b: int, fb: real, x: real)
    requires -MANTISSA < a < 0 < b < 2147483648
    requires Nearest(b as real, fb) && fb > 0.0 && Nearest(a as real / fb, x)
    ensures var q := CeilDiv(a, b); (q - 1) as real < x <= q as real
  {
    var q := CeilDiv(a, b);
    NearestNegative(a as real / fb, x);
    NegativeQuotient(a, fb);
    NegativeBounds(a, b, q);
    FloatFloor(-a, b, -q, fb, -x);
  }

  lemma NegativeQuotient(a: int, fb: real)
    requires fb > 0.0
    ensures -(a as real / fb) == (-a) as real / fb
  {
    var y := a as real / fb;
    assert y * fb == a as real;
    assert (-y) * fb == (-a) as real;
  }

  lemma NegativeBounds(a: int, b: int, q: int)
    requires (q - 1) * b < a <= q * b
    ensures (-q) * b <= -a < (-q + 1) * b
  {
    assert (-q) * b == -(q * b) && (-q + 1) * b == -((q - 1) * b);
  }

  /** The floor of the rounded quotient is the exact floor. */
  lemma FloatFloor(a: int, b: int, n: int, fb: real, x: real)
    requires 0 < a < MANTISSA && 0 < b < 2147483648
    requires Nearest(b as real, fb) && fb > 0.0 && Nearest(a as real / fb, x) && n * b <= a < (n + 1) * b
    ensures n as real <= x < (n + 1) as real
  {
    if b <= MANTISSA {
      IntegerIsFloat(b);
      NoCrossing(b as real, fb, b as real);
      ExactFloor(a, b, n, x);
    } else {
      RoundedDivisor(b, fb);
      MulCancelLess(n, 1, b);
      MulCancelLess(-1, n, b);
      SmallFloor(a, fb, x);
    }
  }

  lemma ExactFloor(a: int, b: int, n: int, x: real)
    requires 0 < a < MANTISSA && 0 < b <= MANTISSA && Nearest(a as real / b as real, x)
    requires n * b <= a < (n + 1) * b
    ensures n as real <= x < (n + 1) as real
  {
    var y := a as real / b as real;
    assert y * b as real == a as real;
    FloorRange(a, b, n);
    IntegerIsFloat(n);
    FloorBelow(a, b, n, y);
    NoCrossing(y, x, n as real);
    var d := (n + 1) as real - y;
    UnitGap(a, b, n + 1, y, d);
    BelowNext(n, b, y, d, x);
  }

  /** Where a quotient is at least 1 / b below the next integer, rounding does not reach it. */
  lemma BelowNext(n: int, b: int, y: real, d: real, x: real)
    requires 0 <= n < MANTISSA && 0 < b <= MANTISSA && n * b < MANTISSA && d * b as real >= 1.0
    requires Nearest(y, x) && d == (n + 1) as real - y
    ensures x < (n + 1) as real
  {
    var g, r := NumberNear(n, b);
    StrictGap(d, b as real, r);
    NotUpTo((n + 1) as real, y, d, g, r, x);
  }

  lemma NumberNear(n: int, b: int) returns (g: real, r: real)
    requires 0 <= n < MANTISSA && 0 < b <= MANTISSA && n * b < MANTISSA
    ensures IsFloat((n + 1) as real - g) && b as real < r && g * r == 2.0
  {
    var t;
    g, t := NumberBelow(n + 1);
    GapBelow(b, n, t);
    r := t as real;
  }

  lemma GapBelow(b: int, n: int, t: int)
    requires 0 < b <= MANTISSA && 0 <= n && n * b < MANTISSA
    requires if n == 0 then t == 2 * MANTISSA else n * t >= MANTISSA
    ensures b < t
  {
    if n > 0 { MulCancelLess(b, t, n); }
  }

  lemma UnitGap(a: int, b: int, c: int, y: real, d: real)
    requires a < c * b && y * b as real == a as real && d == c as real - y
    ensures d * b as real >= 1.0
  {
    assert (c * b) as real == c as real * b as real;
    assert d * b as real == c as real * b as real - y * b as real;
  }

  lemma FloorRange(a: int, b: int, n: int)
    requires 0 < a && 0 < b && n * b <= a < (n + 1) * b
    ensures 0 <= n <= a
  {
    MulCancelLess(-1, n, b);
    MulMono(1, b, n);
  }

  lemma FloorBelow(a: int, b: int, n: int, y: real)
    requires 0 < b && n * b <= a < (n + 1) * b && y * b as real == a as real
    ensures n as real <= y < (n + 1) as real
  {
    assert (n * b) as real == n as real * b as real && ((n + 1) * b) as real == (n + 1) as real * b as real;
    if y < n as real { RealMulMono(y, n as real, b as real); }
    if y >= (n + 1) as real { RealMulMono((n + 1) as real, y, b as real); }
  }

  lemma SmallFloor(a: int, fb: real, x: real)
    requires 0 < a < MANTISSA && 16777216.0 <= fb && Nearest(a as real / fb, x)
    ensures 0.0 <= x < 1.0
  {
    var y := a as real / fb;
    assert y * fb == a as real;
    IntegerIsFloat(0);
    if y < 0.0 { RealMulMono(y, 0.0, fb); }
    NoCrossing(y, x, 0.0);
    var g, t := BelowOne();
    RealMulMono(16777216.0, fb, y);
    assert y * 16777216.0 <= 16777215.0;
    NoCrossing(y, x, 1.0 - g);
  }

  lemma FloatCeil(a: int, b: int, fb: real, x: real)
    requires 0 <= a < MANTISSA && 0 < b < 2147483648
    requires Nearest(b as real, fb) && fb > 0.0 && Nearest(a as real / fb, x)
    ensures var q := CeilDiv(a, b); (q - 1) as real < x <= q as real
  {
    if b <= MANTISSA {
      IntegerIsFloat(b);
      NoCrossing(b as real, fb, b as real);
      ExactDivisor(a, b, x);
    } else {
      RoundedDivisor(b, fb);
      SmallQuotient(a, b, fb, x);
    }
  }

  lemma ExactDivisor(a: int, b: int, x: real)
    requires 0 <= a < MANTISSA && 0 < b <= MANTISSA && Nearest(a as real / b as real, x)
    ensures var q := CeilDiv(a, b); (q - 1) as real < x <= q as real
  {
    var q, y := CeilDiv(a, b), a as real / b as real;
    assert y * b as real == a as real;
    QuotientBounds(a, b, q, y);
    CeilFits(a, b);
    IntegerIsFloat(q);
    IntegerIsFloat(q - 1);
    NoCrossing(y, x, q as real);
    NoCrossing(y, x, (q - 1) as real);
    if q > 1 {
      FarAbove(a, b, q - 1, y);
      NotDownTo(q - 1, y, x);
    } else if q == 1 {
      assert y * b as real >= 1.0 && y >= 0.0;
      RealMulMono(b as real, 2147483648.0, y);
      NotDownToZero(y, x);
    } else {
      IntegerIsFloat(0);
      NoCrossing(y, x, 0.0);
    }
  }

  lemma FarAbove(a: int, b: int, c: int, y: real)
    requires 0 < c && 0 < b && c * b < a < MANTISSA && y * b as real == a as real
    ensures (y - c as real) * 16777216.0 > c as real
  {
    var d := y - c as real;
    assert d * b as real == a as real - c as real * b as real;
    assert (c * b) as real == c as real * b as real;
    assert d * b as real >= 1.0;
    if d * 16777216.0 <= c as real { RealMulMono(d * 16777216.0, c as real, b as real); }
  }

  lemma RoundedDivisor(b: int, fb: real)
    requires MANTISSA < b < 2147483648 && Nearest(b as real, fb)
    ensures 16777216.0 <= fb <= 2147483648.0
  {
    IntegerIsFloat(MANTISSA);
    NoCrossing(b as real, fb, MANTISSA as real);
    TwoToThirtyOne();
    NoCrossing(b as real, fb, 2147483648.0);
  }

  lemma UnitQuotient(a: int, fb: real, y: real)
    requires 0 <= a && a as real <= fb <= 2147483648.0 && fb > 0.0 && y * fb == a as real
    ensures 0.0 <= y <= 1.0 && (a == 0 ==> y == 0.0) && (a > 0 ==> y * 2147483648.0 >= 1.0)
  {
    if a > 0 { RealMulMono(fb, 2147483648.0, y); }
  }

  lemma SmallCeil(a: int, b: int)
    requires 0 <= a < b
    ensures CeilDiv(a, b) == if a == 0 then 0 else 1
  {
    var q := CeilDiv(a, b);
    if a > 0 { MulCancelLess(0, q, b); }
    MulCancelLess(q - 1, 1, b);
    if a == 0 { MulCancelLess(q - 1, 0, b); MulCancelLe(0, q, b); }
  }

  lemma SmallQuotient(a: int, b: int, fb: real, x: real)
    requires 0 <= a < MANTISSA < b && 16777216.0 <= fb <= 2147483648.0 && Nearest(a as real / fb, x)
    ensures var q := CeilDiv(a, b); (q - 1) as real < x <= q as real
  {
    var y := a as real / fb;
    assert y * fb == a as real;
    UnitQuotient(a, fb, y);
    SmallCeil(a, b);
    IntegerIsFloat(0);
    IntegerIsFloat(1);
    NoCrossing(y, x, 0.0);
    NoCrossing(y, x, 1.0);
    if a > 0 { NotDownToZero(y, x); }
  }

  lemma QuotientBounds(a: int, b: int, q: int, y: real)
    requires b > 0 && (q - 1) * b < a <= q * b && y * b as real == a as real
    ensures (q - 1) as real < y <= q as real
  {
    assert ((q - 1) * b) as real == (q - 1) as real * b as real && (q * b) as real == q as real * b as real;
  }

  function Max(a: int, b: int): (m: int)
    ensures m >= a && m >= b && (m == a || m == b)
  {
    if a < b then b else a
  }

  /** The page that `query` looks at when grouping. */
  function GroupPage(page: int): int { Max(1, page) }

  /** No division by zero: the page number does not exceed a positive number of groups, and asking
      for the last page needs a non-zero page size. */
  predicate Computable(o: Options) {
    && (o.groups != 0 ==> !(0 < o.groups < GroupPage(o.page)))
    && (o.groups == 0 && o.page == -1 ==> o.paginate != 0)
  }

  /** Skip and size after step j of the grouping loop. */
  function GroupStep(size: int, skip: int, groups: int, j: nat): (int, int)
    requires groups < 0 || j < groups
  {
    if j == 0 then (skip, CeilDiv(size - skip, groups))
    else
      var w := GroupStep(size, skip, groups, j - 1);
      (w.0 + w.1, CeilDiv(size - (w.0 + w.1), groups - j))
  }

  function PlainPage(o: Options, size: int): int
    requires o.groups == 0 && Computable(o)
  {
    Max(1, if o.page == -1 then CeilDiv(size - o.skip, o.paginate) else o.page)
  }

  /** What is skipped and how many results are kept. */
  function Window(o: Options, size: int): (w: (int, int))
    requires Computable(o)
    ensures w.0 >= 0 && w.1 >= 1
  {
    var raw := if o.groups != 0 then GroupStep(size, o.skip, o.groups, GroupPage(o.page) - 1)
               else (o.skip + (PlainPage(o, size) - 1) * o.paginate, o.paginate);
    (Max(0, raw.0), Max(1, raw.1))
  }

  /** The grouping loop. */
  method ComputeGroup(o: Options, size: int) returns (skip: int, paginate: int)
    requires o.groups != 0 && Computable(o)
    ensures (skip, paginate) == GroupStep(size, o.skip, o.groups, GroupPage(o.page) - 1)
  {
    skip, paginate := o.skip, o.paginate;
    var page := o.page;
    if page <= 0 {
      page := 1;
    }
    var j := 0;
    while j < page
      invariant 0 <= j <= page == GroupPage(o.page)
      invariant j == 0 ==> (skip, paginate) == (o.skip, o.paginate)
      invariant j > 0 ==> (skip, paginate) == GroupStep(size, o.skip, o.groups, j - 1)
    {
      if j > 0 { skip := skip + paginate; }
      paginate := CeilDiv(size - skip, o.groups - j);
      j := j + 1;
    }
  }

  method ComputeWindow(o: Options, size: int) returns (skip: int, paginate: int)
    requires Computable(o)
    ensures (skip, paginate) == Window(o, size)
    ensures o.groups == 0 && o.page != -1 ==>
              var page := if o.page <= 0 then 1 else o.page;
              skip == Max(0, o.skip + (page - 1) * o.paginate) && paginate == Max(1, o.paginate)
    ensures o.groups == 0 && o.page == -1 ==>
              var page := Max(1, CeilDiv(size - o.skip, o.paginate));
              skip == Max(0, o.skip + (page - 1) * o.paginate) && paginate == Max(1, o.paginate)
    ensures o.groups != 0 && o.page <= 1 ==> skip == Max(0, o.skip) && paginate == Max(1, CeilDiv(size - o.skip, o.groups))
    ensures o.groups != 0 && o.page > 1 ==>
              var w := GroupStep(size, o.skip, o.groups, o.page - 1); skip == Max(0, w.0) && paginate == Max(1, w.1)
  {
    skip, paginate := o.skip, o.paginate;
    if o.groups != 0 {
      skip, paginate := ComputeGroup(o, size);
    } else {
      var page := o.page;
      if page == -1 {
        page := CeilDiv(size - skip, paginate);
      }
      if page <= 0 {
        page := 1;
      }
      skip := skip + (page - 1) * paginate;
    }
    if paginate < 1 {
      paginate := 1;
    }
    if skip < 0 {
      skip := 0;
    }
  }


  // ---------------------------------------------------------------------------------------
  // Windows over a list
  // ---------------------------------------------------------------------------------------

  function Take<T>(xs: seq<T>, n: int): seq<T> {
    if n <= 0 then [] else if n >= |xs| then xs else xs[..n]
  }

  function Drop<T>(xs: seq<T>, n: int): seq<T> {
    if n <= 0 then xs else if n >= |xs| then [] else xs[n..]
  }

  /** The page that the options select out of an ordered list of matches; `size` is the number of
      results before filtering. */
  function PageOf<T>(xs: seq<T>, o: Options, size: int): seq<T>
    requires Computable(o)
  {
    Take(Drop(xs, Window(o, size).0), Window(o, size).1)
  }

  /** The first `n` pages one after the other. */
  function Flatten<T>(pages: seq<seq<T>>, n: nat): seq<T>
    requires n <= |pages|
  {
    if n == 0 then [] else Flatten(pages, n - 1) + pages[n - 1]
  }

  function Clamp(n: int, size: nat): (m: nat)
    ensures m <= size
  {
    if n < 0 then 0 else if n > size then size else n
  }

  /** The items numbered `from` up to `to`, as far as the list goes. */
  function Slice<T>(xs: seq<T>, from: int, to: int): seq<T>
    requires from <= to
  {
    xs[Clamp(from, |xs|)..Clamp(to, |xs|)]
  }

  lemma TakeDropIsSlice<T>(xs: seq<T>, from: nat, n: nat)
    ensures Take(Drop(xs, from), n) == Slice(xs, from, from + n)
  {
  }

  lemma WholeSlice<T>(xs: seq<T>, from: nat, to: int)
    requires from <= to && |xs| <= to
    ensures Slice(xs, from, to) == Drop(xs, from)
  {
  }

  /** Page k shows what lies between cuts k and k + 1. */
  ghost predicate IsCut<T>(xs: seq<T>, page: seq<T>, from: int, to: int) {
    0 <= from <= to && page == Slice(xs, from, to)
  }

  lemma JoinSlices<T>(xs: seq<T>, front: seq<T>, page: seq<T>, a: int, b: int, c: int)
    requires IsCut(xs, front, a, b) && IsCut(xs, page, b, c)
    ensures IsCut(xs, front + page, a, c)
  {
  }

  /** Pages between consecutive cuts tile the list. */
  lemma {:induction false} CutsTile<T>(xs: seq<T>, pages: seq<seq<T>>, cuts: seq<int>, n: nat)
    requires n <= |pages| && |cuts| == |pages| + 1 && cuts[0] >= 0
    requires forall k {:trigger pages[k]} | 0 <= k < |pages| :: IsCut(xs, pages[k], cuts[k], cuts[k + 1])
    ensures IsCut(xs, Flatten(pages, n), cuts[0], cuts[n])
  {
    if n > 0 {
      CutsTile(xs, pages, cuts, n - 1);
      JoinSlices(xs, Flatten(pages, n - 1), pages[n - 1], cuts[0], cuts[n - 1], cuts[n]);
    }
  }

  lemma CutsTileAll<T>(xs: seq<T>, pages: seq<seq<T>>, cuts: seq<int>, skip: nat)
    requires |cuts| == |pages| + 1 && cuts[0] == skip && cuts[|pages|] >= |xs|
    requires forall k {:trigger pages[k]} | 0 <= k < |pages| :: IsCut(xs, pages[k], cuts[k], cuts[k + 1])
    ensures Flatten(pages, |pages|) == Drop(xs, skip)
  {
    CutsTile(xs, pages, cuts, |pages|);
    WholeSlice(xs, skip, cuts[|pages|]);
  }

  // ---------------------------------------------------------------------------------------
  // Groups
  // ---------------------------------------------------------------------------------------

  /** The invariant of the grouping loop: before group j, what is left is spread over the groups
      that are left, and the next group takes the ceiling of the average. */
  lemma {:induction false} GroupStepBounds(size: int, skip: int, groups: int, j: nat)
    requires 0 <= skip <= size && j < groups
    ensures var (s, p) := GroupStep(size, skip, groups, j);
            skip <= s <= s + p <= size && (p - 1) * (groups - j) < size - s <= p * (groups - j)
    ensures j == groups - 1 ==> var (s, p) := GroupStep(size, skip, groups, j); s + p == size
  {
    if j > 0 { GroupStepBounds(size, skip, groups, j - 1); }
    var (s, p) := GroupStep(size, skip, groups, j);
    if j > 0 {
      var (s0, p0) := GroupStep(size, skip, groups, j - 1);
      assert s == s0 + p0;
    }
    CeilFits(size - s, groups - j);
  }

  lemma CeilFits(a: int, b: int)
    requires a >= 0 && b > 0
    ensures 0 <= CeilDiv(a, b) <= a
    ensures b == 1 ==> CeilDiv(a, b) == a
  {
    var q := CeilDiv(a, b);
    MulCancelLe(0, q, b);
    MulMono(1, b, a);
    MulCancelLess(q - 1, a, b);
  }

  /** Consecutive groups never grow, and shrink by at most one over the whole run. */
  lemma GroupSizeStep(size: int, skip: int, groups: int, j: nat)
    requires 0 <= skip <= size && j + 1 < groups
    ensures var p, q := GroupStep(size, skip, groups, j).1, GroupStep(size, skip, groups, j + 1).1;
            p - 1 <= q <= p
  {
    var (s, p) := GroupStep(size, skip, groups, j);
    GroupStepBounds(size, skip, groups, j);
    var g := groups - j;
    var q := GroupStep(size, skip, groups, j + 1).1;
    assert (q - 1) * (g - 1) < size - s - p <= q * (g - 1);
    AverageStep(size - s, g, p, q);
  }

  /** Taking the ceiling p of the average of r over g leaves an average whose ceiling is p or p - 1. */
  lemma AverageStep(r: int, g: int, p: int, q: int)
    requires g > 1 && (p - 1) * g < r <= p * g && (q - 1) * (g - 1) < r - p <= q * (g - 1)
    ensures p - 1 <= q <= p
  {
    assert (p - 1) * g == (p - 1) * (g - 1) + (p - 1);
    assert p * g == p * (g - 1) + p;
    assert (p - 1) * (g - 1) <= r - p <= p * (g - 1);
    MulCancelLess(q - 1, p, g - 1);
    MulCancelLe(p - 1, q, g - 1);
  }

  /** Over a whole run of groups, sizes never grow and differ by at most one. */
  lemma {:induction false} GroupSizesBalanced(size: int, skip: int, groups: int, i: nat, j: nat)
    requires 0 <= skip <= size && i <= j < groups
    ensures var p, q := GroupStep(size, skip, groups, i).1, GroupStep(size, skip, groups, j).1;
            p - 1 <= q <= p
    decreases j - i
  {
    if i < j {
      var (s, p) := GroupStep(size, skip, groups, i);
      GroupSizesBalanced(size, skip, groups, i + 1, j);
      GroupSizeStep(size, skip, groups, i);
      GroupFloor(size, skip, groups, i, j, p - 1);
    }
  }

  /** A floor under the average of what is left stays a floor under every later group. */
  lemma {:induction false} GroupFloor(size: int, skip: int, groups: int, i: nat, j: nat, floor: int)
    requires 0 <= skip <= size && i <= j < groups
    requires floor * (groups - i) <= size - GroupStep(size, skip, groups, i).0
    ensures floor * (groups - j) <= size - GroupStep(size, skip, groups, j).0
    ensures floor <= GroupStep(size, skip, groups, j).1
    decreases j - i
  {
    var (s, p) := GroupStep(size, skip, groups, i);
    var g := groups - i;
    GroupStepBounds(size, skip, groups, i);
    MulCancelLe(floor, p, g);
    if i < j {
      FloorStep(size - s, g, p, floor);
      GroupFloor(size, skip, groups, i + 1, j, floor);
    }
  }

  lemma FloorStep(r: int, g: int, p: int, floor: int)
    requires g > 1 && (p - 1) * g < r <= p * g && floor * g <= r
    ensures floor * (g - 1) <= r - p
  {
    MulCancelLe(floor, p, g);
    assert floor * (g - 1) == floor * g - floor;
    assert (p - 1) * (g - 1) == (p - 1) * g - (p - 1);
    if floor < p { MulMono(floor, p - 1, g - 1); }
  }

  lemma GroupStepRange(size: int, skip: int, groups: int, j: nat, s: int, p: int)
    requires 0 <= skip <= size && j < groups && (s, p) == GroupStep(size, skip, groups, j)
    ensures skip <= s <= s + p <= size && (p == 0 ==> s == size)
    ensures j == groups - 1 ==> s + p == size
    ensures j == 0 ==> s == skip
    ensures j > 0 ==> var w := GroupStep(size, skip, groups, j - 1); s == w.0 + w.1
  {
    GroupStepBounds(size, skip, groups, j);
  }

  /** The clamp of a group to at least one result does not matter: a group of size zero starts at
      the end of the list. */
  lemma GroupPageIs<T>(xs: seq<T>, o: Options, size: int, s: int, p: int)
    requires 0 < o.page <= o.groups && 0 <= o.skip <= size && |xs| <= size
    requires (s, p) == GroupStep(size, o.skip, o.groups, o.page - 1)
    ensures PageOf(xs, o, size) == Take(Drop(xs, s), p)
  {
    GroupStepRange(size, o.skip, o.groups, o.page - 1, s, p);
  }

  /** Where group k ends; group 0 stands for what is skipped. */
  function GroupEnd(size: int, skip: int, groups: int, k: nat): int
    requires k <= groups
  {
    if k == 0 then skip else var w := GroupStep(size, skip, groups, k - 1); w.0 + w.1
  }

  lemma GroupIsCut<T>(xs: seq<T>, o: Options, size: int, k: nat)
    requires k < o.groups && 0 <= o.skip <= size && |xs| <= size
    ensures IsCut(xs, PageOf(xs, o.(page := k + 1), size), GroupEnd(size, o.skip, o.groups, k), GroupEnd(size, o.skip, o.groups, k + 1))
    ensures k + 1 == o.groups ==> GroupEnd(size, o.skip, o.groups, k + 1) == size
  {
    var w := GroupStep(size, o.skip, o.groups, k);
    GroupStepRange(size, o.skip, o.groups, k, w.0, w.1);
    GroupPageIs(xs, o.(page := k + 1), size, w.0, w.1);
    TakeDropIsSlice(xs, w.0, w.1);
  }

  /** Pages 1..groups concatenate to exactly the items from `skip` on, with no gap or overlap; this
      holds for filtered results as well, where the list is shorter than `size`. */
  lemma GroupPagesTile<T>(xs: seq<T>, o: Options, size: int, pages: seq<seq<T>>)
    requires 0 < o.groups == |pages| && 0 <= o.skip <= size && |xs| <= size
    requires forall k | 0 <= k < |pages| :: pages[k] == PageOf(xs, o.(page := k + 1), size)
    ensures Flatten(pages, |pages|) == Drop(xs, o.skip)
  {
    var cuts := seq(o.groups + 1, k requires 0 <= k <= o.groups => GroupEnd(size, o.skip, o.groups, k));
    forall k {:trigger pages[k]} | 0 <= k < |pages|
      ensures IsCut(xs, pages[k], cuts[k], cuts[k + 1])
    {
      GroupIsCut(xs, o, size, k);
    }
    GroupIsCut(xs, o, size, o.groups - 1);
    CutsTileAll(xs, pages, cuts, o.skip);
  }

  /** Page k + 1 shows what of group k the list still covers. */
  lemma GroupPageSize<T>(xs: seq<T>, o: Options, size: int, k: nat, s: int, p: int)
    requires k < o.groups && 0 <= o.skip <= size && |xs| <= size && (s, p) == GroupStep(size, o.skip, o.groups, k)
    ensures |PageOf(xs, o.(page := k + 1), size)| == Clamp(s + p, |xs|) - Clamp(s, |xs|)
  {
    GroupIsCut(xs, o, size, k);
    GroupStepRange(size, o.skip, o.groups, k, s, p);
  }

  lemma GroupPageStep<T>(xs: seq<T>, o: Options, size: int, k: nat)
    requires k + 1 < o.groups && 0 <= o.skip <= size && |xs| <= size
    ensures |PageOf(xs, o.(page := k + 2), size)| <= |PageOf(xs, o.(page := k + 1), size)|
  {
    var v, w := GroupStep(size, o.skip, o.groups, k), GroupStep(size, o.skip, o.groups, k + 1);
    GroupPageSize(xs, o, size, k, v.0, v.1);
    GroupPageSize(xs, o, size, k + 1, w.0, w.1);
    GroupStepRange(size, o.skip, o.groups, k, v.0, v.1);
    GroupStepRange(size, o.skip, o.groups, k + 1, w.0, w.1);
    GroupSizeStep(size, o.skip, o.groups, k);
    ClampedStep(v.0, v.1, w.1, |xs|);
  }

  lemma ClampedStep(s: int, p: int, q: int, m: nat)
    ensures 0 <= q <= p && 0 <= s ==> Clamp(s + p + q, m) - Clamp(s + p, m) <= Clamp(s + p, m) - Clamp(s, m)
  {
  }

  /** Filtered or not, later groups are never larger. */
  lemma {:induction false} GroupPagesNeverGrow<T>(xs: seq<T>, o: Options, size: int, i: nat, j: nat)
    requires 0 < i <= j <= o.groups && 0 <= o.skip <= size && |xs| <= size
    ensures |PageOf(xs, o.(page := j), size)| <= |PageOf(xs, o.(page := i), size)|
    decreases j - i
  {
    if i < j {
      GroupPagesNeverGrow(xs, o, size, i, j - 1);
      GroupPageStep(xs, o, size, j - 2);
    }
  }

  /** Group j ends at least j + 1 group sizes behind what is skipped, for the size of any later
      group. */
  lemma {:induction false} GroupEndAtLeast(size: int, skip: int, groups: int, j: nat, k: nat, floor: int)
    requires 0 <= skip <= size && j <= k < groups && floor == GroupStep(size, skip, groups, k).1
    ensures GroupEnd(size, skip, groups, j + 1) >= skip + (j + 1) * floor
  {
    var w := GroupStep(size, skip, groups, j);
    GroupStepRange(size, skip, groups, j, w.0, w.1);
    GroupSizesBalanced(size, skip, groups, j, k);
    if j > 0 { GroupEndAtLeast(size, skip, groups, j - 1, k, floor); }
    assert (j + 1) * floor == j * floor + floor;
  }

  lemma FloorBounds(n: int, g: int)
    requires g > 0
    ensures (n / g) * g <= n < (n / g + 1) * g
    ensures n == (n / g) * g <==> n % g == 0
  {
  }

  lemma LastGroupAtMost(size: int, skip: int, groups: int, q: int)
    requires 0 <= skip <= size && 0 < groups && q == GroupStep(size, skip, groups, groups - 1).1
    ensures q * groups <= size - skip
  {
    GroupEndAtLeast(size, skip, groups, groups - 1, groups - 1, q);
    GroupStepRange(size, skip, groups, groups - 1, size - q, q);
  }

  /** The last group takes the average, rounded down. */
  lemma LastGroupIsFloor(size: int, skip: int, groups: int, d: int)
    requires 0 <= skip <= size && 0 < groups && d * groups <= size - skip < (d + 1) * groups
    ensures GroupStep(size, skip, groups, groups - 1).1 == d
  {
    var w := GroupStep(size, skip, groups, groups - 1);
    GroupStepRange(size, skip, groups, groups - 1, w.0, w.1);
    GroupFloor(size, skip, groups, 0, groups - 1, d);
    LastGroupAtMost(size, skip, groups, w.1);
    MulCancelLess(w.1, d + 1, groups);
  }

  lemma CeilFloor(n: int, g: int)
    requires g > 0
    ensures CeilDiv(n, g) - 1 <= n / g <= CeilDiv(n, g)
    ensures n / g == CeilDiv(n, g) <==> n % g == 0
  {
    var c, d := CeilDiv(n, g), n / g;
    FloorBounds(n, g);
    MulCancelLess(c - 1, d + 1, g);
    MulCancelLe(d, c, g);
  }

  /** Of `size` results, m match: nothing is filtered out, or there is at most one match left to show,
      or at most one result per group, or a single group, or one result is filtered out of groups of
      equal size. */
  predicate GroupsStayBalanced(size: int, m: int, skip: int, groups: int)
    requires groups > 0
  {
    || m == size || m <= skip + 1 || size - skip <= groups || groups == 1
    || (size - m == 1 && (size - skip) % groups == 0)
  }

  lemma EndsBalanced(size: int, m: nat, skip: int, groups: int, p: int, q: int)
    requires 0 <= skip <= size && m <= size && groups > 0 && p - 1 <= q <= p && q >= 0
    requires (p - 1) * groups < size - skip <= p * groups
    requires q == p <==> (size - skip) % groups == 0
    requires if groups == 1 then p == q == size - skip else skip + p <= size - q
    ensures Clamp(skip + p, m) - Clamp(skip, m) - 1 <= m - Clamp(size - q, m) <==> GroupsStayBalanced(size, m, skip, groups)
  {
    if size - skip <= groups { MulCancelLess(p - 1, 1, groups); }
    if p <= 1 { MulMono(p, 1, groups); }
  }

  /** No page is larger than an earlier one. */
  ghost predicate NeverGrow<T>(pages: seq<seq<T>>) {
    forall i, j | 0 <= i <= j < |pages| :: |pages[j]| <= |pages[i]|
  }

  /** No page is smaller than an earlier one by more than one. */
  ghost predicate WithinOne<T>(pages: seq<seq<T>>) {
    forall i, j | 0 <= i <= j < |pages| :: |pages[i]| - 1 <= |pages[j]|
  }

  lemma EndsDecide<T>(pages: seq<seq<T>>)
    ensures pages != [] && NeverGrow(pages) ==> (WithinOne(pages) <==> |pages[0]| - 1 <= |pages[|pages| - 1]|)
  {
  }

  /** The sizes of the groups never grow; they differ by at most one exactly when nothing is filtered
      out, or there is nothing to balance, or only one result is filtered out of groups of equal
      size. */
  lemma GroupPagesBalancedExactly<T>(xs: seq<T>, o: Options, size: int, pages: seq<seq<T>>)
    requires 0 < o.groups == |pages| && 0 <= o.skip <= size && |xs| <= size
    requires forall k | 0 <= k < |pages| :: pages[k] == PageOf(xs, o.(page := k + 1), size)
    ensures NeverGrow(pages)
    ensures WithinOne(pages) <==> GroupsStayBalanced(size, |xs|, o.skip, o.groups)
  {
    forall i, j | 0 <= i <= j < |pages|
      ensures |pages[j]| <= |pages[i]|
    {
      GroupPagesNeverGrow(xs, o, size, i + 1, j + 1);
    }
    EndsDecide(pages);
    GroupPageEnds(xs, o, size);
  }

  /** The sizes of the first and of the last page, by the sizes of the groups. */
  lemma EndSizes<T>(xs: seq<T>, o: Options, size: int, p: int, q: int)
    requires 0 < o.groups && 0 <= o.skip <= size && |xs| <= size
    requires p == GroupStep(size, o.skip, o.groups, 0).1 && q == GroupStep(size, o.skip, o.groups, o.groups - 1).1
    ensures |PageOf(xs, o.(page := 1), size)| == Clamp(o.skip + p, |xs|) - Clamp(o.skip, |xs|)
    ensures |PageOf(xs, o.(page := o.groups), size)| == |xs| - Clamp(size - q, |xs|)
  {
    var w := GroupStep(size, o.skip, o.groups, o.groups - 1);
    GroupPageSize(xs, o, size, 0, o.skip, p);
    GroupPageSize(xs, o, size, o.groups - 1, w.0, w.1);
    GroupStepRange(size, o.skip, o.groups, o.groups - 1, w.0, w.1);
  }

  lemma EndGroups(size: int, skip: int, g: int, p: int, q: int)
    requires 0 <= skip <= size && 0 < g
    requires p == GroupStep(size, skip, g, 0).1 && q == GroupStep(size, skip, g, g - 1).1
    ensures p == CeilDiv(size - skip, g) && q == (size - skip) / g
    ensures if g == 1 then p == q == size - skip else skip + p <= size - q
  {
    var w := GroupStep(size, skip, g, g - 1);
    GroupStepRange(size, skip, g, g - 1, w.0, w.1);
    FloorBounds(size - skip, g);
    LastGroupIsFloor(size, skip, g, (size - skip) / g);
    if g > 1 { FirstBeforeLast(size, skip, g, g - 1); }
  }

  lemma GroupEndsBalance(size: int, m: nat, skip: int, g: int, p: int, q: int)
    requires 0 <= skip <= size && 0 < g && m <= size
    requires p == GroupStep(size, skip, g, 0).1 && q == GroupStep(size, skip, g, g - 1).1
    ensures Clamp(skip + p, m) - Clamp(skip, m) - 1 <= m - Clamp(size - q, m) <==> GroupsStayBalanced(size, m, skip, g)
  {
    EndGroups(size, skip, g, p, q);
    CeilFloor(size - skip, g);
    GroupStepBounds(size, skip, g, g - 1);
    EndsBalanced(size, m, skip, g, p, q);
  }

  lemma GroupPageEnds<T>(xs: seq<T>, o: Options, size: int)
    requires 0 < o.groups && 0 <= o.skip <= size && |xs| <= size
    ensures |PageOf(xs, o.(page := 1), size)| - 1 <= |PageOf(xs, o.(page := o.groups), size)| <==>
            GroupsStayBalanced(size, |xs|, o.skip, o.groups)
  {
    var p, q := GroupStep(size, o.skip, o.groups, 0).1, GroupStep(size, o.skip, o.groups, o.groups - 1).1;
    EndSizes(xs, o, size, p, q);
    GroupEndsBalance(size, |xs|, o.skip, o.groups, p, q);
  }

  lemma {:induction false} FirstBeforeLast(size: int, skip: int, groups: int, j: nat)
    requires 0 <= skip <= size && 0 < j < groups
    ensures GroupStep(size, skip, groups, j).0 >= skip + GroupStep(size, skip, groups, 0).1
  {
    var w := GroupStep(size, skip, groups, j - 1);
    GroupStepRange(size, skip, groups, j - 1, w.0, w.1);
    if j > 1 { FirstBeforeLast(size, skip, groups, j - 1); }
  }

  /** Three matches among six results make two groups of three and none. */
  lemma FilteredGroupsUnbalanced<T>(a: T, b: T, c: T)
    ensures var o := Options(2, 1, 0, 0);
            PageOf([a, b, c], o, 6) == [a, b, c] && PageOf([a, b, c], o.(page := 2), 6) == []
  {
    assert GroupStep(6, 0, 2, 0) == (0, 3) && GroupStep(6, 0, 2, 1) == (3, 3);
  }

  // ---------------------------------------------------------------------------------------
  // Plain pages
  // ---------------------------------------------------------------------------------------

  /** The number of plain pages. */
  function PageCount(o: Options, size: int): int
    requires o.paginate > 0
  {
    CeilDiv(size - o.skip, o.paginate)
  }

  lemma PlainPageIs<T>(xs: seq<T>, o: Options, size: int, start: int)
    requires o.groups == 0 && o.paginate > 0 && o.skip >= 0 && o.page >= 1
    requires start == o.skip + (o.page - 1) * o.paginate
    ensures PageOf(xs, o, size) == Take(Drop(xs, start), o.paginate)
    ensures start >= 0
  {
    MulMono(0, o.page - 1, o.paginate);
  }

  /** Where plain page k ends; page 0 stands for what is skipped. */
  function PlainEnd(o: Options, k: nat): int { o.skip + k * o.paginate }

  lemma PlainIsCut<T>(xs: seq<T>, o: Options, size: int, k: nat)
    requires o.groups == 0 && o.paginate > 0 && o.skip >= 0
    ensures IsCut(xs, PageOf(xs, o.(page := k + 1), size), PlainEnd(o, k), PlainEnd(o, k + 1))
    ensures k + 1 == PageCount(o, size) ==> PlainEnd(o, k + 1) >= size
  {
    PlainPageIs(xs, o.(page := k + 1), size, o.skip + k * o.paginate);
    TakeDropIsSlice(xs, o.skip + k * o.paginate, o.paginate);
    assert (k + 1) * o.paginate == k * o.paginate + o.paginate;
  }

  lemma PageCountPositive(o: Options, size: int)
    requires o.paginate > 0 && o.skip < size
    ensures PageCount(o, size) >= 1
  {
    MulCancelLess(0, PageCount(o, size), o.paginate);
  }

  /** Plain pages 1..PageCount concatenate to exactly the items from `skip` on. */
  lemma PlainPagesTile<T>(xs: seq<T>, o: Options, size: int, pages: seq<seq<T>>)
    requires o.groups == 0 && o.paginate > 0 && 0 <= o.skip < size && |xs| <= size
    requires |pages| == PageCount(o, size)
    requires forall k | 0 <= k < |pages| :: pages[k] == PageOf(xs, o.(page := k + 1), size)
    ensures Flatten(pages, |pages|) == Drop(xs, o.skip)
  {
    PageCountPositive(o, size);
    var cuts := seq(|pages| + 1, k requires 0 <= k <= |pages| => PlainEnd(o, k));
    forall k {:trigger pages[k]} | 0 <= k < |pages|
      ensures IsCut(xs, pages[k], cuts[k], cuts[k + 1])
    {
      PlainIsCut(xs, o, size, k);
    }
    PlainIsCut(xs, o, size, |pages| - 1);
    CutsTileAll(xs, pages, cuts, o.skip);
  }

  /** A page is non-empty exactly when it is in range; for filtered results the range is that of the
      matches. */
  lemma PlainPagesInRange<T>(xs: seq<T>, o: Options, size: int, k: nat)
    requires o.groups == 0 && o.paginate > 0 && 0 <= o.skip && k >= 1
    ensures PageOf(xs, o.(page := k), size) != [] <==> k <= PageCount(o, |xs|)
  {
    var n := PageCount(o, |xs|);
    var start := o.skip + (k - 1) * o.paginate;
    PlainPageIs(xs, o.(page := k), size, start);
    assert start < |xs| <==> k <= n by {
      if k <= n { MulMono(k - 1, n - 1, o.paginate); } else { MulMono(n, k - 1, o.paginate); }
    }
  }

  lemma PageCountMono(o: Options, m: int, size: int)
    requires o.paginate > 0 && m <= size
    ensures PageCount(o, m) <= PageCount(o, size)
  {
    MulCancelLess(PageCount(o, m) - 1, PageCount(o, size), o.paginate);
  }

  /** One match among two results on pages of one: page "last" is the second page, and empty. */
  lemma LastPageEmpty<T>(a: T)
    ensures PageOf([a], Options(0, -1, 1, 0), 2) == []
  {
    assert CeilDiv(2, 1) == 2;
  }

  /** Page "last" is counted on the results before filtering: it is non-empty exactly when filtering
      leaves the number of pages as it was, and then it is the final page in range. */
  lemma LastPageExactly<T>(xs: seq<T>, o: Options, size: int)
    requires o.groups == 0 && o.paginate > 0 && 0 <= o.skip < size && |xs| <= size
    ensures var last := PageOf(xs, o.(page := -1), size);
            && (last != [] <==> PageCount(o, |xs|) == PageCount(o, size))
            && (last != [] ==> last == PageOf(xs, o.(page := PageCount(o, |xs|)), size))
  {
    PageCountPositive(o, size);
    PageCountMono(o, |xs|, size);
    PlainPagesInRange(xs, o, size, PageCount(o, size));
  }
}
