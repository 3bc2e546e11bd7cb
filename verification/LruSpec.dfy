/** What the LRU cache of lru_cache.h promises, on plain lists, most recently used entry first. */
module LruSpec {
  import opened Wrappers

  datatype Item<K, V> = Item(key: K, data: V)

  ghost predicate Distinct<K, V>(l: seq<Item<K, V>>) {
    forall i, j | 0 <= i < j < |l| :: l[i].key != l[j].key
  }

  function Without<K(==), V>(l: seq<Item<K, V>>, k: K): seq<Item<K, V>> {
    if l == [] then [] else if l[0].key == k then l[1..] else [l[0]] + Without(l[1..], k)
  }

  function Find<K(==), V>(l: seq<Item<K, V>>, k: K): Option<V> {
    if l == [] then None else if l[0].key == k then Some(l[0].data) else Find(l[1..], k)
  }

  function TotalSize<K, V>(l: seq<Item<K, V>>, size: V -> nat): nat {
    if l == [] then 0 else TotalSize(l[..|l| - 1], size) + size(l[|l| - 1].data)
  }

  /** Drops entries from the old end until the rest fits. */
  function Fit<K, V>(l: seq<Item<K, V>>, size: V -> nat, max: nat): seq<Item<K, V>> {
    if TotalSize(l, size) <= max then l else Fit(l[..|l| - 1], size, max)
  }

  function MoveToFront<K(==), V>(l: seq<Item<K, V>>, k: K): seq<Item<K, V>> {
    match Find(l, k) case Some(v) => [Item(k, v)] + Without(l, k) case None => l
  }

  datatype Op<K, V> =
    | Insert(key: K, data: V)
    | Touch(key: K)
    | Fetch(key: K, touch: bool)
    | FetchPtr(key: K, touch: bool)
    | Remove(key: K)
    | Clear

  /** One cache operation; `fetch_ptr` touches whatever its flag says. */
  function Apply<K(==), V>(l: seq<Item<K, V>>, op: Op<K, V>, size: V -> nat, max: nat): seq<Item<K, V>> {
    match op
    case Insert(k, v) => Fit([Item(k, v)] + Without(l, k), size, max)
    case Touch(k) => MoveToFront(l, k)
    case Fetch(k, touch) => if touch then MoveToFront(l, k) else l
    case FetchPtr(k, _) => MoveToFront(l, k)
    case Remove(k) => Without(l, k)
    case Clear => []
  }

  /** When a touch changes nothing. */
  lemma TouchChangesNothing<K, V>(l: seq<Item<K, V>>, k: K)
    ensures MoveToFront(l, k) == l <==> Find(l, k).None? || l[0].key == k
  {
    if l != [] && l[0].key == k { assert l == [Item(k, l[0].data)] + l[1..]; }
  }

  /** `fetch_ptr` does what its flag says, like `fetch`, exactly when the flag is set, the key is
      missing, or its entry is the most recent one anyway. */
  lemma FetchPtrFlagExactly<K, V>(l: seq<Item<K, V>>, k: K, touch: bool, size: V -> nat, max: nat)
    ensures Apply(l, FetchPtr(k, touch), size, max) == Apply(l, Fetch(k, touch), size, max) <==>
            touch || Find(l, k).None? || l[0].key == k
  {
    TouchChangesNothing(l, k);
  }

  /** Without its flag, `fetch_ptr` on the older of two entries still moves it to the front. */
  lemma FetchPtrMoves<K, V>(j: K, v: V, k: K, w: V, size: V -> nat, max: nat)
    requires j != k
    ensures var l := [Item(j, v), Item(k, w)];
            Apply(l, FetchPtr(k, false), size, max) == [Item(k, w), Item(j, v)] && Apply(l, Fetch(k, false), size, max) == l
  {
    var l := [Item(j, v), Item(k, w)];
    assert l[1..] == [Item(k, w)];
    assert Find(l, k) == Some(w) && Without(l, k) == [Item(j, v)];
  }

  function Run<K(==), V>(ops: seq<Op<K, V>>, size: V -> nat, max: nat): seq<Item<K, V>> {
    if ops == [] then [] else Apply(Run(ops[..|ops| - 1], size, max), ops[|ops| - 1], size, max)
  }

  // ---------------------------------------------------------------------------------------
  // Facts about lists
  // ---------------------------------------------------------------------------------------

  /** Every entry of `sub` is an entry of `l`, in the same order: `at` says where. */
  ghost predicate Embeds<K, V>(sub: seq<Item<K, V>>, l: seq<Item<K, V>>, at: seq<nat>) {
    && |at| == |sub|
    && (forall i | 0 <= i < |at| :: at[i] < |l| && l[at[i]] == sub[i])
    && (forall i, j | 0 <= i < j < |at| :: at[i] < at[j])
  }

  lemma {:induction false} FindMeaning<K, V>(l: seq<Item<K, V>>, k: K)
    ensures Find(l, k).Some? <==> exists i :: 0 <= i < |l| && l[i].key == k
    ensures Find(l, k).Some? ==> Item(k, Find(l, k).value) in l
  {
    if l != [] {
      FindMeaning(l[1..], k);
      if l[0].key != k && Find(l[1..], k).Some? {
        var i :| 0 <= i < |l[1..]| && l[1..][i].key == k;
        assert l[i + 1].key == k;
      }
      if exists i :: 0 < i < |l| && l[i].key == k {
        var i :| 0 < i < |l| && l[i].key == k;
        assert l[1..][i - 1].key == k;
      }
    }
  }

  /** Where entry i of `Without(l, k)` sits in `l`. */
  lemma {:induction false} WithoutEmbeds<K, V>(l: seq<Item<K, V>>, k: K) returns (at: seq<nat>)
    ensures Embeds(Without(l, k), l, at)
  {
    if l == [] {
      at := [];
    } else if l[0].key == k {
      at := seq(|l| - 1, i requires 0 <= i < |l| - 1 => i + 1);
    } else {
      var at' := WithoutEmbeds(l[1..], k);
      at := EmbedsCons(Without(l[1..], k), l, at');
    }
  }

  lemma EmbedsCons<K, V>(sub: seq<Item<K, V>>, l: seq<Item<K, V>>, at: seq<nat>) returns (more: seq<nat>)
    requires l != [] && Embeds(sub, l[1..], at)
    ensures Embeds([l[0]] + sub, l, more)
  {
    more := [0] + seq(|at|, i requires 0 <= i < |at| => at[i] + 1);
    forall i | 0 <= i < |more|
      ensures more[i] < |l| && l[more[i]] == ([l[0]] + sub)[i]
    {
      if i > 0 { assert more[i] == at[i - 1] + 1 && sub[i - 1] == l[1..][at[i - 1]]; }
    }
  }

  lemma {:induction false} WithoutAbsent<K, V>(l: seq<Item<K, V>>, k: K)
    requires Distinct(l)
    ensures forall i | 0 <= i < |Without(l, k)| :: Without(l, k)[i].key != k
  {
    if l != [] {
      assert Distinct(l[1..]);
      if l[0].key != k { WithoutAbsent(l[1..], k); }
    }
  }

  lemma {:induction false} WithoutComplete<K, V>(l: seq<Item<K, V>>, k: K, x: Item<K, V>)
    requires x in l && x.key != k
    ensures x in Without(l, k)
  {
    if l[0].key != k && x != l[0] { WithoutComplete(l[1..], k, x); }
  }

  lemma WithoutDistinct<K, V>(l: seq<Item<K, V>>, k: K)
    requires Distinct(l)
    ensures Distinct(Without(l, k))
    ensures forall i | 0 <= i < |Without(l, k)| :: Without(l, k)[i].key != k
    ensures forall x | x in Without(l, k) :: x in l
  {
    var at := WithoutEmbeds(l, k);
    WithoutAbsent(l, k);
  }

  lemma {:induction false} FitPrefix<K, V>(l: seq<Item<K, V>>, size: V -> nat, max: nat)
    ensures |Fit(l, size, max)| <= |l| && Fit(l, size, max) == l[..|Fit(l, size, max)|]
    ensures TotalSize(Fit(l, size, max), size) <= max
    ensures forall m | |Fit(l, size, max)| < m <= |l| :: TotalSize(l[..m], size) > max
    decreases |l|
  {
    if TotalSize(l, size) > max {
      var shorter := l[..|l| - 1];
      FitPrefix(shorter, size, max);
      var n := |Fit(l, size, max)|;
      assert l[..n] == shorter[..n];
      forall m | n < m <= |l|
        ensures TotalSize(l[..m], size) > max
      {
        if m < |l| { assert l[..m] == shorter[..m]; } else { assert l[..m] == l; }
      }
    }
  }

  lemma {:induction false} TotalSplit<K, V>(a: seq<Item<K, V>>, b: seq<Item<K, V>>, size: V -> nat)
    ensures TotalSize(a + b, size) == TotalSize(a, size) + TotalSize(b, size)
  {
    if b == [] {
      assert a + b == a;
    } else {
      TotalSplit(a, b[..|b| - 1], size);
      assert (a + b)[..|a + b| - 1] == a + b[..|b| - 1];
    }
  }

  lemma {:induction false} TotalWithout<K, V>(l: seq<Item<K, V>>, k: K, size: V -> nat)
    ensures TotalSize(l, size) ==
            TotalSize(Without(l, k), size) + match Find(l, k) case Some(v) => size(v) case None => 0
  {
    if l != [] {
      TotalSplit([l[0]], l[1..], size);
      assert l == [l[0]] + l[1..] && TotalSize([l[0]], size) == size(l[0].data) by { assert [l[0]][..0] == []; }
      if l[0].key != k {
        TotalWithout(l[1..], k, size);
        TotalSplit([l[0]], Without(l[1..], k), size);
      }
    }
  }

  /** Insertion puts the entry first and evicts exactly the shortest least recent suffix that
      brings the size down to the maximum, even if that is everything. */
  lemma InsertEvictsShortestSuffix<K, V>(l: seq<Item<K, V>>, k: K, v: V, size: V -> nat, max: nat)
    ensures var full, kept := [Item(k, v)] + Without(l, k), Apply(l, Insert(k, v), size, max);
            && |kept| <= |full| && kept == full[..|kept|]
            && TotalSize(kept, size) <= max
            && forall m | |kept| < m <= |full| :: TotalSize(full[..m], size) > max
  {
    FitPrefix([Item(k, v)] + Without(l, k), size, max);
  }

  // ---------------------------------------------------------------------------------------
  // Whole runs
  // ---------------------------------------------------------------------------------------

  predicate Uses<K(==), V>(op: Op<K, V>, k: K) {
    match op
    case Insert(k', _) => k' == k
    case Touch(k') => k' == k
    case Fetch(k', touch) => touch && k' == k
    case FetchPtr(k', _) => k' == k
    case Remove(_) => false
    case Clear => false
  }

  /** The number of the last operation that inserts or touches the key, counting from one. */
  function LastUse<K(==), V>(ops: seq<Op<K, V>>, k: K): nat {
    if ops == [] then 0
    else if Uses(ops[|ops| - 1], k) then |ops|
    else LastUse(ops[..|ops| - 1], k)
  }

  /** The operation takes the key out. */
  predicate Drops<K(==), V>(op: Op<K, V>, k: K) { op.Clear? || (op.Remove? && op.key == k) }

  /** The data of the last insertion of the key, unless it was taken out since. */
  function LastInserted<K(==), V>(ops: seq<Op<K, V>>, k: K): Option<V> {
    if ops == [] then None
    else match ops[|ops| - 1]
      case Insert(k', v) => if k' == k then Some(v) else LastInserted(ops[..|ops| - 1], k)
      case _ => if Drops(ops[|ops| - 1], k) then None else LastInserted(ops[..|ops| - 1], k)
  }

  /** The list is ordered by last use and holds what was inserted last. */
  ghost predicate Recent<K, V>(l: seq<Item<K, V>>, ops: seq<Op<K, V>>) {
    && (forall i, j | 0 <= i < j < |l| :: LastUse(ops, l[i].key) > LastUse(ops, l[j].key))
    && (forall i | 0 <= i < |l| :: LastUse(ops, l[i].key) > 0 && LastInserted(ops, l[i].key) == Some(l[i].data))
  }

  lemma {:induction false} LastUseBound<K, V>(ops: seq<Op<K, V>>, k: K)
    ensures LastUse(ops, k) <= |ops|
  {
    if ops != [] { LastUseBound(ops[..|ops| - 1], k); }
  }

  lemma RecentIsDistinct<K, V>(l: seq<Item<K, V>>, ops: seq<Op<K, V>>)
    requires Recent(l, ops)
    ensures Distinct(l)
  {
  }

  /** Removing entries keeps the order. */
  lemma RecentEmbedded<K, V>(sub: seq<Item<K, V>>, l: seq<Item<K, V>>, at: seq<nat>, ops: seq<Op<K, V>>)
    requires Recent(l, ops) && Embeds(sub, l, at)
    ensures Recent(sub, ops)
  {
    forall i | 0 <= i < |sub|
      ensures LastUse(ops, sub[i].key) > 0 && LastInserted(ops, sub[i].key) == Some(sub[i].data)
    {
      assert sub[i] == l[at[i]];
    }
    forall i, j | 0 <= i < j < |sub|
      ensures LastUse(ops, sub[i].key) > LastUse(ops, sub[j].key)
    {
      assert sub[i] == l[at[i]] && sub[j] == l[at[j]];
    }
  }

  /** An operation that does not use any listed key leaves the order alone. */
  lemma RecentUnused<K, V>(l: seq<Item<K, V>>, ops: seq<Op<K, V>>, op: Op<K, V>)
    requires Recent(l, ops) && forall i | 0 <= i < |l| :: !Uses(op, l[i].key) && !Drops(op, l[i].key)
    ensures Recent(l, ops + [op])
  {
    assert (ops + [op])[..|ops|] == ops;
  }

  /** The key that an operation uses is used later than every other one. */
  lemma NewestUse<K, V>(ops: seq<Op<K, V>>, op: Op<K, V>, other: K)
    requires !Uses(op, other)
    ensures forall k | Uses(op, k) :: LastUse(ops + [op], k) > LastUse(ops + [op], other)
  {
    assert (ops + [op])[..|ops|] == ops;
    LastUseBound(ops, other);
  }

  lemma RecentCons<K, V>(x: Item<K, V>, rest: seq<Item<K, V>>, ops: seq<Op<K, V>>)
    requires Recent(rest, ops) && LastInserted(ops, x.key) == Some(x.data) && LastUse(ops, x.key) > 0
    requires forall j | 0 <= j < |rest| :: LastUse(ops, x.key) > LastUse(ops, rest[j].key)
    ensures Recent([x] + rest, ops)
  {
  }

  /** Putting the used key in front of the others restores the order. */
  lemma RecentFront<K, V>(l: seq<Item<K, V>>, ops: seq<Op<K, V>>, op: Op<K, V>, k: K, v: V)
    requires Recent(l, ops) && Distinct(l) && Uses(op, k)
    requires forall k' | Uses(op, k') :: k' == k
    requires LastInserted(ops + [op], k) == Some(v)
    ensures Recent([Item(k, v)] + Without(l, k), ops + [op])
  {
    var at := WithoutEmbeds(l, k);
    WithoutAbsent(l, k);
    RecentEmbedded(Without(l, k), l, at, ops);
    RecentUnused(Without(l, k), ops, op);
    var rest := Without(l, k);
    forall j | 0 <= j < |rest|
      ensures LastUse(ops + [op], k) > LastUse(ops + [op], rest[j].key)
    {
      NewestUse(ops, op, rest[j].key);
    }
    assert (ops + [op])[|ops|] == op;
    RecentCons(Item(k, v), rest, ops + [op]);
  }

  lemma RecentTouched<K, V>(l: seq<Item<K, V>>, ops: seq<Op<K, V>>, op: Op<K, V>, k: K)
    requires Recent(l, ops) && Uses(op, k) && !op.Insert?
    ensures Recent(MoveToFront(l, k), ops + [op])
  {
    RecentIsDistinct(l, ops);
    FindMeaning(l, k);
    assert (ops + [op])[..|ops|] == ops;
    match Find(l, k)
    case Some(v) => RecentFront(l, ops, op, k, v);
    case None => RecentUnused(l, ops, op);
  }

  lemma RecentInserted<K, V>(l: seq<Item<K, V>>, ops: seq<Op<K, V>>, k: K, v: V, size: V -> nat, max: nat)
    requires Recent(l, ops) && Distinct(l)
    ensures Recent(Fit([Item(k, v)] + Without(l, k), size, max), ops + [Insert(k, v)])
  {
    var full := [Item(k, v)] + Without(l, k);
    RecentFront(l, ops, Insert(k, v), k, v);
    FitPrefix(full, size, max);
    var kept := Fit(full, size, max);
    RecentEmbedded(kept, full, seq(|kept|, i requires 0 <= i < |kept| => i), ops + [Insert(k, v)]);
  }

  lemma RecentRemoved<K, V>(l: seq<Item<K, V>>, ops: seq<Op<K, V>>, k: K)
    requires Recent(l, ops) && Distinct(l)
    ensures Recent(Without(l, k), ops + [Op.Remove(k)])
  {
    var at := WithoutEmbeds(l, k);
    WithoutAbsent(l, k);
    RecentEmbedded(Without(l, k), l, at, ops);
    RecentUnused(Without(l, k), ops, Op.Remove(k));
  }

  /** After any run, the list is ordered by last insertion or touching use, has no duplicate keys,
      and every entry holds the data that was last inserted for its key. */
  lemma {:induction false} RunIsRecent<K, V>(ops: seq<Op<K, V>>, size: V -> nat, max: nat)
    ensures Recent(Run(ops, size, max), ops)
    ensures Distinct(Run(ops, size, max))
  {
    if ops != [] {
      var before, op := ops[..|ops| - 1], ops[|ops| - 1];
      var l := Run(before, size, max);
      RunIsRecent(before, size, max);
      assert ops == before + [op];
      match op {
        case Insert(k, v) => RecentInserted(l, before, k, v, size, max);
        case Touch(k) => RecentTouched(l, before, op, k);
        case Fetch(k, touch) => if touch { RecentTouched(l, before, op, k); } else { RecentUnused(l, before, op); }
        case FetchPtr(k, _) => RecentTouched(l, before, op, k);
        case Remove(k) => RecentRemoved(l, before, k);
        case Clear =>
      }
      RecentIsDistinct(Run(ops, size, max), ops);
    }
  }

  lemma TotalMoved<K, V>(l: seq<Item<K, V>>, k: K, size: V -> nat)
    ensures TotalSize(MoveToFront(l, k), size) == TotalSize(l, size)
  {
    TotalWithout(l, k, size);
    match Find(l, k)
    case Some(v) =>
      TotalSplit([Item(k, v)], Without(l, k), size);
      assert [Item(k, v)][..0] == [];
    case None =>
  }

  /** Everything but the key is still there. */
  ghost predicate OnlyLost<K, V>(l: seq<Item<K, V>>, m: seq<Item<K, V>>, k: K) {
    && (forall x | x in m :: x in l && x.key != k)
    && (forall x | x in l && x.key != k :: x in m)
  }

  lemma WithoutLoses<K, V>(l: seq<Item<K, V>>, m: seq<Item<K, V>>, k: K)
    requires Distinct(l) && m == Without(l, k)
    ensures OnlyLost(l, m, k)
  {
    var at := WithoutEmbeds(l, k);
    WithoutAbsent(l, k);
    forall x | x in l && x.key != k
      ensures x in Without(l, k)
    {
      WithoutComplete(l, k, x);
    }
  }

  /** What fits by itself stays in front. */
  lemma FitKeepsFront<K, V>(x: Item<K, V>, rest: seq<Item<K, V>>, size: V -> nat, max: nat)
    ensures size(x.data) <= max ==> Fit([x] + rest, size, max) != [] && Fit([x] + rest, size, max)[0] == x
    ensures size(x.data) > max ==> Fit([x] + rest, size, max) == []
  {
    var full := [x] + rest;
    var kept := Fit(full, size, max);
    FitPrefix(full, size, max);
    assert full[..1] == [x] && [x][..0] == [];
    assert TotalSize([x], size) == size(x.data);
    if kept != [] {
      TotalSplit([x], kept[1..], size);
      assert kept == [x] + kept[1..];
    }
  }

  /** After any run the entries fit. */
  lemma {:induction false} RunFits<K, V>(ops: seq<Op<K, V>>, size: V -> nat, max: nat)
    ensures TotalSize(Run(ops, size, max), size) <= max
  {
    if ops != [] {
      var before, op := ops[..|ops| - 1], ops[|ops| - 1];
      var l := Run(before, size, max);
      RunFits(before, size, max);
      match op {
        case Insert(k, v) => FitPrefix([Item(k, v)] + Without(l, k), size, max);
        case Touch(k) => TotalMoved(l, k, size);
        case Fetch(k, _) => TotalMoved(l, k, size);
        case FetchPtr(k, _) => TotalMoved(l, k, size);
        case Remove(k) => TotalWithout(l, k, size);
        case Clear =>
      }
    }
  }
}
