/** The long-term cache of server.cpp: a MySQL table with memcached in front, which also holds the
    short-term entries under keys of their own. */
module LongTermCaches {

  // ---------------------------------------------------------------------------------------
  // Keys
  // ---------------------------------------------------------------------------------------

  const PROXY: string := "VaedbProxy:"
  const MARK: string := "LongTerm2"

  function LongTermKey(subdomain: string, key: string): string { PROXY + (subdomain + MARK + ":" + key) }

  function ShortTermKey(subdomain: string, key: string): string { PROXY + (subdomain + ":" + key) }

  /** The keys as they are in memcached. */
  lemma KeysSpelled(s: string, k: string)
    ensures LongTermKey(s, k) == "VaedbProxy:" + s + "LongTerm2:" + k && ShortTermKey(s, k) == "VaedbProxy:" + s + ":" + k
  {
    assert MARK + ":" == "LongTerm2:";
    assert PROXY + (s + (MARK + ":") + k) == PROXY + s + (MARK + ":") + k;
  }

  ghost predicate ColonFree(s: string) { forall i | 0 <= i < |s| :: s[i] != ':' }

  lemma ShorterDiffers(a: string, x: string, b: string, y: string)
    requires |a| < |b| && ColonFree(b)
    ensures a + ":" + x != b + ":" + y
  {
    assert (a + ":" + x)[|a|] == ':' && (b + ":" + y)[|a|] == b[|a|];
  }

  lemma SameBeforeColon(a: string, x: string, b: string, y: string)
    requires ColonFree(a) && ColonFree(b)
    ensures a + ":" + x == b + ":" + y <==> a == b && x == y
  {
    if |a| < |b| {
      ShorterDiffers(a, x, b, y);
    } else if |b| < |a| {
      ShorterDiffers(b, y, a, x);
    } else if a + ":" + x == b + ":" + y {
      var s, t := a + ":" + x, b + ":" + y;
      assert s[..|a|] == a && t[..|b|] == b && s[|a| + 1..] == x && t[|b| + 1..] == y;
    }
  }

  lemma SameAfterProxy(x: string, y: string)
    ensures PROXY + x == PROXY + y <==> x == y
  {
    assert (PROXY + x)[|PROXY|..] == x && (PROXY + y)[|PROXY|..] == y;
  }

  /** Long-term keys never collide with one another. */
  lemma LongTermKeyInjective(s: string, k: string, s': string, k': string)
    requires ColonFree(s) && ColonFree(s')
    ensures LongTermKey(s, k) == LongTermKey(s', k') <==> s == s' && k == k'
  {
    SameAfterProxy(s + MARK + ":" + k, s' + MARK + ":" + k');
    SameBeforeColon(s + MARK, k, s' + MARK, k');
    assert (s + MARK)[..|s + MARK| - 9] == s && (s' + MARK)[..|s' + MARK| - 9] == s';
  }

  /** A short-term key collides with a long-term key exactly when its subdomain is the other one
      with the mark appended. */
  lemma KeysAliasExactly(s: string, k: string, s': string, k': string)
    requires ColonFree(s) && ColonFree(s')
    ensures ShortTermKey(s', k') == LongTermKey(s, k) <==> s' == s + "LongTerm2" && k' == k
  {
    SameAfterProxy(s' + ":" + k', s + MARK + ":" + k);
    SameBeforeColon(s', k', s + MARK, k);
  }

  // ---------------------------------------------------------------------------------------
  // The stores
  // ---------------------------------------------------------------------------------------

  datatype Stores = Stores(mem: map<string, string>, sql: map<(string, string), string>)

  /** What MySQL answers; a missing row reads as the empty string. */
  function Direct(s: Stores, subdomain: string, key: string): string {
    if (subdomain, key) in s.sql then s.sql[(subdomain, key)] else ""
  }

  function MemGet(s: Stores, k: string): string { if k in s.mem then s.mem[k] else "" }

  /** What the get handler answers. */
  function ReadThrough(s: Stores, subdomain: string, key: string, useShortTermCache: bool): string {
    if useShortTermCache && MemGet(s, LongTermKey(subdomain, key)) != "" then MemGet(s, LongTermKey(subdomain, key))
    else Direct(s, subdomain, key)
  }

  /** The handlers that change a store, and memcached dropping an entry at will.  A get that other
      requests overtake after it has read from MySQL is its WriteBack, with the value it has read. */
  datatype Op =
    | LongGet(subdomain: string, key: string, useShortTermCache: bool)
    | WriteBack(subdomain: string, key: string, value: string)
    | LongSet(subdomain: string, key: string, value: string)
    | LongDelete(subdomain: string, key: string)
    | LongEmpty(subdomain: string)
    | ShortSet(subdomain: string, key: string, value: string)
    | ShortDelete(subdomain: string, key: string)
    | Evict(memKey: string)

  function Apply(s: Stores, op: Op): Stores {
    match op
    case LongGet(d, k, short) =>
      if short && MemGet(s, LongTermKey(d, k)) != "" then s
      else s.(mem := s.mem[LongTermKey(d, k) := Direct(s, d, k)])
    case WriteBack(d, k, v) => s.(mem := s.mem[LongTermKey(d, k) := v])
    case LongSet(d, k, v) => Stores(s.mem[LongTermKey(d, k) := v], s.sql[(d, k) := v])
    case LongDelete(d, k) => Stores(s.mem - {LongTermKey(d, k)}, s.sql - {(d, k)})
    case LongEmpty(d) => s.(sql := map row | row in s.sql && row.0 != d :: s.sql[row])
    case ShortSet(d, k, v) => s.(mem := s.mem[ShortTermKey(d, k) := v])
    case ShortDelete(d, k) => s.(mem := s.mem - {ShortTermKey(d, k)})
    case Evict(m) => s.(mem := s.mem - {m})
  }

  /** The stores after the first n operations. */
  function Run(ops: seq<Op>, n: nat): Stores
    requires n <= |ops|
  {
    if n == 0 then Stores(map[], map[]) else Apply(Run(ops, n - 1), ops[n - 1])
  }

  lemma {:induction false} RunPrefix(ops: seq<Op>, op: Op, n: nat)
    requires n <= |ops|
    ensures Run(ops + [op], n) == Run(ops, n)
  {
    if n > 0 { RunPrefix(ops, op, n - 1); }
  }

  // ---------------------------------------------------------------------------------------
  // Coherence
  // ---------------------------------------------------------------------------------------

  ghost predicate EntryAgrees(s: Stores, d: string, k: string) {
    MemGet(s, LongTermKey(d, k)) != "" ==> MemGet(s, LongTermKey(d, k)) == Direct(s, d, k)
  }

  /** A read through memcached is a direct read, for all keys of these subdomains. */
  ghost predicate Coherent(s: Stores, subs: set<string>) {
    forall d, k, short | d in subs :: ReadThrough(s, d, k, short) == Direct(s, d, k)
  }

  lemma CoherentEntries(s: Stores, subs: set<string>)
    ensures Coherent(s, subs) <==> forall d, k | d in subs :: EntryAgrees(s, d, k)
  {
    if Coherent(s, subs) {
      forall d, k | d in subs
        ensures EntryAgrees(s, d, k)
      {
        assert ReadThrough(s, d, k, true) == Direct(s, d, k);
      }
    }
    if forall d, k | d in subs :: EntryAgrees(s, d, k) {
      forall d, k, short | d in subs
        ensures ReadThrough(s, d, k, short) == Direct(s, d, k)
      {
        assert EntryAgrees(s, d, k);
      }
    }
  }

  /** No subdomain in use is another one with the mark appended. */
  ghost predicate NoClash(subs: set<string>) { forall d | d in subs :: d + MARK !in subs }

  ghost predicate AllColonFree(subs: set<string>) { forall d | d in subs :: ColonFree(d) }

  /** Sessions of these subdomains only. */
  ghost predicate Over(subs: set<string>, ops: seq<Op>) {
    forall i | 0 <= i < |ops| && !ops[i].Evict? :: ops[i].subdomain in subs
  }

  /** memcached holds no value for any long-term key of the subdomain. */
  ghost predicate Absent(s: Stores, d: string) { forall k :: MemGet(s, LongTermKey(d, k)) == "" }

  /** Every emptying finds the values of its subdomain gone from memcached. */
  ghost predicate EmptiesAbsent(ops: seq<Op>) {
    forall i | 0 <= i < |ops| && ops[i].LongEmpty? :: Absent(Run(ops, i), ops[i].subdomain)
  }

  /** A value that a get writes back is nothing, or still what MySQL holds. */
  ghost predicate IsCurrent(s: Stores, d: string, k: string, value: string) { value == "" || value == Direct(s, d, k) }

  ghost predicate WritesCurrent(ops: seq<Op>) {
    forall i | 0 <= i < |ops| && ops[i].WriteBack? :: IsCurrent(Run(ops, i), ops[i].subdomain, ops[i].key, ops[i].value)
  }

  /** No emptying comes too early, and no write-back too late. */
  ghost predicate InTime(ops: seq<Op>) { EmptiesAbsent(ops) && WritesCurrent(ops) }

  lemma ApplyKeepsEntry(s: Stores, op: Op, d: string, k: string)
    requires ColonFree(d) && (!op.Evict? ==> ColonFree(op.subdomain) && op.subdomain != d + MARK)
    requires op.LongEmpty? ==> op.subdomain != d || MemGet(s, LongTermKey(d, k)) == ""
    requires op.WriteBack? ==> IsCurrent(s, op.subdomain, op.key, op.value)
    requires EntryAgrees(s, d, k)
    ensures EntryAgrees(Apply(s, op), d, k)
  {
    match op
    case LongGet(d', k', _) => LongTermKeyInjective(d, k, d', k');
    case WriteBack(d', k', _) => LongTermKeyInjective(d, k, d', k');
    case LongSet(d', k', _) => LongTermKeyInjective(d, k, d', k');
    case LongDelete(d', k') => LongTermKeyInjective(d, k, d', k');
    case LongEmpty(_) =>
    case ShortSet(d', k', _) => KeysAliasExactly(d, k, d', k');
    case ShortDelete(d', k') => KeysAliasExactly(d, k, d', k');
    case Evict(_) =>
  }

  /** Emptying keeps coherent stores coherent exactly when memcached holds nothing that it would
      have had to drop. */
  lemma EmptyingExactly(s: Stores, subs: set<string>, d: string)
    requires Coherent(s, subs) && d in subs
    ensures Coherent(Apply(s, LongEmpty(d)), subs) <==> Absent(s, d)
  {
    var t := Apply(s, LongEmpty(d));
    CoherentEntries(s, subs);
    CoherentEntries(t, subs);
    if Coherent(t, subs) {
      forall k
        ensures MemGet(s, LongTermKey(d, k)) == ""
      {
        assert EntryAgrees(t, d, k);
      }
    }
    if Absent(s, d) {
      forall d', k | d' in subs
        ensures EntryAgrees(t, d', k)
      {
        assert EntryAgrees(s, d', k);
      }
    }
  }

  /** A late write-back keeps coherent stores coherent exactly when its value is nothing, or still what
      MySQL holds. */
  lemma WriteBackExactly(s: Stores, subs: set<string>, d: string, k: string, value: string)
    requires AllColonFree(subs) && Coherent(s, subs) && d in subs
    ensures Coherent(Apply(s, WriteBack(d, k, value)), subs) <==> IsCurrent(s, d, k, value)
  {
    var t := Apply(s, WriteBack(d, k, value));
    CoherentEntries(s, subs);
    CoherentEntries(t, subs);
    if Coherent(t, subs) { assert EntryAgrees(t, d, k); }
    forall d', k' | d' in subs && IsCurrent(s, d, k, value)
      ensures EntryAgrees(t, d', k')
    {
      assert EntryAgrees(s, d', k');
      LongTermKeyInjective(d, k, d', k');
    }
  }

  lemma {:induction false} RunCoherent(subs: set<string>, ops: seq<Op>, n: nat)
    requires AllColonFree(subs) && NoClash(subs) && Over(subs, ops) && InTime(ops) && n <= |ops|
    ensures Coherent(Run(ops, n), subs)
  {
    CoherentEntries(Run(ops, n), subs);
    if n > 0 {
      RunCoherent(subs, ops, n - 1);
      CoherentEntries(Run(ops, n - 1), subs);
      forall d, k | d in subs
        ensures EntryAgrees(Run(ops, n), d, k)
      {
        assert d + MARK !in subs;
        ApplyKeepsEntry(Run(ops, n - 1), ops[n - 1], d, k);
      }
    }
  }

  ghost predicate CoherentThroughout(subs: set<string>, ops: seq<Op>) {
    forall n | 0 <= n <= |ops| :: Coherent(Run(ops, n), subs)
  }

  /** A run with arbitrary evictions, emptyings and overtaken gets is coherent all the time exactly when
      every emptying finds the values of its subdomain gone from memcached, and every value written
      back is nothing or still what MySQL holds. */
  lemma CoherentRunsExactly(subs: set<string>, ops: seq<Op>)
    requires AllColonFree(subs) && NoClash(subs) && Over(subs, ops)
    ensures CoherentThroughout(subs, ops) <==> InTime(ops)
  {
    if InTime(ops) {
      forall n | 0 <= n <= |ops|
        ensures Coherent(Run(ops, n), subs)
      {
        RunCoherent(subs, ops, n);
      }
    }
    if CoherentThroughout(subs, ops) {
      forall i | 0 <= i < |ops| && ops[i].LongEmpty?
        ensures Absent(Run(ops, i), ops[i].subdomain)
      {
        assert Coherent(Run(ops, i), subs) && Coherent(Run(ops, i + 1), subs);
        EmptyingExactly(Run(ops, i), subs, ops[i].subdomain);
      }
      forall i | 0 <= i < |ops| && ops[i].WriteBack?
        ensures IsCurrent(Run(ops, i), ops[i].subdomain, ops[i].key, ops[i].value)
      {
        assert Coherent(Run(ops, i), subs) && Coherent(Run(ops, i + 1), subs);
        WriteBackExactly(Run(ops, i), subs, ops[i].subdomain, ops[i].key, ops[i].value);
      }
    }
  }

  /** After every run over these subdomains with emptyings and write-backs in time, a read through
      memcached is a direct read. */
  ghost predicate AlwaysCoherent(subs: set<string>) {
    forall ops | Over(subs, ops) && InTime(ops) :: Coherent(Run(ops, |ops|), subs)
  }

  /** Reads through memcached agree with MySQL over all those runs exactly when no subdomain in use
      is another one with the mark appended. */
  lemma CoherentExactly(subs: set<string>)
    requires AllColonFree(subs)
    ensures AlwaysCoherent(subs) <==> NoClash(subs)
  {
    if NoClash(subs) {
      forall ops | Over(subs, ops) && InTime(ops)
        ensures Coherent(Run(ops, |ops|), subs)
      {
        RunCoherent(subs, ops, |ops|);
      }
    } else {
      var d :| d in subs && d + MARK in subs;
      var ops := ClashBreaks(d, "key", "stale");
      assert Over(subs, ops) && InTime(ops);
      assert ReadThrough(Run(ops, 1), d, "key", true) != Direct(Run(ops, 1), d, "key");
    }
  }

  /** A short-term entry of the marked subdomain is read as a long-term value of the other. */
  lemma ClashBreaks(d: string, k: string, v: string) returns (ops: seq<Op>)
    requires ColonFree(d) && ColonFree(d + MARK) && v != ""
    ensures ops == [ShortSet(d + MARK, k, v)]
    ensures ReadThrough(Run(ops, 1), d, k, true) == v && Direct(Run(ops, 1), d, k) == ""
  {
    ops := [ShortSet(d + MARK, k, v)];
    KeysAliasExactly(d, k, d + MARK, k);
    assert Run(ops, 1) == Apply(Run(ops, 0), ops[0]);
  }

  /** The run that shows it: what was set before an emptying is still read after it. */
  lemma EmptyingBreaks(d: string, k: string, v: string) returns (ops: seq<Op>)
    requires v != ""
    ensures ops == [LongSet(d, k, v), LongEmpty(d)]
    ensures ReadThrough(Run(ops, 2), d, k, true) == v && Direct(Run(ops, 2), d, k) == ""
  {
    ops := [LongSet(d, k, v), LongEmpty(d)];
    assert Run(ops, 1) == Apply(Run(ops, 0), ops[0]);
    assert Run(ops, 2) == Apply(Run(ops, 1), ops[1]);
  }

  /** A get that reads the old value, and writes it back after a set: the old value stays. */
  lemma LateWriteBackBreaks(d: string, k: string, v: string, w: string) returns (ops: seq<Op>)
    requires v != "" && v != w
    ensures ops == [LongSet(d, k, v), LongSet(d, k, w), WriteBack(d, k, v)]
    ensures ReadThrough(Run(ops, 1), d, k, false) == v
    ensures ReadThrough(Run(ops, 3), d, k, true) == v && Direct(Run(ops, 3), d, k) == w
  {
    ops := [LongSet(d, k, v), LongSet(d, k, w), WriteBack(d, k, v)];
    assert Run(ops, 1) == Apply(Run(ops, 0), ops[0]);
    assert Run(ops, 2) == Apply(Run(ops, 1), ops[1]);
    assert Run(ops, 3) == Apply(Run(ops, 2), ops[2]);
  }

  /** What the last of the first n operations that set, deleted or emptied the row left. */
  function LastLong(ops: seq<Op>, n: nat, d: string, k: string): string
    requires n <= |ops|
  {
    if n == 0 then ""
    else match ops[n - 1]
      case LongGet(_, _, _) => LastLong(ops, n - 1, d, k)
      case WriteBack(_, _, _) => LastLong(ops, n - 1, d, k)
      case LongSet(d', k', v) => if d' == d && k' == k then v else LastLong(ops, n - 1, d, k)
      case LongDelete(d', k') => if d' == d && k' == k then "" else LastLong(ops, n - 1, d, k)
      case LongEmpty(d') => if d' == d then "" else LastLong(ops, n - 1, d, k)
      case ShortSet(_, _, _) => LastLong(ops, n - 1, d, k)
      case ShortDelete(_, _) => LastLong(ops, n - 1, d, k)
      case Evict(_) => LastLong(ops, n - 1, d, k)
  }

  /** After every run, MySQL answers what was last set and neither deleted nor emptied. */
  lemma {:induction false} DirectIsLast(ops: seq<Op>, n: nat, d: string, k: string)
    requires n <= |ops|
    ensures Direct(Run(ops, n), d, k) == LastLong(ops, n, d, k)
  {
    if n > 0 { DirectIsLast(ops, n - 1, d, k); }
  }

  // ---------------------------------------------------------------------------------------
  // Short-term entries
  // ---------------------------------------------------------------------------------------

  /** What the last of the first n operations that set or deleted the short-term entry left. */
  function LastShort(ops: seq<Op>, n: nat, d: string, k: string): string
    requires n <= |ops|
  {
    if n == 0 then ""
    else match ops[n - 1]
      case LongGet(_, _, _) => LastShort(ops, n - 1, d, k)
      case WriteBack(_, _, _) => LastShort(ops, n - 1, d, k)
      case LongSet(_, _, _) => LastShort(ops, n - 1, d, k)
      case LongDelete(_, _) => LastShort(ops, n - 1, d, k)
      case LongEmpty(_) => LastShort(ops, n - 1, d, k)
      case ShortSet(d', k', v) => if d' == d && k' == k then v else LastShort(ops, n - 1, d, k)
      case ShortDelete(d', k') => if d' == d && k' == k then "" else LastShort(ops, n - 1, d, k)
      case Evict(_) => LastShort(ops, n - 1, d, k)
  }

  /** A short-term read answers what was last set, or nothing when that was evicted. */
  ghost predicate Remembers(ops: seq<Op>, n: nat, d: string, k: string)
    requires n <= |ops|
  {
    var value := MemGet(Run(ops, n), ShortTermKey(d, k));
    value == "" || value == LastShort(ops, n, d, k)
  }

  lemma ShortTermKeyInjective(s: string, k: string, s': string, k': string)
    requires ColonFree(s) && ColonFree(s')
    ensures ShortTermKey(s, k) == ShortTermKey(s', k') <==> s == s' && k == k'
  {
    SameAfterProxy(s + ":" + k, s' + ":" + k');
    SameBeforeColon(s, k, s', k');
  }

  lemma {:induction false} RunRemembers(subs: set<string>, ops: seq<Op>, n: nat, d: string, k: string)
    requires AllColonFree(subs) && NoClash(subs) && Over(subs, ops) && n <= |ops| && d in subs
    ensures Remembers(ops, n, d, k)
  {
    if n > 0 {
      RunRemembers(subs, ops, n - 1, d, k);
      var s, op := Run(ops, n - 1), ops[n - 1];
      assert !op.Evict? ==> op.subdomain in subs && op.subdomain + MARK !in subs;
      if op.ShortSet? || op.ShortDelete? {
        ShortTermKeyInjective(d, k, op.subdomain, op.key);
      } else if !op.Evict? {
        assert MemGet(Apply(s, op), ShortTermKey(d, k)) == MemGet(s, ShortTermKey(d, k)) by {
          if !op.LongEmpty? { KeysAliasExactly(op.subdomain, op.key, d, k); }
        }
      }
    }
  }

  /** Without evictions, a short-term read answers exactly what was last set and not deleted. */
  lemma {:induction false} RunRecalls(subs: set<string>, ops: seq<Op>, n: nat, d: string, k: string)
    requires AllColonFree(subs) && NoClash(subs) && Over(subs, ops) && n <= |ops| && d in subs
    requires forall i | 0 <= i < |ops| :: !ops[i].Evict?
    ensures MemGet(Run(ops, n), ShortTermKey(d, k)) == LastShort(ops, n, d, k)
  {
    if n > 0 {
      RunRecalls(subs, ops, n - 1, d, k);
      var s, op := Run(ops, n - 1), ops[n - 1];
      assert op.subdomain in subs && op.subdomain + MARK !in subs;
      if op.ShortSet? || op.ShortDelete? {
        ShortTermKeyInjective(d, k, op.subdomain, op.key);
      } else if !op.LongEmpty? {
        KeysAliasExactly(op.subdomain, op.key, d, k);
      }
    }
  }

  ghost predicate AlwaysRemembers(subs: set<string>) {
    forall ops, d, k | Over(subs, ops) && d in subs :: Remembers(ops, |ops|, d, k)
  }

  /** Over all runs with arbitrary evictions and emptyings, short-term reads answer what was last set
      or nothing, exactly when no subdomain in use is another one with the mark appended. */
  lemma RememberedExactly(subs: set<string>)
    requires AllColonFree(subs)
    ensures AlwaysRemembers(subs) <==> NoClash(subs)
  {
    if NoClash(subs) {
      forall ops, d, k | Over(subs, ops) && d in subs
        ensures Remembers(ops, |ops|, d, k)
      {
        RunRemembers(subs, ops, |ops|, d, k);
      }
    } else {
      var d :| d in subs && d + MARK in subs;
      var ops := [LongSet(d, "key", "foreign")];
      KeysAliasExactly(d, "key", d + MARK, "key");
      assert Run(ops, 1) == Apply(Run(ops, 0), ops[0]);
      assert LastShort(ops, 1, d + MARK, "key") == LastShort(ops, 0, d + MARK, "key");
      assert Over(subs, ops) && !Remembers(ops, |ops|, d + MARK, "key");
    }
  }

  // ---------------------------------------------------------------------------------------
  // The handlers
  // ---------------------------------------------------------------------------------------

  class CacheServer {
    var mem: map<string, string>
    var sql: map<(string, string), string>
    /** The operations so far. */
    ghost var ops: seq<Op>

    constructor ()
      ensures Valid() && ops == []
    {
      mem, sql, ops := map[], map[], [];
    }

    ghost predicate Valid()
      reads this
    {
      Stores(mem, sql) == Run(ops, |ops|)
    }

    /** The operation is the last one, and the stores are what it makes of them. */
    twostate predicate Did(op: Op)
      reads this
    {
      Valid() && ops == old(ops) + [op]
    }

    ghost method Log(op: Op)
      requires Stores(mem, sql) == Apply(Run(ops, |ops|), op)
      modifies this`ops
      ensures Did(op)
    {
      RunPrefix(ops, op, |ops|);
      ops := ops + [op];
    }

    /** Whatever the subdomains in use are, the answer is what was last set and neither deleted nor
        emptied, unless they clash or an emptying or a write-back did not come in time. */
    method LongTermCacheGet(subdomain: string, key: string, useShortTermCache: bool) returns (value: string)
      requires Valid()
      modifies this
      ensures Did(LongGet(subdomain, key, useShortTermCache)) && sql == old(sql)
      ensures value == ReadThrough(old(Stores(mem, sql)), subdomain, key, useShortTermCache)
      ensures forall subs | AllColonFree(subs) && NoClash(subs) && Over(subs, old(ops)) && subdomain in subs ::
                InTime(old(ops)) ==> value == LastLong(old(ops), |old(ops)|, subdomain, key)
      ensures !useShortTermCache ==> value == LastLong(old(ops), |old(ops)|, subdomain, key)
      ensures var cached := MemGet(old(Stores(mem, sql)), LongTermKey(subdomain, key));
              if useShortTermCache && cached != "" then value == cached && mem == old(mem)
              else mem == old(mem)[LongTermKey(subdomain, key) := value]
    {
      DirectIsLast(ops, |ops|, subdomain, key);
      CoherentReads(subdomain, key, useShortTermCache);
      var memKey := LongTermKey(subdomain, key);
      if useShortTermCache {
        var answer := if memKey in mem then mem[memKey] else "";
        if |answer| > 0 {
          Log(LongGet(subdomain, key, useShortTermCache));
          return answer;
        }
      }
      value := if (subdomain, key) in sql then sql[(subdomain, key)] else "";
      mem := mem[memKey := value];
      Log(LongGet(subdomain, key, useShortTermCache));
    }

    /** The end of a get that other requests overtook. */
    method LongTermWriteBack(subdomain: string, key: string, value: string)
      requires Valid()
      modifies this
      ensures Did(WriteBack(subdomain, key, value)) && sql == old(sql)
      ensures mem == old(mem)[LongTermKey(subdomain, key) := value]
    {
      mem := mem[LongTermKey(subdomain, key) := value];
      Log(WriteBack(subdomain, key, value));
    }

    lemma CoherentReads(d: string, k: string, short: bool)
      requires Valid()
      ensures forall subs | AllColonFree(subs) && NoClash(subs) && Over(subs, ops) && d in subs ::
                InTime(ops) ==> ReadThrough(Stores(mem, sql), d, k, short) == Direct(Stores(mem, sql), d, k)
    {
      forall subs | AllColonFree(subs) && NoClash(subs) && Over(subs, ops) && d in subs && InTime(ops)
        ensures ReadThrough(Stores(mem, sql), d, k, short) == Direct(Stores(mem, sql), d, k)
      {
        RunCoherent(subs, ops, |ops|);
      }
    }

    method LongTermCacheSet(subdomain: string, key: string, value: string)
      requires Valid()
      modifies this
      ensures Did(LongSet(subdomain, key, value))
      ensures sql == old(sql)[(subdomain, key) := value] && mem == old(mem)[LongTermKey(subdomain, key) := value]
    {
      sql := sql - {(subdomain, key)};
      sql := sql[(subdomain, key) := value];
      mem := mem[LongTermKey(subdomain, key) := value];
      Log(LongSet(subdomain, key, value));
    }

    method LongTermCacheDelete(subdomain: string, key: string)
      requires Valid()
      modifies this
      ensures Did(LongDelete(subdomain, key))
      ensures (subdomain, key) !in sql && forall row | row != (subdomain, key) ::
                (row in sql <==> row in old(sql)) && (row in sql ==> sql[row] == old(sql)[row])
      ensures LongTermKey(subdomain, key) !in mem && forall m | m != LongTermKey(subdomain, key) ::
                (m in mem <==> m in old(mem)) && (m in mem ==> mem[m] == old(mem)[m])
    {
      sql := sql - {(subdomain, key)};
      mem := mem - {LongTermKey(subdomain, key)};
      Log(LongDelete(subdomain, key));
    }

    method LongTermCacheEmpty(subdomain: string)
      requires Valid()
      modifies this
      ensures Did(LongEmpty(subdomain)) && mem == old(mem)
      ensures forall d, k :: (d, k) in sql <==> (d, k) in old(sql) && d != subdomain
      ensures forall row | row in sql :: sql[row] == old(sql)[row]
    {
      sql := map row | row in sql && row.0 != subdomain :: sql[row];
      Log(LongEmpty(subdomain));
    }

    /** Whatever the subdomains in use are, the answer is what was last set and not deleted for this
        key, or nothing, unless they clash. */
    method ShortTermCacheGet(subdomain: string, key: string) returns (value: string)
      requires Valid()
      ensures forall subs | AllColonFree(subs) && NoClash(subs) && Over(subs, ops) && subdomain in subs ::
                value == "" || value == LastShort(ops, |ops|, subdomain, key)
      ensures value == MemGet(Stores(mem, sql), ShortTermKey(subdomain, key))
      ensures forall subs | AllColonFree(subs) && NoClash(subs) && Over(subs, ops) && subdomain in subs ::
                (forall i | 0 <= i < |ops| :: !ops[i].Evict?) ==> value == LastShort(ops, |ops|, subdomain, key)
    {
      var memKey := ShortTermKey(subdomain, key);
      value := if memKey in mem then mem[memKey] else "";
      forall subs | AllColonFree(subs) && NoClash(subs) && Over(subs, ops) && subdomain in subs
        ensures value == "" || value == LastShort(ops, |ops|, subdomain, key)
      {
        RunRemembers(subs, ops, |ops|, subdomain, key);
      }
      forall subs | AllColonFree(subs) && NoClash(subs) && Over(subs, ops) && subdomain in subs && forall i | 0 <= i < |ops| :: !ops[i].Evict?
        ensures value == LastShort(ops, |ops|, subdomain, key)
      {
        RunRecalls(subs, ops, |ops|, subdomain, key);
      }
    }

    method ShortTermCacheSet(subdomain: string, key: string, value: string)
      requires Valid()
      modifies this
      ensures Did(ShortSet(subdomain, key, value))
      ensures sql == old(sql) && mem == old(mem)[ShortTermKey(subdomain, key) := value]
    {
      mem := mem[ShortTermKey(subdomain, key) := value];
      Log(ShortSet(subdomain, key, value));
    }

    method ShortTermCacheDelete(subdomain: string, key: string)
      requires Valid()
      modifies this
      ensures Did(ShortDelete(subdomain, key))
      ensures sql == old(sql) && mem == old(mem) - {ShortTermKey(subdomain, key)}
    {
      mem := mem - {ShortTermKey(subdomain, key)};
      Log(ShortDelete(subdomain, key));
    }

    /** memcached drops an entry. */
    method Evict(memKey: string)
      requires Valid()
      modifies this
      ensures Did(Op.Evict(memKey))
    {
      mem := mem - {memKey};
      Log(Op.Evict(memKey));
    }
  }

  // ---------------------------------------------------------------------------------------
  // Lock keys
  // ---------------------------------------------------------------------------------------

  /** The key that the sitewide lock handlers hand to the lock table. */
  function LockKey(subdomain: string, iden: string): string { subdomain + ":" + iden }

  /** Two sites never contend for the same row of the lock table. */
  lemma LockKeyInjective(s: string, k: string, s': string, k': string)
    requires ColonFree(s) && ColonFree(s')
    ensures LockKey(s, k) == LockKey(s', k') <==> s == s' && k == k'
  {
    SameBeforeColon(s, k, s', k');
  }
}
