/** The query cache of a site (site.cpp, `fetch_query`): an LRU cache that is fetched without
    touching, shared by threads that fetch, evaluate and insert in separate critical sections. */
module QueryCaches {
  import opened Wrappers
  import opened LruSpec
  import opened LruCaches

  const QUERY_CACHE_SIZE: nat := 384

  /** Every cached query counts for one. */
  function Unit<V>(): V -> nat { (v: V) => 1 }

  lemma {:induction false} UnitTotal<K, V>(l: seq<Item<K, V>>)
    ensures TotalSize(l, Unit<V>()) == |l|
  {
    if l != [] { UnitTotal(l[..|l| - 1]); }
  }

  lemma {:induction false} UnitFit<K, V>(l: seq<Item<K, V>>, max: nat)
    ensures Fit(l, Unit<V>(), max) == if |l| <= max then l else l[..max]
  {
    UnitTotal(l);
    if |l| > max {
      UnitFit(l[..|l| - 1], max);
    }
  }

  // ---------------------------------------------------------------------------------------
  // Sequential use
  // ---------------------------------------------------------------------------------------

  /** What one `fetch_query` leaves in the cache; `eval` is the query constructor, which can throw. */
  function AfterFetch<K(==), Q, E>(cache: seq<Item<K, Q>>, key: K, eval: K -> Result<Q, E>, max: nat): seq<Item<K, Q>> {
    if Find(cache, key).Some? then cache
    else match eval(key)
      case Ok(q) => Apply(cache, Op.Insert(key, q), Unit<Q>(), max)
      case Err(_) => cache
  }

  class QuerySite<K(==), Q, E> {
    const queryCache: LruCache<K, Q>
    const eval: K -> Result<Q, E>

    ghost predicate Valid()
      reads this, queryCache
    {
      && queryCache.Valid() && queryCache.size == Unit<Q>() && queryCache.maxSize == QUERY_CACHE_SIZE
      && Sound(queryCache.Contents(), eval)
    }

    constructor (eval: K -> Result<Q, E>)
      ensures Valid() && queryCache.Contents() == [] && this.eval == eval && fresh(queryCache)
    {
      this.eval := eval;
      queryCache := new LruCache(QUERY_CACHE_SIZE, Unit<Q>());
    }

    /** Memoised evaluation is evaluation. */
    method FetchQuery(key: K) returns (r: Result<Q, E>)
      requires Valid()
      modifies queryCache
      ensures Valid() && r == eval(key)
      ensures queryCache.Contents() == AfterFetch(old(queryCache.Contents()), key, eval, 384)
      ensures Find(old(queryCache.Contents()), key).Some? || r.Err? ==> queryCache.Contents() == old(queryCache.Contents())
      ensures Find(old(queryCache.Contents()), key).None? && r.Ok? ==>
                queryCache.Contents() != [] && queryCache.Contents()[0] == Item(key, r.value)
    {
      var cached := queryCache.Fetch(key, false);
      FindMeaning(queryCache.Contents(), key);
      match cached {
        case Some(q) =>
          return Ok(q);
        case None =>
          r := eval(key);
          if r.Ok? {
            InsertKeepsSound(queryCache.Contents(), key, r.value, eval, QUERY_CACHE_SIZE);
            queryCache.Insert(key, r.value);
          }
      }
    }
  }

  /** Every cached answer is what evaluation gives. */
  ghost predicate Sound<K, Q, E>(cache: seq<Item<K, Q>>, eval: K -> Result<Q, E>) {
    forall i | 0 <= i < |cache| :: eval(cache[i].key) == Ok(cache[i].data)
  }

  lemma SoundFront<K, Q, E>(cache: seq<Item<K, Q>>, key: K, q: Q, eval: K -> Result<Q, E>)
    requires Sound(cache, eval) && eval(key) == Ok(q)
    ensures Sound([Item(key, q)] + cache, eval)
  {
  }

  lemma InsertKeepsSound<K, Q, E>(cache: seq<Item<K, Q>>, key: K, q: Q, eval: K -> Result<Q, E>, max: nat)
    requires Sound(cache, eval) && eval(key) == Ok(q)
    ensures Sound(Apply(cache, Op.Insert(key, q), Unit<Q>(), max), eval)
    ensures |Apply(cache, Op.Insert(key, q), Unit<Q>(), max)| <= max
  {
    var at := WithoutEmbeds(cache, key);
    SoundFront(Without(cache, key), key, q, eval);
    UnitFit([Item(key, q)] + Without(cache, key), max);
  }

  /** The cache after a sequence of requests. */
  function AfterRequests<K(==), Q, E>(reqs: seq<K>, eval: K -> Result<Q, E>, max: nat): seq<Item<K, Q>> {
    if reqs == [] then []
    else AfterFetch(AfterRequests(reqs[..|reqs| - 1], eval, max), reqs[|reqs| - 1], eval, max)
  }

  /** The requests, in order, that missed and were evaluated. */
  function Misses<K(==), Q, E>(reqs: seq<K>, eval: K -> Result<Q, E>, max: nat): seq<K> {
    if reqs == [] then []
    else
      var key := reqs[|reqs| - 1];
      Misses(reqs[..|reqs| - 1], eval, max) +
      if Find(AfterRequests(reqs[..|reqs| - 1], eval, max), key).None? && eval(key).Ok? then [key] else []
  }

  /** The cache holds the last misses, newest first. */
  ghost predicate HoldsLast<K, Q>(cache: seq<Item<K, Q>>, misses: seq<K>, max: nat) {
    && |cache| == (if |misses| <= max then |misses| else max)
    && forall i | 0 <= i < |cache| :: cache[i].key == misses[|misses| - 1 - i]
  }

  lemma {:induction false} WithoutAbsent<K, V>(l: seq<Item<K, V>>, k: K)
    requires Find(l, k).None?
    ensures Without(l, k) == l
  {
    if l != [] { WithoutAbsent(l[1..], k); }
  }

  lemma HoldsLastPush<K, Q>(cache: seq<Item<K, Q>>, misses: seq<K>, key: K, q: Q, max: nat)
    requires HoldsLast(cache, misses, max)
    ensures var full := [Item(key, q)] + cache;
            HoldsLast(if |full| <= max then full else full[..max], misses + [key], max)
  {
  }

  /** Since a hit does not touch, the cache is first in, first out: after any sequence of requests
      it holds exactly the last min(max, n) of its n misses, however often older ones were hit. */
  lemma {:induction false} HoldsLastMisses<K, Q, E>(reqs: seq<K>, eval: K -> Result<Q, E>, max: nat)
    ensures HoldsLast(AfterRequests(reqs, eval, max), Misses(reqs, eval, max), max)
  {
    if reqs != [] {
      var before, key := reqs[..|reqs| - 1], reqs[|reqs| - 1];
      var cache := AfterRequests(before, eval, max);
      HoldsLastMisses(before, eval, max);
      if Find(cache, key).None? && eval(key).Ok? {
        WithoutAbsent(cache, key);
        UnitFit([Item(key, eval(key).value)] + cache, max);
        HoldsLastPush(cache, Misses(before, eval, max), key, eval(key).value, max);
      }
    }
  }

  // ---------------------------------------------------------------------------------------
  // Interleaved threads
  // ---------------------------------------------------------------------------------------

  datatype Thread<K, Q, E> =
    | Idle
    | Missed(key: K)
    | Evaluated(key: K, query: Q)
    | Returned(key: K, result: Result<Q, E>)

  datatype State<K, Q, E> = State(cache: seq<Item<K, Q>>, threads: map<nat, Thread<K, Q, E>>)

  datatype Step<K> = Begin(key: K) | Evaluate | Store

  /** One critical section of thread `t`. */
  ghost predicate Next<K, Q, E>(s: State<K, Q, E>, t: nat, step: Step<K>, eval: K -> Result<Q, E>, s': State<K, Q, E>) {
    && t in s.threads
    && match step
       case Begin(key) =>
         && (s.threads[t].Idle? || s.threads[t].Returned?)
         && s' == s.(threads := s.threads[t :=
              match Find(s.cache, key) case Some(q) => Returned(key, Ok(q)) case None => Missed(key)])
       case Evaluate =>
         && s.threads[t].Missed?
         && var key := s.threads[t].key;
            s' == s.(threads := s.threads[t :=
              match eval(key) case Ok(q) => Evaluated(key, q) case Err(e) => Returned(key, Err(e))])
       case Store =>
         && s.threads[t].Evaluated?
         && var key, q := s.threads[t].key, s.threads[t].query;
            s' == State(Apply(s.cache, Op.Insert(key, q), Unit<Q>(), QUERY_CACHE_SIZE), s.threads[t := Returned(key, Ok(q))])
  }

  ghost predicate Init<K, Q, E>(s: State<K, Q, E>) {
    s.cache == [] && forall t | t in s.threads :: s.threads[t].Idle?
  }

  ghost predicate Inv<K, Q, E>(s: State<K, Q, E>, eval: K -> Result<Q, E>) {
    && Sound(s.cache, eval) && |s.cache| <= QUERY_CACHE_SIZE && Distinct(s.cache)
    && (forall t | t in s.threads && s.threads[t].Evaluated? :: eval(s.threads[t].key) == Ok(s.threads[t].query))
    && (forall t | t in s.threads && s.threads[t].Returned? :: s.threads[t].result == eval(s.threads[t].key))
  }

  lemma InvStep<K, Q, E>(s: State<K, Q, E>, t: nat, step: Step<K>, eval: K -> Result<Q, E>, s': State<K, Q, E>)
    requires Inv(s, eval) && Next(s, t, step, eval, s')
    ensures Inv(s', eval)
  {
    match step
    case Begin(key) =>
      FindMeaning(s.cache, key);
    case Evaluate =>
    case Store =>
      var key, q := s.threads[t].key, s.threads[t].query;
      InsertKeepsSound(s.cache, key, q, eval, QUERY_CACHE_SIZE);
      WithoutDistinct(s.cache, key);
      UnitFit([Item(key, q)] + Without(s.cache, key), QUERY_CACHE_SIZE);
  }

  ghost predicate IsRun<K, Q, E>(states: seq<State<K, Q, E>>, who: seq<nat>, steps: seq<Step<K>>, eval: K -> Result<Q, E>) {
    && |states| > 0 && Init(states[0]) && |who| == |steps| == |states| - 1
    && forall i | 0 <= i < |steps| :: Next(states[i], who[i], steps[i], eval, states[i + 1])
  }

  /** In every interleaving, every call returns what evaluating its key gives, and the cache stays
      within its bound without duplicate keys. */
  lemma {:induction false} InterleavedFetchesAreFresh<K, Q, E>(
      states: seq<State<K, Q, E>>, who: seq<nat>, steps: seq<Step<K>>, eval: K -> Result<Q, E>, n: nat)
    requires IsRun(states, who, steps, eval) && n < |states|
    ensures Inv(states[n], eval)
    ensures |states[n].cache| <= 384
    ensures forall t | t in states[n].threads && states[n].threads[t].Returned? :: states[n].threads[t].result == eval(states[n].threads[t].key)
  {
    if n > 0 {
      InterleavedFetchesAreFresh(states, who, steps, eval, n - 1);
      InvStep(states[n - 1], who[n - 1], steps[n - 1], eval, states[n]);
    }
  }
}
