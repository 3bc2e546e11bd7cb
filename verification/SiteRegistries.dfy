/** The map of loaded sites (server.cpp): `getSite` takes a mutex per site, checks the map, loads and
    installs; `reloadSite` empties the map without taking the mutex of the site.  The map itself and
    the map of site mutexes are guarded by `sitesMutex`, here the registry mutex. */
module SiteRegistries {
  import opened Wrappers

  type Thread = nat
  type Site = nat
  type Key = string

  function SitesKey(subdomain: string, staging: bool): Key {
    if staging then subdomain + ".staging" else subdomain
  }

  /** The entries that a reload erases. */
  predicate Reloads(subdomain: string, k: Key) {
    subdomain == "all" || k == SitesKey(subdomain, false) || k == SitesKey(subdomain, true)
  }

  /** Where a thread is.  Of getSite: it wants or holds the registry mutex to get the site mutex, it
      wants the site mutex, it wants or holds the registry mutex to look the site up, it reads the
      data of the site, it wants or holds the registry mutex to install what it made of them, it
      checks the secret key.  `read` is how many accesses had been made when the data was read. */
  datatype Place =
    | Idle
    | WantMutex(key: Key) | InMutex(key: Key)
    | WantSite(key: Key)
    | WantLookup(key: Key) | InLookup(key: Key)
    | Loading(key: Key)
    | WantInstall(key: Key, site: Site, read: nat) | InInstall(key: Key, site: Site, read: nat)
    | Checking(key: Key, site: Site)
    | WantReload(subdomain: string) | InReload(subdomain: string)

  predicate WantsRegistry(p: Place) { p.WantMutex? || p.WantLookup? || p.WantInstall? || p.WantReload? }

  predicate InRegistry(p: Place) { p.InMutex? || p.InLookup? || p.InInstall? || p.InReload? }

  /** The thread holds the site mutex of the key. */
  predicate HoldsSite(p: Place, k: Key) {
    (p.WantLookup? || p.InLookup? || p.Loading? || p.WantInstall? || p.InInstall? || p.Checking?) && p.key == k
  }

  /** The thread has missed and not installed yet. */
  predicate Loads(p: Place, k: Key) { (p.Loading? || p.WantInstall? || p.InInstall?) && p.key == k }

  /** Accesses to the map, in the order in which they happen. */
  datatype Event = Hit(key: Key, site: Site) | Installed(key: Key, site: Site, read: nat) | Reloaded(subdomain: string)

  datatype State = State(
    registry: Option<Thread>, siteMutexes: map<Key, Option<Thread>>, sites: map<Key, Site>, nextSite: Site,
    threads: map<Thread, Place>, log: seq<Event>)
  {
    function Move(t: Thread, p: Place): State { this.(threads := threads[t := p]) }
    function FreeSite(k: Key): State { this.(siteMutexes := siteMutexes[k := None]) }
  }

  datatype Step = GetSite(subdomain: string, staging: bool) | Reload(subdomain: string) | Advance(ok: bool)

  /** What thread t does next; `ok` says whether loading, or checking the secret key, succeeds. */
  ghost predicate Next(s: State, t: Thread, step: Step, s': State) {
    && t in s.threads
    && match step
       case GetSite(d, staging) => s.threads[t] == Idle && s' == s.Move(t, WantMutex(SitesKey(d, staging)))
       case Reload(d) => s.threads[t] == Idle && s' == s.Move(t, WantReload(d))
       case Advance(ok) => CanAdvance(s, t) && s' == Advanced(s, t, ok)
  }

  /** A thread waits for the mutex it wants. */
  predicate CanAdvance(s: State, t: Thread)
    requires t in s.threads
  {
    var p := s.threads[t];
    && p != Idle
    && (WantsRegistry(p) ==> s.registry == None)
    && (p.WantSite? ==> p.key in s.siteMutexes && s.siteMutexes[p.key] == None)
  }

  function Advanced(s: State, t: Thread, ok: bool): State
    requires t in s.threads
  {
    match s.threads[t]
    case Idle => s
    case WantMutex(k) => s.(registry := Some(t)).Move(t, InMutex(k))
    case InMutex(k) =>
      s.(registry := None, siteMutexes := if k in s.siteMutexes then s.siteMutexes else s.siteMutexes[k := None]).Move(t, WantSite(k))
    case WantSite(k) => s.(siteMutexes := s.siteMutexes[k := Some(t)]).Move(t, WantLookup(k))
    case WantLookup(k) => s.(registry := Some(t)).Move(t, InLookup(k))
    case InLookup(k) =>
      if k in s.sites then s.(registry := None, log := s.log + [Hit(k, s.sites[k])]).FreeSite(k).Move(t, Idle)
      else s.(registry := None).Move(t, Loading(k))
    case Loading(k) =>
      if ok then s.(nextSite := s.nextSite + 1).Move(t, WantInstall(k, s.nextSite, |s.log|)) else s.FreeSite(k).Move(t, Idle)
    case WantInstall(k, x, r) => s.(registry := Some(t)).Move(t, InInstall(k, x, r))
    case InInstall(k, x, r) =>
      s.(registry := None, sites := s.sites[k := x], log := s.log + [Installed(k, x, r)]).Move(t, Checking(k, x))
    case Checking(k, _) => s.FreeSite(k).Move(t, Idle)
    case WantReload(d) => s.(registry := Some(t)).Move(t, InReload(d))
    case InReload(d) =>
      s.(registry := None, sites := map k | k in s.sites && !Reloads(d, k) :: s.sites[k], log := s.log + [Reloaded(d)]).Move(t, Idle)
  }

  ghost predicate Init(s: State) {
    && s.registry == None && s.siteMutexes == map[] && s.sites == map[] && s.log == []
    && forall t | t in s.threads :: s.threads[t] == Idle
  }

  // ---------------------------------------------------------------------------------------
  // The invariant
  // ---------------------------------------------------------------------------------------

  /** What the map holds for a key after the first n accesses. */
  function Current(log: seq<Event>, n: nat, k: Key): Option<Site>
    requires n <= |log|
  {
    if n == 0 then None
    else match log[n - 1]
      case Hit(_, _) => Current(log, n - 1, k)
      case Installed(k', x, _) => if k' == k then Some(x) else Current(log, n - 1, k)
      case Reloaded(d) => if Reloads(d, k) then None else Current(log, n - 1, k)
  }

  /** A hit sees what is there, and an install only ever fills a gap, with data read before. */
  ghost predicate LogOk(log: seq<Event>) {
    forall n | 0 <= n < |log| :: EventOk(log, n)
  }

  ghost predicate EventOk(log: seq<Event>, n: nat)
    requires n < |log|
  {
    match log[n]
    case Hit(k, x) => Current(log, n, k) == Some(x)
    case Installed(k, _, r) => Current(log, n, k) == None && r <= n
    case Reloaded(_) => true
  }

  ghost predicate RegistryOwned(s: State) {
    forall t | t in s.threads :: InRegistry(s.threads[t]) <==> s.registry == Some(t)
  }

  ghost predicate SitesOwned(s: State) {
    forall t, k | t in s.threads :: HoldsSite(s.threads[t], k) <==> k in s.siteMutexes && s.siteMutexes[k] == Some(t)
  }

  ghost predicate MutexKnown(s: State) {
    forall t | t in s.threads && s.threads[t].WantSite? :: s.threads[t].key in s.siteMutexes
  }

  /** A key that is being loaded is not in the map. */
  ghost predicate LoadedAreAbsent(s: State) {
    forall t, k | t in s.threads && Loads(s.threads[t], k) :: k !in s.sites
  }

  ghost predicate ReadsPast(s: State) {
    forall t | t in s.threads && (s.threads[t].WantInstall? || s.threads[t].InInstall?) :: s.threads[t].read <= |s.log|
  }

  ghost predicate MapLogged(s: State) {
    forall k :: Current(s.log, |s.log|, k) == if k in s.sites then Some(s.sites[k]) else None
  }

  ghost predicate Inv(s: State) {
    RegistryOwned(s) && SitesOwned(s) && MutexKnown(s) && LoadedAreAbsent(s) && ReadsPast(s) && MapLogged(s) && LogOk(s.log)
  }

  ghost predicate IsRun(states: seq<State>, who: seq<Thread>, steps: seq<Step>) {
    && |states| > 0 && Init(states[0]) && |who| == |steps| == |states| - 1
    && forall i | 0 <= i < |steps| :: Next(states[i], who[i], steps[i], states[i + 1])
  }

  lemma {:induction false} RunInv(states: seq<State>, who: seq<Thread>, steps: seq<Step>, n: nat)
    requires IsRun(states, who, steps) && n < |states|
    ensures Inv(states[n])
  {
    if n > 0 {
      RunInv(states, who, steps, n - 1);
      RegistryStep(states[n - 1], who[n - 1], steps[n - 1], states[n]);
      SitesStep(states[n - 1], who[n - 1], steps[n - 1], states[n]);
      MutexStep(states[n - 1], who[n - 1], steps[n - 1], states[n]);
      AbsentStep(states[n - 1], who[n - 1], steps[n - 1], states[n]);
      ReadStep(states[n - 1], who[n - 1], steps[n - 1], states[n]);
      LogStep(states[n - 1], who[n - 1], steps[n - 1], states[n]);
    }
  }

  // ---------------------------------------------------------------------------------------
  // The results
  // ---------------------------------------------------------------------------------------

  ghost predicate Accesses(e: Event, k: Key) { !e.Reloaded? && e.key == k }

  /** Any two accesses to a key with no reload of it in between see the same site object; in
      particular, nobody loads it again. */
  lemma SameSiteUntilReload(states: seq<State>, who: seq<Thread>, steps: seq<Step>, n: nat, i: nat, j: nat, k: Key)
    requires IsRun(states, who, steps) && n < |states|
    requires i < j < |states[n].log| && Accesses(states[n].log[i], k) && Accesses(states[n].log[j], k)
    requires forall m | i < m < j && states[n].log[m].Reloaded? :: !Reloads(states[n].log[m].subdomain, k)
    ensures states[n].log[i].site == states[n].log[j].site && states[n].log[j].Hit?
  {
    RunInv(states, who, steps, n);
    CurrentStays(states[n].log, i, j, k);
    assert EventOk(states[n].log, j);
  }

  /** Some access from the a-th on and before the b-th is a reload of the key. */
  ghost predicate ReloadedWithin(log: seq<Event>, k: Key, a: nat, b: nat) {
    exists m | a <= m < b && m < |log| :: log[m].Reloaded? && Reloads(log[m].subdomain, k)
  }

  /** A hit is on a site that has been installed and not reloaded since.  It is stale, in that a reload
      came after its data was read, exactly when a reload overtook that load, between the reading of
      the data and the install. */
  lemma HitStaleExactly(states: seq<State>, who: seq<Thread>, steps: seq<Step>, n: nat, j: nat, k: Key) returns (i: nat)
    requires IsRun(states, who, steps) && n < |states|
    requires j < |states[n].log| && states[n].log[j].Hit? && states[n].log[j].key == k
    ensures i < j && states[n].log[i].Installed? && states[n].log[i].key == k && states[n].log[i].site == states[n].log[j].site
    ensures states[n].log[i].read <= i && !ReloadedWithin(states[n].log, k, i, j)
    ensures ReloadedWithin(states[n].log, k, states[n].log[i].read, j) <==>
            ReloadedWithin(states[n].log, k, states[n].log[i].read, i)
  {
    RunInv(states, who, steps, n);
    assert EventOk(states[n].log, j);
    i := InstallOf(states[n].log, j, k, states[n].log[j].site);
    assert EventOk(states[n].log, i);
  }

  /** A request for a site asks under its own key. */
  lemma AsksUnderKey(s: State, t: Thread, d: string, staging: bool, s': State)
    requires Next(s, t, GetSite(d, staging), s')
    ensures s'.threads[t] == WantMutex(if staging then d + ".staging" else d) && s'.sites == s.sites && s'.log == s.log
  {
  }

  /** A reload drops the site with and without staging content, or all sites, and no others. */
  lemma ReloadDrops(s: State, t: Thread, ok: bool, d: string, s': State)
    requires Next(s, t, Advance(ok), s') && s.threads[t] == InReload(d)
    ensures forall k :: k in s'.sites <==> k in s.sites && d != "all" && k != d && k != d + ".staging"
    ensures forall k | k in s'.sites :: s'.sites[k] == s.sites[k]
    ensures s'.log == s.log + [Reloaded(d)]
  {
  }

  /** After a reload, what is hit has been installed since: nobody gets the dropped site. */
  lemma HitAfterReload(states: seq<State>, who: seq<Thread>, steps: seq<Step>, n: nat, r: nat, j: nat, d: string, k: Key) returns (i: nat)
    requires IsRun(states, who, steps) && n < |states|
    requires r < j < |states[n].log| && states[n].log[r] == Reloaded(d) && states[n].log[j].Hit? && states[n].log[j].key == k
    requires d == "all" || k == d || k == d + ".staging"
    ensures r < i < j && states[n].log[i].Installed? && states[n].log[i].key == k && states[n].log[i].site == states[n].log[j].site
  {
    assert Reloads(d, k);
    i := HitStaleExactly(states, who, steps, n, j, k);
  }

  /** No two threads are between a miss and the end of their load for the same key. */
  lemma LoadsNeverOverlap(states: seq<State>, who: seq<Thread>, steps: seq<Step>, n: nat, t: Thread, u: Thread, k: Key)
    requires IsRun(states, who, steps) && n < |states|
    requires t in states[n].threads && u in states[n].threads && Loads(states[n].threads[t], k) && Loads(states[n].threads[u], k)
    ensures t == u
  {
    RunInv(states, who, steps, n);
    HolderOwns(states[n], t, k);
    HolderOwns(states[n], u, k);
  }

  /** Thread t waits for a mutex that thread u holds. */
  ghost predicate WaitsFor(s: State, t: Thread, u: Thread) {
    && t in s.threads && u in s.threads
    && ((WantsRegistry(s.threads[t]) && s.registry == Some(u)) ||
        (s.threads[t].WantSite? && s.threads[t].key in s.siteMutexes && s.siteMutexes[s.threads[t].key] == Some(u)))
  }

  /** The wait graph has no cycle in any reachable state, so the mutexes cannot deadlock. */
  lemma NoDeadlock(states: seq<State>, who: seq<Thread>, steps: seq<Step>, n: nat, ts: seq<Thread>)
    requires IsRun(states, who, steps) && n < |states| && |ts| > 1
    requires forall i | 0 <= i < |ts| - 1 :: WaitsFor(states[n], ts[i], ts[i + 1])
    ensures ts[0] != ts[|ts| - 1]
  {
    RunInv(states, who, steps, n);
    ChainsClimb(states[n], ts, |ts| - 1);
  }

  // ---------------------------------------------------------------------------------------
  // What the results rest on
  // ---------------------------------------------------------------------------------------

  lemma HolderOwns(s: State, t: Thread, k: Key)
    requires SitesOwned(s) && t in s.threads && HoldsSite(s.threads[t], k)
    ensures k in s.siteMutexes && s.siteMutexes[k] == Some(t)
  {
  }

  /** Site mutexes come before the registry mutex, and nothing comes after it. */
  function Rank(p: Place): nat { if p.WantSite? then 0 else if WantsRegistry(p) then 1 else 2 }

  lemma WaitsUpwards(s: State, t: Thread, u: Thread)
    requires Inv(s) && WaitsFor(s, t, u)
    ensures Rank(s.threads[t]) < Rank(s.threads[u])
  {
    if s.threads[t].WantSite? { assert HoldsSite(s.threads[u], s.threads[t].key); }
  }

  lemma {:induction false} ChainsClimb(s: State, ts: seq<Thread>, n: nat)
    requires Inv(s) && n < |ts| && forall i | 0 <= i < |ts| - 1 :: WaitsFor(s, ts[i], ts[i + 1])
    ensures n > 0 ==> ts[0] in s.threads && ts[n] in s.threads && Rank(s.threads[ts[0]]) < Rank(s.threads[ts[n]])
  {
    if n > 0 {
      ChainsClimb(s, ts, n - 1);
      assert WaitsFor(s, ts[n - 1], ts[n]);
      WaitsUpwards(s, ts[n - 1], ts[n]);
    }
  }

  lemma {:induction false} CurrentStays(log: seq<Event>, i: nat, n: nat, k: Key)
    requires LogOk(log) && i < n <= |log| && Accesses(log[i], k)
    requires forall m | i < m < n && log[m].Reloaded? :: !Reloads(log[m].subdomain, k)
    ensures Current(log, n, k) == Some(log[i].site)
  {
    assert EventOk(log, n - 1);
    if i < n - 1 { CurrentStays(log, i, n - 1, k); }
  }

  /** What is in the map was installed, and not reloaded since. */
  lemma {:induction false} InstallOf(log: seq<Event>, n: nat, k: Key, x: Site) returns (i: nat)
    requires n <= |log| && Current(log, n, k) == Some(x)
    ensures i < n && log[i].Installed? && log[i].key == k && log[i].site == x && !ReloadedWithin(log, k, i, n)
  {
    if log[n - 1].Installed? && log[n - 1].key == k {
      i := n - 1;
    } else {
      i := InstallOf(log, n - 1, k, x);
    }
  }

  // ---------------------------------------------------------------------------------------
  // What one step keeps
  // ---------------------------------------------------------------------------------------

  lemma {:induction false} CurrentPrefix(log: seq<Event>, e: Event, n: nat, k: Key)
    requires n <= |log|
    ensures Current(log + [e], n, k) == Current(log, n, k)
  {
    if n > 0 { CurrentPrefix(log, e, n - 1, k); }
  }

  lemma LogExtends(log: seq<Event>, e: Event)
    requires LogOk(log)
    requires match e case Hit(k, x) => Current(log, |log|, k) == Some(x) case Installed(k, _, r) => Current(log, |log|, k) == None && r <= |log| case Reloaded(_) => true
    ensures LogOk(log + [e])
    ensures forall k :: Current(log + [e], |log|, k) == Current(log, |log|, k)
  {
    forall n | 0 <= n < |log + [e]|
      ensures EventOk(log + [e], n)
    {
      if n < |log| { assert EventOk(log, n); }
      forall k ensures Current(log + [e], n, k) == Current(log, n, k) { CurrentPrefix(log, e, n, k); }
    }
    forall k
      ensures Current(log + [e], |log|, k) == Current(log, |log|, k)
    {
      CurrentPrefix(log, e, |log|, k);
    }
  }

  lemma OthersStay(s: State, t: Thread, step: Step, s': State)
    requires Next(s, t, step, s')
    ensures t in s'.threads && s'.threads == s.threads[t := s'.threads[t]]
  {
    if step.Advance? {
      match s.threads[t]
      case Idle =>
      case WantMutex(_) => case InMutex(_) =>
      case WantSite(_) =>
      case WantLookup(_) => case InLookup(_) =>
      case Loading(_) =>
      case WantInstall(_, _, _) => case InInstall(_, _, _) =>
      case Checking(_, _) =>
      case WantReload(_) => case InReload(_) =>
    }
  }

  lemma EffectOnRegistry(s: State, t: Thread, step: Step, s': State)
    requires Next(s, t, step, s')
    ensures InRegistry(s'.threads[t]) ==> s'.registry == Some(t) && s.registry == None && !InRegistry(s.threads[t])
    ensures InRegistry(s.threads[t]) ==> s'.registry == None
    ensures !InRegistry(s.threads[t]) && !InRegistry(s'.threads[t]) ==> s'.registry == s.registry
  {
    if step.Advance? {
      match s.threads[t]
      case Idle =>
      case WantMutex(_) => case InMutex(_) =>
      case WantSite(_) =>
      case WantLookup(_) => case InLookup(_) =>
      case Loading(_) =>
      case WantInstall(_, _, _) => case InInstall(_, _, _) =>
      case Checking(_, _) =>
      case WantReload(_) => case InReload(_) =>
    }
  }

  lemma RegistryStep(s: State, t: Thread, step: Step, s': State)
    requires RegistryOwned(s) && Next(s, t, step, s')
    ensures RegistryOwned(s')
  {
    OthersStay(s, t, step, s');
    EffectOnRegistry(s, t, step, s');
    forall u | u in s'.threads
      ensures InRegistry(s'.threads[u]) <==> s'.registry == Some(u)
    {
      assert InRegistry(s.threads[u]) <==> s.registry == Some(u);
      assert InRegistry(s.threads[t]) <==> s.registry == Some(t);
    }
  }

  /** What a step can do to the site mutexes. */
  datatype MutexEffect = Unchanged | Created(key: Key) | Taken(key: Key) | Freed(key: Key)

  function EffectOf(s: State, t: Thread, step: Step): MutexEffect
    requires t in s.threads
  {
    var p := s.threads[t];
    match step
    case GetSite(_, _) => Unchanged
    case Reload(_) => Unchanged
    case Advance(ok) =>
      if p.InMutex? then if p.key in s.siteMutexes then Unchanged else Created(p.key)
      else if p.WantSite? then Taken(p.key)
      else if p.Checking? || (p.InLookup? && p.key in s.sites) || (p.Loading? && !ok) then Freed(p.key)
      else Unchanged
  }

  lemma EffectOnMutexes(s: State, t: Thread, step: Step, s': State)
    requires Next(s, t, step, s')
    ensures match EffectOf(s, t, step)
            case Unchanged => s'.siteMutexes == s.siteMutexes
            case Created(k) => k !in s.siteMutexes && s'.siteMutexes == s.siteMutexes[k := None]
            case Taken(k) => k in s.siteMutexes && s.siteMutexes[k] == None && s'.siteMutexes == s.siteMutexes[k := Some(t)]
            case Freed(k) => s'.siteMutexes == s.siteMutexes[k := None]
  {
  }

  lemma EffectOnPlace(s: State, t: Thread, step: Step, s': State, k: Key)
    requires Next(s, t, step, s')
    ensures match EffectOf(s, t, step)
            case Unchanged => HoldsSite(s'.threads[t], k) == HoldsSite(s.threads[t], k)
            case Created(_) => !HoldsSite(s'.threads[t], k) && !HoldsSite(s.threads[t], k)
            case Taken(k') => !HoldsSite(s.threads[t], k) && (HoldsSite(s'.threads[t], k) <==> k == k')
            case Freed(k') => !HoldsSite(s'.threads[t], k) && (HoldsSite(s.threads[t], k) <==> k == k')
  {
    if step.Advance? {
      match s.threads[t]
      case Idle =>
      case WantMutex(_) => case InMutex(_) =>
      case WantSite(_) =>
      case WantLookup(_) => case InLookup(_) =>
      case Loading(_) =>
      case WantInstall(_, _, _) => case InInstall(_, _, _) =>
      case Checking(_, _) =>
      case WantReload(_) => case InReload(_) =>
    }
  }

  lemma SitesStep(s: State, t: Thread, step: Step, s': State)
    requires SitesOwned(s) && Next(s, t, step, s')
    ensures SitesOwned(s')
  {
    OthersStay(s, t, step, s');
    EffectOnMutexes(s, t, step, s');
    forall u, k | u in s'.threads
      ensures HoldsSite(s'.threads[u], k) <==> k in s'.siteMutexes && s'.siteMutexes[k] == Some(u)
    {
      EffectOnPlace(s, t, step, s', k);
      assert HoldsSite(s.threads[u], k) <==> k in s.siteMutexes && s.siteMutexes[k] == Some(u);
      assert HoldsSite(s.threads[t], k) <==> k in s.siteMutexes && s.siteMutexes[k] == Some(t);
    }
  }

  lemma MutexStep(s: State, t: Thread, step: Step, s': State)
    requires MutexKnown(s) && Next(s, t, step, s')
    ensures MutexKnown(s')
  {
  }

  /** What a step does to the map and the log. */
  lemma StepOnMap(s: State, t: Thread, step: Step, s': State)
    requires Next(s, t, step, s')
    ensures s.threads[t].InInstall? && step.Advance? ==>
              s'.sites == s.sites[s.threads[t].key := s.threads[t].site]
              && s'.log == s.log + [Installed(s.threads[t].key, s.threads[t].site, s.threads[t].read)]
    ensures s.threads[t].InLookup? && step.Advance? ==>
              s'.sites == s.sites && s'.log == if s.threads[t].key in s.sites then s.log + [Hit(s.threads[t].key, s.sites[s.threads[t].key])] else s.log
    ensures s.threads[t].InReload? && step.Advance? ==>
              s'.sites == (map k | k in s.sites && !Reloads(s.threads[t].subdomain, k) :: s.sites[k])
              && s'.log == s.log + [Reloaded(s.threads[t].subdomain)]
    ensures !(step.Advance? && (s.threads[t].InInstall? || s.threads[t].InLookup? || s.threads[t].InReload?)) ==>
              s'.sites == s.sites && s'.log == s.log
    ensures forall k | Loads(s'.threads[t], k) :: Loads(s.threads[t], k) || (s.threads[t].InLookup? && k !in s.sites)
    ensures s.threads[t].InInstall? && step.Advance? ==> forall k :: !Loads(s'.threads[t], k)
  {
    if step.Advance? {
      match s.threads[t]
      case Idle =>
      case WantMutex(_) => case InMutex(_) =>
      case WantSite(_) =>
      case WantLookup(_) => case InLookup(_) =>
      case Loading(_) =>
      case WantInstall(_, _, _) => case InInstall(_, _, _) =>
      case Checking(_, _) =>
      case WantReload(_) => case InReload(_) =>
    }
  }

  lemma OneLoader(s: State, t: Thread, u: Thread, k: Key)
    requires SitesOwned(s) && t in s.threads && u in s.threads && t != u && Loads(s.threads[u], k)
    ensures s.threads[t].InInstall? ==> s.threads[t].key != k
  {
    HolderOwns(s, u, k);
    if s.threads[t].InInstall? { HolderOwns(s, t, s.threads[t].key); }
  }

  lemma AbsentStep(s: State, t: Thread, step: Step, s': State)
    requires SitesOwned(s) && LoadedAreAbsent(s) && Next(s, t, step, s')
    ensures LoadedAreAbsent(s')
  {
    OthersStay(s, t, step, s');
    StepOnMap(s, t, step, s');
    forall u, k | u in s'.threads && Loads(s'.threads[u], k)
      ensures k !in s'.sites
    {
      if u != t {
        OneLoader(s, t, u, k);
      }
      assert k !in s.sites;
    }
  }

  lemma ReadStep(s: State, t: Thread, step: Step, s': State)
    requires ReadsPast(s) && Next(s, t, step, s')
    ensures ReadsPast(s')
  {
    OthersStay(s, t, step, s');
    StepOnMap(s, t, step, s');
  }

  lemma LogStep(s: State, t: Thread, step: Step, s': State)
    requires LoadedAreAbsent(s) && ReadsPast(s) && MapLogged(s) && LogOk(s.log) && Next(s, t, step, s')
    ensures MapLogged(s') && LogOk(s'.log)
  {
    StepOnMap(s, t, step, s');
    if s'.log != s.log {
      var e := s'.log[|s.log|];
      assert s'.log == s.log + [e];
      if s.threads[t].InInstall? { assert Loads(s.threads[t], s.threads[t].key); }
      LogExtends(s.log, e);
      forall k
        ensures Current(s'.log, |s'.log|, k) == if k in s'.sites then Some(s'.sites[k]) else None
      {
        assert Current(s'.log, |s.log|, k) == if k in s.sites then Some(s.sites[k]) else None;
      }
    }
  }

  // ---------------------------------------------------------------------------------------
  // A stale hit
  // ---------------------------------------------------------------------------------------

  ghost predicate EndsIn(states: seq<State>, who: seq<Thread>, steps: seq<Step>, s: State) {
    IsRun(states, who, steps) && states[|states| - 1] == s
  }

  ghost predicate Reachable(s: State) { exists states, who, steps :: EndsIn(states, who, steps, s) }

  lemma ReachableNext(s: State, t: Thread, step: Step, s': State)
    requires Reachable(s) && Next(s, t, step, s')
    ensures Reachable(s')
  {
    var states, who, steps :| EndsIn(states, who, steps, s);
    assert EndsIn(states + [s'], who + [t], steps + [step], s');
  }

  /** Thread t goes on by one step. */
  lemma Go(s: State, t: Thread) returns (s': State)
    requires Reachable(s) && t in s.threads && CanAdvance(s, t)
    ensures Reachable(s') && s' == Advanced(s, t, true)
  {
    s' := Advanced(s, t, true);
    ReachableNext(s, t, Advance(true), s');
  }

  lemma Begins() returns (s: State)
    ensures Reachable(s) && s == State(None, map[], map[], 0, map[0 := Idle, 1 := Idle], [])
  {
    s := State(None, map[], map[], 0, map[0 := Idle, 1 := Idle], []);
    assert EndsIn([s], [], [], s);
  }

  lemma TakesMutex(k: Key) returns (s: State)
    ensures Reachable(s)
    ensures s == State(None, map[k := Some(0)], map[], 0, map[0 := WantLookup(k), 1 := Idle], [])
  {
    var s0 := Begins();
    s := s0.Move(0, WantMutex(k));
    ReachableNext(s0, 0, GetSite(k, false), s);
    s := Go(s, 0);
    s := Go(s, 0);
    s := Go(s, 0);
  }

  /** Thread 0 reads the data of a site and is about to install it. */
  lemma ReadsData(k: Key) returns (s: State)
    ensures Reachable(s)
    ensures s == State(None, map[k := Some(0)], map[], 1, map[0 := WantInstall(k, 0, 0), 1 := Idle], [])
  {
    s := TakesMutex(k);
    s := Go(s, 0);
    s := Go(s, 0);
    s := Go(s, 0);
  }

  lemma ReloadsMeanwhile(d: string) returns (s: State)
    ensures Reachable(s)
    ensures s == State(None, map[d := Some(0)], map[], 1, map[0 := WantInstall(d, 0, 0), 1 := Idle], [Reloaded(d)])
  {
    var s0 := ReadsData(d);
    s := s0.Move(1, WantReload(d));
    ReachableNext(s0, 1, Reload(d), s);
    s := Go(s, 1);
    s := Go(s, 1);
  }

  /** Thread 1 reloads the site before thread 0 installs it. */
  lemma Overtakes(d: string) returns (s: State)
    ensures Reachable(s)
    ensures s == State(None, map[d := None], map[d := 0], 1, map[0 := Idle, 1 := Idle], [Reloaded(d), Installed(d, 0, 0)])
  {
    s := ReloadsMeanwhile(d);
    s := Go(s, 0);
    s := Go(s, 0);
    s := Go(s, 0);
  }

  lemma LooksUpAgain(d: string) returns (s: State)
    ensures Reachable(s)
    ensures s == State(None, map[d := Some(0)], map[d := 0], 1, map[0 := WantLookup(d), 1 := Idle], [Reloaded(d), Installed(d, 0, 0)])
  {
    var s0 := Overtakes(d);
    s := s0.Move(0, WantMutex(d));
    ReachableNext(s0, 0, GetSite(d, false), s);
    s := Go(s, 0);
    s := Go(s, 0);
    s := Go(s, 0);
  }

  /** A reload that overtakes a load leaves its old data in the map: the next access hits it. */
  lemma StaleHit(d: string) returns (s: State)
    ensures Reachable(s) && s.log == [Reloaded(d), Installed(d, 0, 0), Hit(d, 0)]
    ensures ReloadedWithin(s.log, d, s.log[1].read, 2)
  {
    s := LooksUpAgain(d);
    s := Go(s, 0);
    s := Go(s, 0);
    assert s.log[0].Reloaded? && Reloads(s.log[0].subdomain, d);
  }
}
