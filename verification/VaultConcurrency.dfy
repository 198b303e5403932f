// pkg/vault/client.go under concurrency: any number of threads inside GetSecret, PutSecret,
// DeleteSecret and Close, any clock, and other writers of the same store. One move of a thread
// is one critical section or one API call. Holding the read side of c.mu is being at one of the
// points Locked, Holding, Writing or Wrote; holding the write side is being at Closing.
// The cache lookup needs neither side.
module VaultConcurrency {
  import opened Wrappers
  import opened VaultCache

  type Thread = nat
  type Store = map<string, Raw>

  datatype Config = Config(enableCache: bool, ttl: int, hasRenewer: bool, hasTicker: bool, initial: Store)

  datatype Pc =
    | Idle
    | Missed(path: string)                                 // GetSecret, cache not used or missed
    | Locked(path: string, since: nat)                     // GetSecret, read lock held, client open
    | Holding(path: string, data: SecretData, since: nat, readAt: nat, readTime: int) // GetSecret, API has answered
    | Writing(path: string, update: Option<Raw>)           // PutSecret or DeleteSecret (None), before the API call
    | Wrote(path: string, wroteAt: nat)                    // PutSecret or DeleteSecret, before invalidating
    | Closing                                              // Close, stop channels closed, cache not yet cleared

  // Where an answer came from: the entry filled at an instant, or a read by the serving call, which took
  // its lock at an instant.
  datatype Source = FromCache(fill: nat) | FromStore(since: nat)

  // What happened, in order. A position in this history is an instant of the run.
  datatype Event =
    | Written(path: string, update: Option<Raw>, external: bool)
    | CacheFilled(path: string, data: SecretData, readAt: nat, readTime: int, time: int)
    | CacheInvalidated(path: string, wroteAt: nat)
    | Served(path: string, data: SecretData, time: int, source: Source)
    | Failed(path: string, error: Error)
    | CloseReturned

  // What the threads share. `fills` maps each cached path to the instant its entry was filled.
  datatype Shared = Shared(
    store: Store,
    cache: Cache,
    fills: map<string, nat>,
    closed: bool,
    renewStopCloses: nat,
    healthStopCloses: nat,
    now: int,
    log: seq<Event>)

  datatype State = State(sh: Shared, pcs: map<Thread, Pc>)

  datatype Move =
    | StartGet(path: string)
    | LockForRead
    | ReadStore(fails: bool)
    | FillCache
    | StartWrite(path: string, update: Option<Raw>)
    | WriteStore(fails: bool)
    | Invalidate
    | StartClose
    | FinishClose

  datatype Action =
    | Tick(d: nat)
    | ExternalWrite(path: string, update: Option<Raw>)
    | Do(t: Thread, move: Move)

  function PcOf(s: State, t: Thread): Pc {
    if t in s.pcs then s.pcs[t] else Idle
  }

  predicate HoldsReadLock(pc: Pc) {
    pc.Locked? || pc.Holding? || pc.Writing? || pc.Wrote?
  }

  predicate WriterFree(s: State) {
    forall t | t in s.pcs :: !s.pcs[t].Closing?
  }

  predicate LockFree(s: State) {
    WriterFree(s) && forall t | t in s.pcs :: !HoldsReadLock(s.pcs[t])
  }

  function Updated(store: Store, path: string, update: Option<Raw>): Store {
    if update.Some? then store[path := update.value] else store - {path}
  }

  function Logged(sh: Shared, events: seq<Event>): Shared {
    sh.(log := sh.log + events)
  }

  function Write(sh: Shared, path: string, update: Option<Raw>, external: bool): Shared {
    Logged(sh.(store := Updated(sh.store, path, update)), [Written(path, update, external)])
  }

  function Fill(c: Config, sh: Shared, path: string, data: SecretData, since: nat, readAt: nat, readTime: int): Shared {
    Logged(sh.(cache := Filled(sh.cache, path, data, sh.now, c.ttl), fills := sh.fills[path := |sh.log|]),
           [CacheFilled(path, data, readAt, readTime, sh.now), Served(path, data, sh.now, FromStore(since))])
  }

  function BeginClose(c: Config, sh: Shared): Shared {
    sh.(closed := true,
        renewStopCloses := sh.renewStopCloses + (if c.hasRenewer then 1 else 0),
        healthStopCloses := sh.healthStopCloses + (if c.hasTicker then 1 else 0))
  }

  function EntryFill(sh: Shared, path: string): nat {
    if path in sh.fills then sh.fills[path] else 0
  }

  // One move of a thread at pc. A move that is not enabled changes nothing.
  function Act(c: Config, sh: Shared, pc: Pc, move: Move, writerFree: bool, lockFree: bool): (Shared, Pc) {
    match (move, pc)
    case (StartGet(path), Idle) =>
      var hit := if c.enableCache then Lookup(sh.cache, path, sh.now) else None;
      if hit.Some? then (Logged(sh, [Served(path, hit.value, sh.now, FromCache(EntryFill(sh, path)))]), Idle) else (sh, Missed(path))
    case (LockForRead, Missed(path)) =>
      if !writerFree then (sh, pc)
      else if sh.closed then (Logged(sh, [Failed(path, NotInitialized)]), Idle)
      else (sh, Locked(path, |sh.log|))
    case (ReadStore(fails), Locked(path, since)) =>
      if fails then (Logged(sh, [Failed(path, ReadFailed)]), Idle)
      else if path !in sh.store then (Logged(sh, [Failed(path, NotFound)]), Idle)
      else if c.enableCache then (sh, Holding(path, Decode(sh.store[path]), since, |sh.log|, sh.now))
      else (Logged(sh, [Served(path, Decode(sh.store[path]), sh.now, FromStore(since))]), Idle)
    case (FillCache, Holding(path, data, since, readAt, readTime)) =>
      (Fill(c, sh, path, data, since, readAt, readTime), Idle)
    case (StartWrite(path, update), Idle) =>
      if !writerFree then (sh, pc)
      else if sh.closed then (Logged(sh, [Failed(path, NotInitialized)]), Idle)
      else (sh, Writing(path, update))
    case (WriteStore(fails), Writing(path, update)) =>
      if fails then (Logged(sh, [Failed(path, WriteFailed)]), Idle)
      else (Write(sh, path, update, false), if c.enableCache then Wrote(path, |sh.log|) else Idle)
    case (Invalidate, Wrote(path, wroteAt)) =>
      (Logged(sh.(cache := Invalidated(sh.cache, path), fills := sh.fills - {path}),
              [CacheInvalidated(path, wroteAt)]), Idle)
    case (StartClose, Idle) =>
      if !lockFree then (sh, pc)
      else if sh.closed then (Logged(sh, [CloseReturned]), Idle)
      else (BeginClose(c, sh), Closing)
    case (FinishClose, Closing) =>
      (Logged(sh.(cache := map[], fills := map[]), [CloseReturned]), Idle)
    case _ => (sh, pc)
  }

  function Step(c: Config, s: State, a: Action): State {
    match a
    case Tick(d) => s.(sh := s.sh.(now := s.sh.now + d))
    case ExternalWrite(path, update) => s.(sh := Write(s.sh, path, update, true))
    case Do(t, move) =>
      var (sh, pc) := Act(c, s.sh, PcOf(s, t), move, WriterFree(s), LockFree(s));
      State(sh, s.pcs[t := pc])
  }

  // The state every interleaving reaches: a schedule is any list of actions.
  function Run(c: Config, schedule: seq<Action>): State {
    if schedule == [] then State(Shared(c.initial, map[], map[], false, 0, 0, 0, []), map[])
    else Step(c, Run(c, schedule[..|schedule| - 1]), schedule[|schedule| - 1])
  }

  // ---- The store at an instant ----

  function Apply(store: Store, e: Event): Store {
    if e.Written? then Updated(store, e.path, e.update) else store
  }

  // The store after the first n events.
  function StoreAt(c: Config, log: seq<Event>, n: nat): Store
    requires n <= |log|
  {
    if n == 0 then c.initial else Apply(StoreAt(c, log, n - 1), log[n - 1])
  }

  lemma {:induction false} StoreAtPrefix(c: Config, log: seq<Event>, log': seq<Event>, n: nat)
    requires log <= log' && n <= |log|
    ensures StoreAt(c, log', n) == StoreAt(c, log, n)
  {
    if n > 0 {
      StoreAtPrefix(c, log, log', n - 1);
    }
  }

  ghost predicate WasStored(c: Config, log: seq<Event>, path: string, data: SecretData, at: nat) {
    at <= |log| && path in StoreAt(c, log, at) && data == Decode(StoreAt(c, log, at)[path])
  }

  predicate WrittenAt(log: seq<Event>, path: string, i: int) {
    0 <= i < |log| && log[i].Written? && log[i].path == path
  }

  // A path that nobody writes from instant n to instant m keeps its stored object.
  lemma {:induction false} UnwrittenKeeps(c: Config, log: seq<Event>, path: string, n: nat, m: nat)
    requires n <= m <= |log|
    requires forall i | n <= i < m :: !WrittenAt(log, path, i)
    ensures path in StoreAt(c, log, n) <==> path in StoreAt(c, log, m)
    ensures path in StoreAt(c, log, n) ==> StoreAt(c, log, n)[path] == StoreAt(c, log, m)[path]
    decreases m
  {
    if n < m {
      UnwrittenKeeps(c, log, path, n, m - 1);
      assert !WrittenAt(log, path, m - 1);
    }
  }

  // ---- The invariant of every run ----

  // An entry is what its fill event says, and what was filled was in the store when it was read.
  ghost predicate EntryOk(c: Config, log: seq<Event>, now: int, path: string, entry: CacheEntry, f: nat) {
    && f < |log| && log[f].CacheFilled? && log[f] == CacheFilled(path, entry.data, log[f].readAt, log[f].readTime, entry.expiresAt - c.ttl)
    && log[f].readAt <= f && log[f].readTime <= log[f].time <= now
    && WasStored(c, log, path, entry.data, log[f].readAt)
  }

  ghost predicate EntriesOk(c: Config, sh: Shared) {
    && sh.fills.Keys == sh.cache.Keys
    && forall p | p in sh.cache :: EntryOk(c, sh.log, sh.now, p, sh.cache[p], sh.fills[p])
  }

  ghost predicate PcOk(c: Config, log: seq<Event>, now: int, pc: Pc) {
    && (pc.Locked? ==> pc.since <= |log|)
    && (pc.Holding? ==>
          pc.since <= pc.readAt && pc.readTime <= now && WasStored(c, log, pc.path, pc.data, pc.readAt))
    && (pc.Wrote? ==> ClientWrite(log, pc.path, pc.wroteAt))
  }

  ghost predicate PendingOn(s: State, path: string, i: nat) {
    exists t | t in s.pcs :: s.pcs[t] == Wrote(path, i)
  }

  ghost predicate InvalidatedBetween(log: seq<Event>, path: string, i: nat, before: nat) {
    exists j | i < j < before && j < |log| :: log[j] == CacheInvalidated(path, i)
  }

  predicate ClientWrite(log: seq<Event>, path: string, i: int) {
    WrittenAt(log, path, i) && !log[i].external
  }

  // Every write of this client is waiting for its invalidation or has had it.
  ghost predicate WritesOk(s: State) {
    forall p, i | ClientWrite(s.sh.log, p, i) ::
      PendingOn(s, p, i) || InvalidatedBetween(s.sh.log, p, i, |s.sh.log|)
  }

  // An invalidation is older than the entry now cached on its path.
  ghost predicate InvalidationsOk(sh: Shared) {
    forall j | 0 <= j < |sh.log| && sh.log[j].CacheInvalidated? && sh.log[j].path in sh.fills ::
      j < sh.fills[sh.log[j].path]
  }

  ghost predicate CloseOk(c: Config, s: State) {
    && (forall t, u | t in s.pcs && u in s.pcs && s.pcs[t].Closing? && s.pcs[u].Closing? :: t == u)
    && (s.sh.closed ==> forall t | t in s.pcs :: !HoldsReadLock(s.pcs[t]))
    && (forall t | t in s.pcs && s.pcs[t].Closing? :: s.sh.closed)
    && (s.sh.closed && WriterFree(s) ==> s.sh.cache == map[])
    && s.sh.renewStopCloses == (if s.sh.closed && c.hasRenewer then 1 else 0)
    && s.sh.healthStopCloses == (if s.sh.closed && c.hasTicker then 1 else 0)
  }

  // Nothing is served after a Close has returned.
  ghost predicate SilentAfterClose(s: State) {
    forall k | 0 <= k < |s.sh.log| && s.sh.log[k].CloseReturned? ::
      && s.sh.closed && WriterFree(s)
      && forall i | k < i < |s.sh.log| :: !s.sh.log[i].Served?
  }

  ghost predicate DataOk(c: Config, s: State) {
    && s.sh.store == StoreAt(c, s.sh.log, |s.sh.log|)
    && EntriesOk(c, s.sh)
    && (forall t | t in s.pcs :: PcOk(c, s.sh.log, s.sh.now, s.pcs[t]))
    && InvalidationsOk(s.sh)
  }

  ghost predicate Inv(c: Config, s: State) {
    DataOk(c, s) && (c.enableCache ==> WritesOk(s)) && CloseOk(c, s) && SilentAfterClose(s)
  }

  lemma WasStoredStable(c: Config, log: seq<Event>, log': seq<Event>, path: string, data: SecretData, at: nat)
    requires log <= log' && WasStored(c, log, path, data, at)
    ensures WasStored(c, log', path, data, at)
  {
    StoreAtPrefix(c, log, log', at);
  }

  lemma StoreLog(c: Config, log: seq<Event>, e: Event)
    ensures StoreAt(c, log + [e], |log| + 1) == Apply(StoreAt(c, log, |log|), e)
  {
    StoreAtPrefix(c, log, log + [e], |log|);
  }

  lemma {:induction false} StoreUnwritten(c: Config, log: seq<Event>, n: nat)
    requires n <= |log| && forall i | n <= i < |log| :: !log[i].Written?
    ensures StoreAt(c, log, |log|) == StoreAt(c, log[..n], n)
    decreases |log|
  {
    if n == |log| {
      assert log[..n] == log;
    } else {
      var front := log[..|log| - 1];
      assert front[..n] == log[..n];
      StoreUnwritten(c, front, n);
      StoreAtPrefix(c, front, log, |front|);
    }
  }

  lemma ActLog(c: Config, sh: Shared, pc: Pc, move: Move, w: bool, l: bool)
    ensures var sh' := Act(c, sh, pc, move, w, l).0;
            sh.log <= sh'.log && sh'.now == sh.now
  {
  }

  lemma OnlyWritesWrite(c: Config, sh: Shared, pc: Pc, move: Move, w: bool, l: bool)
    requires !(move.WriteStore? && pc.Writing? && !move.fails)
    ensures var sh' := Act(c, sh, pc, move, w, l).0;
            sh'.store == sh.store && forall i | |sh.log| <= i < |sh'.log| :: !sh'.log[i].Written?
  {
  }

  // What a move can do to the history and the store.
  lemma ActHistory(c: Config, sh: Shared, pc: Pc, move: Move, w: bool, l: bool)
    requires sh.store == StoreAt(c, sh.log, |sh.log|)
    ensures var sh' := Act(c, sh, pc, move, w, l).0;
            sh.log <= sh'.log && sh'.now == sh.now && sh'.store == StoreAt(c, sh'.log, |sh'.log|)
  {
    ActLog(c, sh, pc, move, w, l);
    if move.WriteStore? && pc.Writing? && !move.fails {
      StoreLog(c, sh.log, Written(pc.path, pc.update, false));
    } else {
      OnlyWritesWrite(c, sh, pc, move, w, l);
      var log' := Act(c, sh, pc, move, w, l).0.log;
      assert log'[..|sh.log|] == sh.log;
      StoreUnwritten(c, log', |sh.log|);
    }
  }

  lemma EntryStable(c: Config, log: seq<Event>, log': seq<Event>, now: int, now': int,
                    path: string, entry: CacheEntry, f: nat)
    requires log <= log' && now <= now' && EntryOk(c, log, now, path, entry, f)
    ensures EntryOk(c, log', now', path, entry, f)
  {
    WasStoredStable(c, log, log', path, entry.data, log[f].readAt);
  }

  lemma EntriesStable(c: Config, sh: Shared, sh': Shared)
    requires EntriesOk(c, sh) && sh.log <= sh'.log && sh.now <= sh'.now
    requires sh'.fills.Keys == sh'.cache.Keys
    requires forall p | p in sh'.cache :: p in sh.cache && sh'.cache[p] == sh.cache[p] && sh'.fills[p] == sh.fills[p]
    ensures EntriesOk(c, sh')
  {
    forall p | p in sh'.cache
      ensures EntryOk(c, sh'.log, sh'.now, p, sh'.cache[p], sh'.fills[p])
    {
      EntryStable(c, sh.log, sh'.log, sh.now, sh'.now, p, sh.cache[p], sh.fills[p]);
    }
  }

  lemma EntriesFill(c: Config, sh: Shared, path: string, data: SecretData, since: nat, readAt: nat, readTime: int)
    requires EntriesOk(c, sh) && WasStored(c, sh.log, path, data, readAt) && readTime <= sh.now
    ensures EntriesOk(c, Fill(c, sh, path, data, since, readAt, readTime))
  {
    var sh' := Fill(c, sh, path, data, since, readAt, readTime);
    forall p | p in sh'.cache
      ensures EntryOk(c, sh'.log, sh'.now, p, sh'.cache[p], sh'.fills[p])
    {
      if p == path {
        WasStoredStable(c, sh.log, sh'.log, path, data, readAt);
      } else {
        EntryStable(c, sh.log, sh'.log, sh.now, sh'.now, p, sh.cache[p], sh.fills[p]);
      }
    }
  }

  lemma OnlyFillsAdd(c: Config, sh: Shared, pc: Pc, move: Move, w: bool, l: bool)
    requires sh.fills.Keys == sh.cache.Keys
    requires !(move.FillCache? && pc.Holding?)
    ensures var sh' := Act(c, sh, pc, move, w, l).0;
            && sh'.fills.Keys == sh'.cache.Keys
            && forall p | p in sh'.cache :: p in sh.cache && sh'.cache[p] == sh.cache[p] && sh'.fills[p] == sh.fills[p]
  {
  }

  lemma ActEntries(c: Config, sh: Shared, pc: Pc, move: Move, w: bool, l: bool)
    requires sh.store == StoreAt(c, sh.log, |sh.log|)
    requires EntriesOk(c, sh) && PcOk(c, sh.log, sh.now, pc)
    ensures EntriesOk(c, Act(c, sh, pc, move, w, l).0)
  {
    if move.FillCache? && pc.Holding? {
      EntriesFill(c, sh, pc.path, pc.data, pc.since, pc.readAt, pc.readTime);
    } else {
      ActHistory(c, sh, pc, move, w, l);
      OnlyFillsAdd(c, sh, pc, move, w, l);
      EntriesStable(c, sh, Act(c, sh, pc, move, w, l).0);
    }
  }

  lemma ActPc(c: Config, sh: Shared, pc: Pc, move: Move, w: bool, l: bool)
    requires sh.store == StoreAt(c, sh.log, |sh.log|) && PcOk(c, sh.log, sh.now, pc)
    ensures var (sh', pc') := Act(c, sh, pc, move, w, l); PcOk(c, sh'.log, sh'.now, pc')
  {
    var (sh', pc') := Act(c, sh, pc, move, w, l);
    ActHistory(c, sh, pc, move, w, l);
    if pc' == pc && pc.Holding? {
      WasStoredStable(c, sh.log, sh'.log, pc.path, pc.data, pc.readAt);
    }
  }

  lemma ActInvalidations(c: Config, sh: Shared, pc: Pc, move: Move, w: bool, l: bool)
    requires InvalidationsOk(sh)
    ensures InvalidationsOk(Act(c, sh, pc, move, w, l).0)
  {
  }

  // A client write is new only for the writer itself, which then waits to invalidate; and a
  // writer stops waiting only by invalidating.
  lemma ActWrites(c: Config, sh: Shared, pc: Pc, move: Move, w: bool, l: bool)
    requires c.enableCache
    ensures var (sh', pc') := Act(c, sh, pc, move, w, l);
            && sh.log <= sh'.log
            && (forall p, i | ClientWrite(sh'.log, p, i) && i >= |sh.log| :: pc' == Wrote(p, i))
            && (pc.Wrote? && pc' != pc ==>
                  |sh.log| < |sh'.log| && sh'.log[|sh.log|] == CacheInvalidated(pc.path, pc.wroteAt))
  {
  }

  lemma WritesStep(c: Config, s: State, a: Action)
    requires c.enableCache && WritesOk(s)
    requires forall t | t in s.pcs :: PcOk(c, s.sh.log, s.sh.now, s.pcs[t])
    ensures WritesOk(Step(c, s, a))
  {
    var s' := Step(c, s, a);
    var log, log' := s.sh.log, s'.sh.log;
    if a.Do? {
      ActWrites(c, s.sh, PcOf(s, a.t), a.move, WriterFree(s), LockFree(s));
    }
    forall p, i | ClientWrite(log', p, i)
      ensures PendingOn(s', p, i) || InvalidatedBetween(log', p, i, |log'|)
    {
      if i < |log| {
        assert ClientWrite(log, p, i);
        if PendingOn(s, p, i) {
          var t :| t in s.pcs && s.pcs[t] == Wrote(p, i);
          assert PcOk(c, log, s.sh.now, s.pcs[t]);
          if s'.pcs[t] == s.pcs[t] {
            assert PendingOn(s', p, i);
          } else {
            assert log'[|log|] == CacheInvalidated(p, i);
          }
        } else {
          var j :| i < j < |log| && log[j] == CacheInvalidated(p, i);
          assert log'[j] == CacheInvalidated(p, i);
        }
      } else {
        assert s'.pcs[a.t] == Wrote(p, i);
      }
    }
  }

  // Locks as one thread sees them: readers and the closer exclude each other, only the closer
  // sets `closed` or clears the cache, and a closed client with an empty cache serves nothing.
  lemma ActClose(c: Config, sh: Shared, pc: Pc, move: Move, w: bool, l: bool)
    requires sh.closed ==> !HoldsReadLock(pc)
    requires pc.Closing? ==> sh.closed
    ensures var (sh', pc') := Act(c, sh, pc, move, w, l);
            && (sh.closed ==> sh'.closed && !HoldsReadLock(pc') && (sh'.cache == sh.cache || sh'.cache == map[]))
            && (sh'.closed && !sh.closed ==> pc'.Closing? && l && sh'.cache == sh.cache)
            && (pc'.Closing? && !pc.Closing? ==> !sh.closed && sh'.closed && l)
            && (pc.Closing? && !pc'.Closing? ==> sh'.cache == map[])
            && (HoldsReadLock(pc') && !HoldsReadLock(pc) ==> !sh.closed)
            && sh.log <= sh'.log
            && (forall k | |sh.log| <= k < |sh'.log| && sh'.log[k].CloseReturned? ::
                  k + 1 == |sh'.log| && !pc'.Closing? && sh.closed && (pc.Closing? || l))
            && (sh.closed && sh.cache == map[] ==>
                  forall k | |sh.log| <= k < |sh'.log| :: !sh'.log[k].Served?)
  {
  }

  lemma ActCounts(c: Config, sh: Shared, pc: Pc, move: Move, w: bool, l: bool)
    ensures var sh' := Act(c, sh, pc, move, w, l).0;
            || (sh'.closed == sh.closed && sh'.renewStopCloses == sh.renewStopCloses && sh'.healthStopCloses == sh.healthStopCloses)
            || (!sh.closed && sh' == BeginClose(c, sh))
  {
  }

  lemma CloseKept(c: Config, s: State, s': State, t: Thread)
    requires CloseOk(c, s)
    requires t in s'.pcs && forall u | u != t :: (u in s'.pcs <==> u in s.pcs) && PcOf(s', u) == PcOf(s, u)
    requires var (sh, sh', pc, pc') := (s.sh, s'.sh, PcOf(s, t), PcOf(s', t));
             && (sh.closed ==> sh'.closed && !HoldsReadLock(pc') && (sh'.cache == sh.cache || sh'.cache == map[]))
             && (sh'.closed && !sh.closed ==> pc'.Closing? && LockFree(s))
             && (pc'.Closing? && !pc.Closing? ==> !sh.closed && sh'.closed && LockFree(s))
             && (pc.Closing? && !pc'.Closing? ==> sh'.cache == map[])
             && (|| (sh'.closed == sh.closed && sh'.renewStopCloses == sh.renewStopCloses && sh'.healthStopCloses == sh.healthStopCloses)
                 || (!sh.closed && sh' == BeginClose(c, sh)))
    ensures CloseOk(c, s')
  {
    forall u, v | u in s'.pcs && v in s'.pcs && s'.pcs[u].Closing? && s'.pcs[v].Closing?
      ensures u == v
    {
      assert u != t ==> PcOf(s, u).Closing?;
      assert v != t ==> PcOf(s, v).Closing?;
    }
    forall u | u in s'.pcs && s'.sh.closed
      ensures !HoldsReadLock(s'.pcs[u])
    {
      assert u != t ==> PcOf(s', u) == PcOf(s, u);
    }
    forall u | u in s'.pcs && s'.pcs[u].Closing?
      ensures s'.sh.closed
    {
      assert PcOf(s', u).Closing?;
    }
    if s'.sh.closed && WriterFree(s') {
      forall u | u in s.pcs && u != t
        ensures !s.pcs[u].Closing?
      {
        assert PcOf(s', u) == PcOf(s, u);
      }
    }
  }

  lemma CloseStep(c: Config, s: State, a: Action)
    requires CloseOk(c, s)
    ensures CloseOk(c, Step(c, s, a))
  {
    if a.Do? {
      var pc := PcOf(s, a.t);
      ActClose(c, s.sh, pc, a.move, WriterFree(s), LockFree(s));
      ActCounts(c, s.sh, pc, a.move, WriterFree(s), LockFree(s));
      CloseKept(c, s, Step(c, s, a), a.t);
    }
  }

  lemma SilenceStep(c: Config, s: State, a: Action)
    requires CloseOk(c, s) && SilentAfterClose(s)
    ensures SilentAfterClose(Step(c, s, a))
  {
    var s' := Step(c, s, a);
    if a.Do? {
      var t := a.t;
      ActClose(c, s.sh, PcOf(s, t), a.move, WriterFree(s), LockFree(s));
      forall k | 0 <= k < |s'.sh.log| && s'.sh.log[k].CloseReturned?
        ensures s'.sh.closed && WriterFree(s')
        ensures forall i | k < i < |s'.sh.log| :: !s'.sh.log[i].Served?
      {
        assert k < |s.sh.log| ==> s.sh.log[k].CloseReturned?;
        assert forall u | u in s'.pcs && u != t :: s'.pcs[u] == s.pcs[u];
      }
    }
  }

  lemma PcStable(c: Config, log: seq<Event>, log': seq<Event>, now: int, now': int, pc: Pc)
    requires log <= log' && now <= now' && PcOk(c, log, now, pc)
    ensures PcOk(c, log', now', pc)
  {
    if pc.Holding? {
      WasStoredStable(c, log, log', pc.path, pc.data, pc.readAt);
    }
  }

  lemma PcsKept(c: Config, s: State, s': State, t: Thread)
    requires forall u | u in s.pcs :: PcOk(c, s.sh.log, s.sh.now, s.pcs[u])
    requires s.sh.log <= s'.sh.log && s.sh.now <= s'.sh.now
    requires forall u | u in s'.pcs && u != t :: u in s.pcs && s'.pcs[u] == s.pcs[u]
    requires t in s'.pcs ==> PcOk(c, s'.sh.log, s'.sh.now, s'.pcs[t])
    ensures forall u | u in s'.pcs :: PcOk(c, s'.sh.log, s'.sh.now, s'.pcs[u])
  {
    forall u | u in s'.pcs && u != t
      ensures PcOk(c, s'.sh.log, s'.sh.now, s'.pcs[u])
    {
      PcStable(c, s.sh.log, s'.sh.log, s.sh.now, s'.sh.now, s.pcs[u]);
    }
  }

  lemma DataMove(c: Config, s: State, t: Thread, move: Move)
    requires DataOk(c, s)
    ensures DataOk(c, Step(c, s, Do(t, move)))
  {
    var pc, w, l := PcOf(s, t), WriterFree(s), LockFree(s);
    ActHistory(c, s.sh, pc, move, w, l);
    ActEntries(c, s.sh, pc, move, w, l);
    ActPc(c, s.sh, pc, move, w, l);
    ActInvalidations(c, s.sh, pc, move, w, l);
    PcsKept(c, s, Step(c, s, Do(t, move)), t);
  }

  lemma InvalidationsLog(sh: Shared, sh': Shared, e: Event)
    requires InvalidationsOk(sh) && !e.CacheInvalidated?
    requires sh'.log == sh.log + [e] && sh'.fills == sh.fills
    ensures InvalidationsOk(sh')
  {
  }

  lemma DataExternalWrite(c: Config, s: State, path: string, update: Option<Raw>)
    requires DataOk(c, s)
    ensures DataOk(c, Step(c, s, ExternalWrite(path, update)))
  {
    var e := Written(path, update, true);
    var s' := Step(c, s, ExternalWrite(path, update));
    StoreLog(c, s.sh.log, e);
    InvalidationsLog(s.sh, s'.sh, e);
    EntriesStable(c, s.sh, s'.sh);
    forall t | t in s'.pcs
      ensures PcOk(c, s'.sh.log, s'.sh.now, s'.pcs[t])
    {
      PcStable(c, s.sh.log, s'.sh.log, s.sh.now, s'.sh.now, s.pcs[t]);
    }
  }

  lemma DataStep(c: Config, s: State, a: Action)
    requires DataOk(c, s)
    ensures DataOk(c, Step(c, s, a))
  {
    match a
    case Do(t, move) => DataMove(c, s, t, move);
    case ExternalWrite(path, update) => DataExternalWrite(c, s, path, update);
    case Tick(_) =>
      EntriesStable(c, s.sh, Step(c, s, a).sh);
      forall t | t in s.pcs
        ensures PcOk(c, s.sh.log, Step(c, s, a).sh.now, s.pcs[t])
      {
        PcStable(c, s.sh.log, s.sh.log, s.sh.now, Step(c, s, a).sh.now, s.pcs[t]);
      }
  }

  lemma {:induction false} RunInv(c: Config, schedule: seq<Action>)
    ensures Inv(c, Run(c, schedule))
  {
    if schedule != [] {
      var s, a := Run(c, schedule[..|schedule| - 1]), schedule[|schedule| - 1];
      RunInv(c, schedule[..|schedule| - 1]);
      DataStep(c, s, a);
      CloseStep(c, s, a);
      SilenceStep(c, s, a);
      if c.enableCache {
        WritesStep(c, s, a);
      }
    }
  }

  // ---- What is served was stored, and from the cache no longer than the TTL ----

  // The answer logged at instant k was in the store at an instant r of the past. If it did not come from
  // the cache, r lies within the call that served it. If it did, its fill is that of that very read and
  // lies between r and k: the clock at the read is at most that at the fill, which is at most a TTL ago.
  ghost predicate ServedOk(c: Config, log: seq<Event>, k: nat)
    requires k < |log|
  {
    log[k].Served? ==>
      exists r | 0 <= r <= k :: WasStored(c, log, log[k].path, log[k].data, r) && ReadOk(c, log, k, r)
  }

  ghost predicate ReadOk(c: Config, log: seq<Event>, k: nat, r: nat)
    requires k < |log| && log[k].Served?
  {
    match log[k].source
    case FromCache(f) => r <= f < k && FilledFrom(c, log, k, r, f)
    case FromStore(since) => since <= r
  }

  predicate FilledFrom(c: Config, log: seq<Event>, k: nat, r: nat, f: nat)
    requires f < k < |log| && log[k].Served?
  {
    && log[f].CacheFilled? && log[f].path == log[k].path && log[f].data == log[k].data && log[f].readAt == r
    && log[f].readTime <= log[f].time <= log[k].time <= log[f].time + c.ttl
  }

  lemma ServedStable(c: Config, log: seq<Event>, log': seq<Event>, k: nat)
    requires log <= log' && k < |log| && ServedOk(c, log, k)
    ensures ServedOk(c, log', k)
  {
    if log[k].Served? {
      var r :| 0 <= r <= k && WasStored(c, log, log[k].path, log[k].data, r) && ReadOk(c, log, k, r);
      WasStoredStable(c, log, log', log[k].path, log[k].data, r);
      assert ReadOk(c, log', k, r);
    }
  }

  lemma HitServed(c: Config, sh: Shared, path: string)
    requires EntriesOk(c, sh) && Lookup(sh.cache, path, sh.now).Some?
    ensures ServedOk(c, sh.log + [Served(path, sh.cache[path].data, sh.now, FromCache(EntryFill(sh, path)))], |sh.log|)
  {
    var f := EntryFill(sh, path);
    var log' := sh.log + [Served(path, sh.cache[path].data, sh.now, FromCache(f))];
    assert EntryOk(c, sh.log, sh.now, path, sh.cache[path], f);
    var r := sh.log[f].readAt;
    WasStoredStable(c, sh.log, log', path, sh.cache[path].data, r);
    assert ReadOk(c, log', |sh.log|, r);
  }

  lemma FillServed(c: Config, sh: Shared, path: string, data: SecretData, since: nat, readAt: nat, readTime: int)
    requires WasStored(c, sh.log, path, data, readAt) && since <= readAt
    ensures var log' := Fill(c, sh, path, data, since, readAt, readTime).log;
            !log'[|sh.log|].Served? && ServedOk(c, log', |sh.log| + 1)
  {
    var log' := Fill(c, sh, path, data, since, readAt, readTime).log;
    WasStoredStable(c, sh.log, log', path, data, readAt);
    assert log'[|sh.log| + 1] == Served(path, data, sh.now, FromStore(since));
    assert ReadOk(c, log', |sh.log| + 1, readAt);
  }

  lemma UncachedServed(c: Config, sh: Shared, path: string, since: nat)
    requires sh.store == StoreAt(c, sh.log, |sh.log|) && path in sh.store && since <= |sh.log|
    ensures ServedOk(c, sh.log + [Served(path, Decode(sh.store[path]), sh.now, FromStore(since))], |sh.log|)
  {
    var log' := sh.log + [Served(path, Decode(sh.store[path]), sh.now, FromStore(since))];
    StoreAtPrefix(c, sh.log, log', |sh.log|);
    assert WasStored(c, log', path, Decode(sh.store[path]), |sh.log|);
    assert ReadOk(c, log', |sh.log|, |sh.log|);
  }

  lemma SilentMoves(c: Config, sh: Shared, pc: Pc, move: Move, w: bool, l: bool)
    requires !(move.StartGet? && pc.Idle?) && !(move.ReadStore? && pc.Locked?) && !(move.FillCache? && pc.Holding?)
    ensures var sh' := Act(c, sh, pc, move, w, l).0;
            forall k | |sh.log| <= k < |sh'.log| :: !sh'.log[k].Served?
  {
  }

  ghost predicate NewServedOk(c: Config, sh: Shared, sh': Shared) {
    forall k | |sh.log| <= k < |sh'.log| :: ServedOk(c, sh'.log, k)
  }

  lemma GetServed(c: Config, sh: Shared, path: string, w: bool, l: bool)
    requires EntriesOk(c, sh)
    ensures NewServedOk(c, sh, Act(c, sh, Idle, StartGet(path), w, l).0)
  {
    if Lookup(sh.cache, path, sh.now).Some? {
      HitServed(c, sh, path);
    }
  }

  lemma ReadServed(c: Config, sh: Shared, pc: Pc, fails: bool, w: bool, l: bool)
    requires sh.store == StoreAt(c, sh.log, |sh.log|) && pc.Locked? && PcOk(c, sh.log, sh.now, pc)
    ensures NewServedOk(c, sh, Act(c, sh, pc, ReadStore(fails), w, l).0)
  {
    if pc.path in sh.store {
      UncachedServed(c, sh, pc.path, pc.since);
    }
  }

  lemma ServedMove(c: Config, sh: Shared, pc: Pc, move: Move, w: bool, l: bool)
    requires sh.store == StoreAt(c, sh.log, |sh.log|) && EntriesOk(c, sh) && PcOk(c, sh.log, sh.now, pc)
    ensures NewServedOk(c, sh, Act(c, sh, pc, move, w, l).0)
  {
    if move.StartGet? && pc.Idle? {
      GetServed(c, sh, move.path, w, l);
    } else if move.FillCache? && pc.Holding? {
      FillServed(c, sh, pc.path, pc.data, pc.since, pc.readAt, pc.readTime);
    } else if move.ReadStore? && pc.Locked? {
      ReadServed(c, sh, pc, move.fails, w, l);
    } else {
      SilentMoves(c, sh, pc, move, w, l);
    }
  }

  lemma ServedStep(c: Config, s: State, a: Action, k: nat)
    requires DataOk(c, s) && |s.sh.log| <= k < |Step(c, s, a).sh.log|
    ensures ServedOk(c, Step(c, s, a).sh.log, k)
  {
    if a.Do? {
      ServedMove(c, s.sh, PcOf(s, a.t), a.move, WriterFree(s), LockFree(s));
    }
  }

  lemma LogGrows(c: Config, s: State, a: Action)
    ensures s.sh.log <= Step(c, s, a).sh.log
  {
    if a.Do? {
      ActLog(c, s.sh, PcOf(s, a.t), a.move, WriterFree(s), LockFree(s));
    }
  }

  lemma {:induction false} EveryAnswerWasStored(c: Config, schedule: seq<Action>, k: nat)
    requires k < |Run(c, schedule).sh.log|
    ensures ServedOk(c, Run(c, schedule).sh.log, k)
  {
    if schedule != [] {
      var s, a := Run(c, schedule[..|schedule| - 1]), schedule[|schedule| - 1];
      if k < |s.sh.log| {
        EveryAnswerWasStored(c, schedule[..|schedule| - 1], k);
        LogGrows(c, s, a);
        ServedStable(c, s.sh.log, Step(c, s, a).sh.log, k);
      } else {
        RunInv(c, schedule[..|schedule| - 1]);
        ServedStep(c, s, a, k);
      }
    }
  }

  // ---- The store and the answers, read off the history ----

  // The last write to a path before instant n.
  ghost predicate LastWrite(log: seq<Event>, path: string, n: nat, w: int) {
    0 <= w < n && WrittenAt(log, path, w) && forall i | w < i < n :: !WrittenAt(log, path, i)
  }

  ghost predicate Unwritten(log: seq<Event>, path: string, n: nat) {
    forall i | 0 <= i < n :: !WrittenAt(log, path, i)
  }

  lemma {:induction false} StoreAtIs(c: Config, log: seq<Event>, path: string, n: nat)
    requires n <= |log|
    ensures forall w | LastWrite(log, path, n, w) ::
      && (path in StoreAt(c, log, n) <==> log[w].update.Some?)
      && (log[w].update.Some? ==> StoreAt(c, log, n)[path] == log[w].update.value)
    ensures Unwritten(log, path, n) ==>
      && (path in StoreAt(c, log, n) <==> path in c.initial)
      && (path in c.initial ==> StoreAt(c, log, n)[path] == c.initial[path])
  {
    if n > 0 {
      StoreAtIs(c, log, path, n - 1);
      forall w | LastWrite(log, path, n, w) && w < n - 1
        ensures LastWrite(log, path, n - 1, w) && !WrittenAt(log, path, n - 1)
      {
      }
      assert Unwritten(log, path, n) ==> !WrittenAt(log, path, n - 1);
    }
  }

  // In every reachable state, what is stored at a path is what the last write to it wrote, and nothing
  // if that was a deletion; a path never written is as it was initially.
  lemma StoreFollowsWrites(c: Config, schedule: seq<Action>, path: string)
    ensures var (store, log) := (Run(c, schedule).sh.store, Run(c, schedule).sh.log);
            && (forall w | LastWrite(log, path, |log|, w) ::
                  (path in store <==> log[w].update.Some?) && (log[w].update.Some? ==> store[path] == log[w].update.value))
            && (Unwritten(log, path, |log|) ==>
                  (path in store <==> path in c.initial) && (path in c.initial ==> store[path] == c.initial[path]))
  {
    RunInv(c, schedule);
    StoreAtIs(c, Run(c, schedule).sh.log, path, |Run(c, schedule).sh.log|);
  }

  lemma {:induction false} LastWriteExists(log: seq<Event>, path: string, n: nat) returns (w: nat)
    requires !Unwritten(log, path, n)
    ensures LastWrite(log, path, n, w)
  {
    if WrittenAt(log, path, n - 1) {
      w := n - 1;
    } else {
      w := LastWriteExists(log, path, n - 1);
    }
  }

  // The data is what the last write before instant r wrote, or what was there initially.
  ghost predicate WrittenLast(c: Config, log: seq<Event>, path: string, data: SecretData, r: nat) {
    if Unwritten(log, path, r) then path in c.initial && data == Decode(c.initial[path])
    else exists w :: LastWrite(log, path, r, w) && log[w].update.Some? && data == Decode(log[w].update.value)
  }

  lemma StoredWasWritten(c: Config, log: seq<Event>, path: string, data: SecretData, r: nat)
    requires WasStored(c, log, path, data, r)
    ensures WrittenLast(c, log, path, data, r)
  {
    StoreAtIs(c, log, path, r);
    if !Unwritten(log, path, r) {
      var w := LastWriteExists(log, path, r);
    }
  }

  // Every answer is the last write before its read.
  lemma AnswersFollowWrites(c: Config, schedule: seq<Action>, k: nat)
    requires k < |Run(c, schedule).sh.log| && Run(c, schedule).sh.log[k].Served?
    ensures var log := Run(c, schedule).sh.log;
            exists r | 0 <= r <= k :: WrittenLast(c, log, log[k].path, log[k].data, r) && ReadOk(c, log, k, r)
  {
    EveryAnswerWasStored(c, schedule, k);
    var log := Run(c, schedule).sh.log;
    var r :| 0 <= r <= k && WasStored(c, log, log[k].path, log[k].data, r) && ReadOk(c, log, k, r);
    StoredWasWritten(c, log, log[k].path, log[k].data, r);
  }

  // What a deletion removed and nobody wrote since is served by no call that locked after it, and from no
  // entry that was read after it.
  lemma DeletedIsGone(c: Config, schedule: seq<Action>, w: nat, k: nat)
    requires var log := Run(c, schedule).sh.log;
             && w < |log| && log[w].Written? && log[w].update.None?
             && (forall i | w < i < |log| :: !WrittenAt(log, log[w].path, i))
             && k < |log| && log[k].Served? && log[k].path == log[w].path
    ensures var log := Run(c, schedule).sh.log;
            match log[k].source
            case FromStore(since) => since <= w
            case FromCache(f) => f < k && log[f].CacheFilled? && log[f].readAt <= w
  {
    AnswersFollowWrites(c, schedule, k);
    var log := Run(c, schedule).sh.log;
    var r :| 0 <= r <= k && WrittenLast(c, log, log[k].path, log[k].data, r) && ReadOk(c, log, k, r);
    ReadBefore(c, log, log[k].path, log[k].data, r, w);
  }

  lemma ReadBefore(c: Config, log: seq<Event>, path: string, data: SecretData, r: nat, w: nat)
    requires r <= |log| && WrittenAt(log, path, w) && log[w].update.None?
    requires forall i | w < i < |log| :: !WrittenAt(log, path, i)
    requires WrittenLast(c, log, path, data, r)
    ensures r <= w
  {
    if !Unwritten(log, path, r) {
      var v :| LastWrite(log, path, r, v) && log[v].update.Some?;
      assert WrittenAt(log, path, v);
    }
  }

  ghost predicate MissingOk(c: Config, log: seq<Event>, k: nat)
    requires k < |log|
  {
    log[k].Failed? && log[k].error == NotFound ==> log[k].path !in StoreAt(c, log, k)
  }

  lemma MissingMove(c: Config, sh: Shared, pc: Pc, move: Move, w: bool, l: bool)
    ensures var log := Act(c, sh, pc, move, w, l).0.log;
            forall k | |sh.log| <= k < |log| && log[k].Failed? && log[k].error == NotFound ::
              k == |sh.log| && log[k].path !in sh.store
  {
  }

  lemma MissingStep(c: Config, s: State, a: Action, k: nat)
    requires s.sh.store == StoreAt(c, s.sh.log, |s.sh.log|) && |s.sh.log| <= k < |Step(c, s, a).sh.log|
    ensures MissingOk(c, Step(c, s, a).sh.log, k)
  {
    LogGrows(c, s, a);
    StoreAtPrefix(c, s.sh.log, Step(c, s, a).sh.log, |s.sh.log|);
    if a.Do? {
      MissingMove(c, s.sh, PcOf(s, a.t), a.move, WriterFree(s), LockFree(s));
    }
  }

  lemma {:induction false} MissingHolds(c: Config, schedule: seq<Action>, k: nat)
    requires k < |Run(c, schedule).sh.log|
    ensures MissingOk(c, Run(c, schedule).sh.log, k)
  {
    if schedule != [] {
      var s, a := Run(c, schedule[..|schedule| - 1]), schedule[|schedule| - 1];
      if k < |s.sh.log| {
        MissingHolds(c, schedule[..|schedule| - 1], k);
        LogGrows(c, s, a);
        StoreAtPrefix(c, s.sh.log, Step(c, s, a).sh.log, k);
      } else {
        RunInv(c, schedule[..|schedule| - 1]);
        MissingStep(c, s, a, k);
      }
    }
  }

  // A secret is reported missing only if its last write was a deletion, or it was never there.
  lemma MissingIsHonest(c: Config, schedule: seq<Action>, k: nat)
    requires k < |Run(c, schedule).sh.log| && Run(c, schedule).sh.log[k].Failed?
    requires Run(c, schedule).sh.log[k].error == NotFound
    ensures var log := Run(c, schedule).sh.log;
            && (Unwritten(log, log[k].path, k) ==> log[k].path !in c.initial)
            && (forall w | LastWrite(log, log[k].path, k, w) :: log[w].update.None?)
  {
    MissingHolds(c, schedule, k);
    StoreAtIs(c, Run(c, schedule).sh.log, Run(c, schedule).sh.log[k].path, k);
  }

  // ---- The cache, read off the history ----

  predicate TouchesEntry(e: Event, path: string) {
    ((e.CacheFilled? || e.CacheInvalidated?) && e.path == path) || e.CloseReturned?
  }

  ghost predicate LastTouch(log: seq<Event>, path: string, f: int) {
    0 <= f < |log| && TouchesEntry(log[f], path) && forall j | f < j < |log| :: !TouchesEntry(log[j], path)
  }

  // An entry is cached exactly if the last event that touched its path filled it, and is what was filled in.
  ghost predicate CacheOk(c: Config, sh: Shared, path: string) {
    && (path in sh.cache ==> exists f :: LastTouch(sh.log, path, f) && sh.log[f].CacheFilled?)
    && (forall f | LastTouch(sh.log, path, f) && sh.log[f].CacheFilled? ::
          path in sh.cache && sh.cache[path] == CacheEntry(sh.log[f].data, sh.log[f].time + c.ttl))
  }

  lemma TouchMore(log: seq<Event>, e: Event, path: string, f: int)
    ensures LastTouch(log + [e], path, f) <==> if TouchesEntry(e, path) then f == |log| else LastTouch(log, path, f)
  {
    var more := log + [e];
    assert more[|log|] == e && forall j | 0 <= j < |log| :: more[j] == log[j];
  }

  // One event, and what it does to the entry of a path.
  lemma CacheOneMore(c: Config, sh: Shared, sh': Shared, e: Event, path: string)
    requires CacheOk(c, sh, path) && sh'.log == sh.log + [e]
    requires TouchesEntry(e, path) && !e.CacheFilled? ==> path !in sh'.cache
    requires TouchesEntry(e, path) && e.CacheFilled? ==>
      path in sh'.cache && sh'.cache[path] == CacheEntry(e.data, e.time + c.ttl)
    requires !TouchesEntry(e, path) ==>
      (path in sh'.cache <==> path in sh.cache) && (path in sh.cache ==> sh'.cache[path] == sh.cache[path])
    ensures CacheOk(c, sh', path)
  {
    forall f
      ensures LastTouch(sh'.log, path, f) <==>
        if TouchesEntry(e, path) then f == |sh.log| else LastTouch(sh.log, path, f)
    {
      TouchMore(sh.log, e, path, f);
    }
    if path in sh'.cache {
      if TouchesEntry(e, path) {
        assert LastTouch(sh'.log, path, |sh.log|);
      } else {
        var f :| LastTouch(sh.log, path, f) && sh.log[f].CacheFilled?;
        assert LastTouch(sh'.log, path, f);
      }
    }
  }

  lemma CacheFill(c: Config, sh: Shared, p: string, data: SecretData, since: nat, readAt: nat, readTime: int, path: string)
    requires CacheOk(c, sh, path)
    ensures CacheOk(c, Fill(c, sh, p, data, since, readAt, readTime), path)
  {
    var sh' := Fill(c, sh, p, data, since, readAt, readTime);
    var e := CacheFilled(p, data, readAt, readTime, sh.now);
    var middle := sh'.(log := sh.log + [e]);
    CacheOneMore(c, sh, middle, e, path);
    CacheOneMore(c, middle, sh', Served(p, data, sh.now, FromStore(since)), path);
  }

  lemma OtherMoves(c: Config, sh: Shared, pc: Pc, move: Move, w: bool, l: bool, path: string)
    requires !(move.FillCache? && pc.Holding?)
    requires sh.closed && l ==> sh.cache == map[]
    ensures var sh' := Act(c, sh, pc, move, w, l).0;
            || (sh'.log == sh.log && sh'.cache == sh.cache)
            || (|sh'.log| == |sh.log| + 1 && sh.log <= sh'.log
                && var e := sh'.log[|sh.log|];
                   && !e.CacheFilled?
                   && (TouchesEntry(e, path) ==> path !in sh'.cache)
                   && (!TouchesEntry(e, path) ==>
                         (path in sh'.cache <==> path in sh.cache) && (path in sh.cache ==> sh'.cache[path] == sh.cache[path])))
  {
    match move
    case Invalidate =>
    case StartClose =>
    case FinishClose =>
    case _ => assert Act(c, sh, pc, move, w, l).0.cache == sh.cache;
  }

  lemma CacheStep(c: Config, s: State, a: Action, path: string)
    requires CacheOk(c, s.sh, path) && CloseOk(c, s)
    ensures CacheOk(c, Step(c, s, a).sh, path)
  {
    var sh' := Step(c, s, a).sh;
    match a
    case Tick(_) =>
    case ExternalWrite(p, update) => CacheOneMore(c, s.sh, sh', Written(p, update, true), path);
    case Do(t, move) => CacheMove(c, s.sh, PcOf(s, t), move, WriterFree(s), LockFree(s), path);
  }

  lemma CacheMove(c: Config, sh: Shared, pc: Pc, move: Move, w: bool, l: bool, path: string)
    requires CacheOk(c, sh, path) && (sh.closed && l ==> sh.cache == map[])
    ensures CacheOk(c, Act(c, sh, pc, move, w, l).0, path)
  {
    if move.FillCache? && pc.Holding? {
      CacheFill(c, sh, pc.path, pc.data, pc.since, pc.readAt, pc.readTime, path);
    } else {
      var sh' := Act(c, sh, pc, move, w, l).0;
      OtherMoves(c, sh, pc, move, w, l, path);
      if sh'.log != sh.log {
        assert sh'.log == sh.log + [sh'.log[|sh.log|]];
        CacheOneMore(c, sh, sh', sh'.log[|sh.log|], path);
      }
    }
  }

  // In every reachable state: the cache holds an entry for a path exactly if the last event that touched
  // the path, by filling, invalidating or closing, filled it; and the entry is what was filled in, until a
  // TTL later.
  lemma {:induction false} CacheFollowsHistory(c: Config, schedule: seq<Action>, path: string)
    ensures CacheOk(c, Run(c, schedule).sh, path)
  {
    if schedule != [] {
      RunInv(c, schedule[..|schedule| - 1]);
      CacheFollowsHistory(c, schedule[..|schedule| - 1], path);
      CacheStep(c, Run(c, schedule[..|schedule| - 1]), schedule[|schedule| - 1], path);
    }
  }

  ghost predicate CacheOff(s: State) {
    s.sh.cache == map[] && s.sh.fills == map[] && forall t | t in s.pcs :: !s.pcs[t].Holding? && !s.pcs[t].Wrote?
  }

  lemma OffMove(c: Config, sh: Shared, pc: Pc, move: Move, w: bool, l: bool)
    requires !c.enableCache && sh.cache == map[] && sh.fills == map[] && !pc.Holding? && !pc.Wrote?
    ensures var (sh', pc') := Act(c, sh, pc, move, w, l);
            sh'.cache == map[] && sh'.fills == map[] && !pc'.Holding? && !pc'.Wrote?
  {
  }

  // With caching off nothing is ever cached.
  lemma {:induction false} CacheOffStaysEmpty(c: Config, schedule: seq<Action>)
    requires !c.enableCache
    ensures CacheOff(Run(c, schedule))
  {
    if schedule != [] {
      var s, a := Run(c, schedule[..|schedule| - 1]), schedule[|schedule| - 1];
      CacheOffStaysEmpty(c, schedule[..|schedule| - 1]);
      if a.Do? {
        OffMove(c, s.sh, PcOf(s, a.t), a.move, WriterFree(s), LockFree(s));
      }
    }
  }

  lemma InvalidatesOwn(c: Config, sh: Shared, pc: Pc, move: Move, w: bool, l: bool)
    requires PcOk(c, sh.log, sh.now, pc)
    ensures var log := Act(c, sh, pc, move, w, l).0.log;
            forall j | |sh.log| <= j < |log| && log[j].CacheInvalidated? ::
              log[j].wroteAt < |sh.log| && ClientWrite(sh.log, log[j].path, log[j].wroteAt)
  {
  }

  // Only a write that this client has completed invalidates, and only its own path.
  lemma {:induction false} InvalidatedAfterWrite(c: Config, schedule: seq<Action>, j: nat)
    requires j < |Run(c, schedule).sh.log| && Run(c, schedule).sh.log[j].CacheInvalidated?
    ensures var log := Run(c, schedule).sh.log; log[j].wroteAt < j && ClientWrite(log, log[j].path, log[j].wroteAt)
  {
    var s, a := Run(c, schedule[..|schedule| - 1]), schedule[|schedule| - 1];
    LogGrows(c, s, a);
    if j < |s.sh.log| {
      InvalidatedAfterWrite(c, schedule[..|schedule| - 1], j);
    } else {
      RunInv(c, schedule[..|schedule| - 1]);
      InvalidatesOwn(c, s.sh, PcOf(s, a.t), a.move, WriterFree(s), LockFree(s));
    }
  }

  // ---- When the cache agrees with the store ----

  // The instants between which the entry cached on a path was read from the store and filled.
  function Window(sh: Shared, path: string): (nat, nat) {
    if path in sh.fills && sh.fills[path] < |sh.log| && sh.log[sh.fills[path]].CacheFilled? then
      (sh.log[sh.fills[path]].readAt, sh.fills[path])
    else (0, 0)
  }

  // Between instants r and f no write of this client on the path both happened and was invalidated.
  ghost predicate CleanWindow(log: seq<Event>, path: string, r: nat, f: nat) {
    forall i, j | r <= i < j < f && j < |log| && ClientWrite(log, path, i) :: log[j] != CacheInvalidated(path, i)
  }

  ghost predicate InvalidationPending(s: State, path: string) {
    exists t | t in s.pcs :: s.pcs[t].Wrote? && s.pcs[t].path == path
  }

  ghost predicate UnwrittenSince(log: seq<Event>, path: string, r: nat) {
    forall i | r <= i < |log| :: !WrittenAt(log, path, i)
  }

  // An entry on which no invalidation is pending is up to date exactly when its read-to-fill
  // window is clean, and then it is the view of the stored object. Other writers of the path since
  // the read are excluded: nothing in the client can notice them.
  lemma UpToDateIffCleanWindow(c: Config, schedule: seq<Action>, path: string)
    requires c.enableCache
    requires var s := Run(c, schedule);
             && path in s.sh.cache && !InvalidationPending(s, path)
             && forall i | Window(s.sh, path).0 <= i :: WrittenAt(s.sh.log, path, i) ==> !s.sh.log[i].external
    ensures var s := Run(c, schedule);
            var (r, f) := Window(s.sh, path);
            && (CleanWindow(s.sh.log, path, r, f) <==> UnwrittenSince(s.sh.log, path, r))
            && (CleanWindow(s.sh.log, path, r, f) ==>
                  path in s.sh.store && s.sh.cache[path].data == Decode(s.sh.store[path]))
  {
    RunInv(c, schedule);
    var s := Run(c, schedule);
    var log := s.sh.log;
    var (r, f) := Window(s.sh, path);
    assert EntryOk(c, log, s.sh.now, path, s.sh.cache[path], f);
    if UnwrittenSince(log, path, r) {
      UnwrittenKeeps(c, log, path, r, |log|);
    } else {
      var i :| r <= i < |log| && WrittenAt(log, path, i);
      assert ClientWrite(log, path, i) && !PendingOn(s, path, i);
      var j :| i < j < |log| && log[j] == CacheInvalidated(path, i);
      assert j < s.sh.fills[path];
    }
  }

  // If only this client writes and every fill has a clean window, then whenever no invalidation
  // is pending on a path, what is cached there is what is stored there.
  lemma CleanRunsAreCoherent(c: Config, schedule: seq<Action>, path: string)
    requires c.enableCache
    requires var log := Run(c, schedule).sh.log;
             forall k | 0 <= k < |log| ::
               && (log[k].Written? ==> !log[k].external)
               && (log[k].CacheFilled? ==> CleanWindow(log, log[k].path, log[k].readAt, k))
    requires !InvalidationPending(Run(c, schedule), path)
    ensures var sh := Run(c, schedule).sh;
            path in sh.cache ==> path in sh.store && sh.cache[path].data == Decode(sh.store[path])
  {
    RunInv(c, schedule);
    var sh := Run(c, schedule).sh;
    if path in sh.cache {
      assert EntryOk(c, sh.log, sh.now, path, sh.cache[path], sh.fills[path]);
      UpToDateIffCleanWindow(c, schedule, path);
    }
  }

  function Steps(c: Config, s: State, actions: seq<Action>): State
    decreases |actions|
  {
    if actions == [] then s else Steps(c, Step(c, s, actions[0]), actions[1..])
  }

  lemma {:induction false} RunSteps(c: Config, schedule: seq<Action>, actions: seq<Action>)
    ensures Run(c, schedule + actions) == Steps(c, Run(c, schedule), actions)
    decreases |actions|
  {
    if actions == [] {
      assert schedule + actions == schedule;
    } else {
      assert (schedule + [actions[0]])[..|schedule|] == schedule;
      assert schedule + actions == (schedule + [actions[0]]) + actions[1..];
      RunSteps(c, schedule + [actions[0]], actions[1..]);
    }
  }

  lemma WriteMoves(c: Config, s: State, u: Thread, path: string, update: Option<Raw>)
    requires c.enableCache && PcOf(s, u) == Idle && WriterFree(s) && !s.sh.closed
    ensures var s2 := Step(c, Step(c, s, Do(u, StartWrite(path, update))), Do(u, WriteStore(false)));
            s2 == State(Write(s.sh, path, update, false), s.pcs[u := Wrote(path, |s.sh.log|)])
  {
  }

  // From any state in which a reader holds an answer, a whole PutSecret or DeleteSecret by another
  // thread followed by the reader's fill caches the overtaken answer.
  lemma OvertakenReader(c: Config, s: State, t: Thread, u: Thread, update: Option<Raw>)
    requires c.enableCache && PcOf(s, t).Holding? && PcOf(s, u) == Idle && WriterFree(s) && !s.sh.closed
    ensures var path := PcOf(s, t).path;
            var s1 := Step(c, s, Do(u, StartWrite(path, update)));
            var s2 := Step(c, s1, Do(u, WriteStore(false)));
            var s4 := Step(c, Step(c, s2, Do(u, Invalidate)), Do(t, FillCache));
            && s4.sh.store == Updated(s.sh.store, path, update)
            && path in s4.sh.cache && s4.sh.cache[path].data == PcOf(s, t).data
            && s4.pcs == s.pcs[u := Idle][t := Idle]
  {
    WriteMoves(c, s, u, PcOf(s, t).path, update);
  }

  lemma ReaderMoves(c: Config, path: string)
    requires c.enableCache && path in c.initial
    ensures Steps(c, Run(c, []), [Do(0, StartGet(path)), Do(0, LockForRead), Do(0, ReadStore(false))])
         == State(Run(c, []).sh, map[0 := Holding(path, Decode(c.initial[path]), 0, 0, 0)])
  {
    var s := Run(c, []);
    var s1 := Step(c, s, Do(0, StartGet(path)));
    assert s1 == State(s.sh, map[0 := Missed(path)]);
    var s2 := Step(c, s1, Do(0, LockForRead));
    assert s2 == State(s.sh, map[0 := Locked(path, 0)]);
    var s3 := Step(c, s2, Do(0, ReadStore(false)));
    assert s3 == State(s.sh, map[0 := Holding(path, Decode(c.initial[path]), 0, 0, 0)]);
    assert Steps(c, s2, [Do(0, ReadStore(false))]) == s3;
    assert Steps(c, s1, [Do(0, LockForRead), Do(0, ReadStore(false))]) == s3;
  }

  // So without a clean window the cache can be wrong with nobody left to correct it.
  lemma StaleEntryExample() returns (c: Config, schedule: seq<Action>)
    ensures var s := Run(c, schedule);
            && c.enableCache && !InvalidationPending(s, "p")
            && "p" in s.sh.cache && "p" in s.sh.store
            && s.sh.cache["p"].data != Decode(s.sh.store["p"])
  {
    var older: Raw := map["k" := Text("old")];
    var newer: Raw := map["k" := Text("new")];
    c := Config(true, 300, false, false, map["p" := older]);
    var reader := [Do(0, StartGet("p")), Do(0, LockForRead), Do(0, ReadStore(false))];
    var rest := [Do(1, StartWrite("p", Some(newer))), Do(1, WriteStore(false)), Do(1, Invalidate), Do(0, FillCache)];
    var s := Run(c, reader);
    assert s == State(Run(c, []).sh, map[0 := Holding("p", Decode(older), 0, 0, 0)]) by {
      ReaderMoves(c, "p");
      RunSteps(c, [], reader);
      assert [] + reader == reader;
    }
    OvertakenReader(c, s, 0, 1, Some(newer));
    schedule := reader + rest;
    var s1 := Step(c, s, rest[0]);
    var s2 := Step(c, s1, rest[1]);
    var s3 := Step(c, s2, rest[2]);
    var s4 := Step(c, s3, rest[3]);
    assert Run(c, schedule) == s4 by {
      RunSteps(c, reader, rest);
      assert Steps(c, s3, rest[3..]) == s4;
      assert Steps(c, s2, rest[2..]) == s4;
      assert Steps(c, s1, rest[1..]) == s4;
    }
    assert Decode(older).data["k"] != Decode(newer).data["k"];
  }

  // ---- How old a cached answer can be ----

  lemma RunLast(c: Config, schedule: seq<Action>, a: Action)
    ensures Run(c, schedule + [a]) == Step(c, Run(c, schedule), a)
  {
    assert (schedule + [a])[..|schedule|] == schedule;
  }

  lemma {:induction false} RunGrows(c: Config, schedule: seq<Action>, more: seq<Action>)
    ensures Run(c, schedule).sh.log <= Run(c, schedule + more).sh.log
    decreases |more|
  {
    if more == [] {
      assert schedule + more == schedule;
    } else {
      var front, a := more[..|more| - 1], more[|more| - 1];
      assert schedule + more == schedule + front + [a];
      RunGrows(c, schedule, front);
      RunLast(c, schedule + front, a);
      LogGrows(c, Run(c, schedule + front), a);
    }
  }

  // Every answer from the entry filled at instant f is served at most a TTL after its store read.
  predicate FreshHits(c: Config, log: seq<Event>, f: nat) {
    && f < |log| && log[f].CacheFilled?
    && forall k | 0 <= k < |log| && log[k].Served? && log[k].source == FromCache(f) :: log[k].time <= log[f].readTime + c.ttl
  }

  lemma {:induction false} UnusedThread(ts: set<Thread>) returns (t: Thread)
    ensures forall u | u in ts :: u < t
  {
    if ts == {} {
      t := 0;
    } else {
      var u :| u in ts;
      var above := UnusedThread(ts - {u});
      t := if u < above then above else u + 1;
      assert forall v | v in ts :: v == u || v in ts - {u};
    }
  }

  lemma HitNow(c: Config, s: State, path: string, t: Thread, d: nat)
    requires c.enableCache && t !in s.pcs
    requires path in s.sh.cache && path in s.sh.fills && s.sh.now + d <= s.sh.cache[path].expiresAt
    ensures Step(c, Step(c, s, Tick(d)), Do(t, StartGet(path))).sh.log ==
      s.sh.log + [Served(path, s.sh.cache[path].data, s.sh.now + d, FromCache(s.sh.fills[path]))]
  {
  }

  // The latest hit an unexpired entry allows.
  lemma LastHit(c: Config, schedule: seq<Action>, path: string) returns (more: seq<Action>)
    requires c.enableCache
    requires var sh := Run(c, schedule).sh; path in sh.cache && path in sh.fills && sh.now <= sh.cache[path].expiresAt
    ensures var sh := Run(c, schedule).sh;
            Run(c, schedule + more).sh.log ==
              sh.log + [Served(path, sh.cache[path].data, sh.cache[path].expiresAt, FromCache(sh.fills[path]))]
  {
    var s := Run(c, schedule);
    var d := s.sh.cache[path].expiresAt - s.sh.now;
    var t := UnusedThread(s.pcs.Keys);
    more := [Tick(d), Do(t, StartGet(path))];
    assert schedule + more == schedule + [Tick(d)] + [Do(t, StartGet(path))];
    RunLast(c, schedule, Tick(d));
    RunLast(c, schedule + [Tick(d)], Do(t, StartGet(path)));
    HitNow(c, s, path, t, d);
  }

  lemma FreshFill(c: Config, schedule: seq<Action>, f: nat)
    requires var log := Run(c, schedule).sh.log;
             f < |log| && log[f].CacheFilled? && log[f].readTime == log[f].time
    ensures FreshHits(c, Run(c, schedule).sh.log, f)
  {
    var log := Run(c, schedule).sh.log;
    forall k | 0 <= k < |log| && log[k].Served? && log[k].source == FromCache(f)
      ensures log[k].time <= log[f].readTime + c.ttl
    {
      EveryAnswerWasStored(c, schedule, k);
      var r :| 0 <= r <= k && WasStored(c, log, log[k].path, log[k].data, r) && ReadOk(c, log, k, r);
    }
  }

  // In every reachable state, an entry that has not expired serves only answers at most a TTL after
  // their store read, however the run continues, exactly when no time passed between the read and the fill.
  lemma FreshIff(c: Config, schedule: seq<Action>, path: string)
    requires c.enableCache
    requires var sh := Run(c, schedule).sh; path in sh.cache && sh.now <= sh.cache[path].expiresAt
    ensures var sh := Run(c, schedule).sh;
            path in sh.fills && sh.fills[path] < |sh.log| && sh.log[sh.fills[path]].CacheFilled?
    ensures var (log, f) := (Run(c, schedule).sh.log, Run(c, schedule).sh.fills[path]);
            (forall more :: FreshHits(c, Run(c, schedule + more).sh.log, f)) <==> log[f].readTime == log[f].time
  {
    RunInv(c, schedule);
    var sh := Run(c, schedule).sh;
    var f := sh.fills[path];
    assert EntryOk(c, sh.log, sh.now, path, sh.cache[path], f);
    if sh.log[f].readTime == sh.log[f].time {
      forall more
        ensures FreshHits(c, Run(c, schedule + more).sh.log, f)
      {
        RunGrows(c, schedule, more);
        FreshFill(c, schedule + more, f);
      }
    } else {
      var more := LastHit(c, schedule, path);
      var log' := Run(c, schedule + more).sh.log;
      assert log'[|sh.log|].source == FromCache(f) && log'[f] == sh.log[f];
      assert !FreshHits(c, log', f);
    }
  }

  lemma LateFill(c: Config, s: State, t: Thread, d: nat)
    requires c.ttl >= 0 && c.enableCache && PcOf(s, t).Holding?
    ensures var (pc, now) := (PcOf(s, t), s.sh.now + d);
            var s2 := Step(c, Step(c, s, Tick(d)), Do(t, FillCache));
            Step(c, s2, Do(t, StartGet(pc.path))).sh.log == s.sh.log +
              [CacheFilled(pc.path, pc.data, pc.readAt, pc.readTime, now), Served(pc.path, pc.data, now, FromStore(pc.since)),
               Served(pc.path, pc.data, now, FromCache(|s.sh.log|))]
  {
  }

  // Otherwise the store may have been read any time d before a cached answer.
  lemma OldReadExample(c: Config, path: string, d: nat) returns (schedule: seq<Action>)
    requires c.enableCache && c.ttl >= 0 && path in c.initial
    ensures var data := Decode(c.initial[path]);
            Run(c, schedule).sh.log ==
              [CacheFilled(path, data, 0, 0, d), Served(path, data, d, FromStore(0)), Served(path, data, d, FromCache(0))]
  {
    var reader := [Do(0, StartGet(path)), Do(0, LockForRead), Do(0, ReadStore(false))];
    var s := Run(c, reader);
    assert s == State(Run(c, []).sh, map[0 := Holding(path, Decode(c.initial[path]), 0, 0, 0)]) by {
      ReaderMoves(c, path);
      RunSteps(c, [], reader);
      assert [] + reader == reader;
    }
    LateFill(c, s, 0, d);
    schedule := reader + [Tick(d)] + [Do(0, FillCache)] + [Do(0, StartGet(path))];
    RunLast(c, reader, Tick(d));
    RunLast(c, reader + [Tick(d)], Do(0, FillCache));
    RunLast(c, reader + [Tick(d)] + [Do(0, FillCache)], Do(0, StartGet(path)));
  }

  // ---- After Close ----

  // Once a Close has returned: the client is closed, the cache is empty, no answer has been served
  // since, and each stop channel was closed exactly as often as there is one to close.
  lemma NoSecretAfterClose(c: Config, schedule: seq<Action>, k: nat)
    requires var log := Run(c, schedule).sh.log; k < |log| && log[k].CloseReturned?
    ensures var s := Run(c, schedule);
            && s.sh.closed && s.sh.cache == map[]
            && (forall i | k < i < |s.sh.log| :: !s.sh.log[i].Served?)
            && s.sh.renewStopCloses == (if c.hasRenewer then 1 else 0)
            && s.sh.healthStopCloses == (if c.hasTicker then 1 else 0)
  {
    RunInv(c, schedule);
  }

  lemma RefusedMoves(c: Config, s: State, t: Thread, path: string)
    requires PcOf(s, t) == Idle && s.sh.closed && WriterFree(s) && s.sh.cache == map[]
    ensures var s' := Step(c, Step(c, s, Do(t, StartGet(path))), Do(t, LockForRead));
            PcOf(s', t) == Idle && s'.sh == Logged(s.sh, [Failed(path, NotInitialized)])
  {
  }

  // Every GetSecret started after that is refused.
  lemma RefusedAfterClose(c: Config, schedule: seq<Action>, k: nat, t: Thread, path: string)
    requires var log := Run(c, schedule).sh.log; k < |log| && log[k].CloseReturned?
    requires PcOf(Run(c, schedule), t) == Idle
    ensures var s := Run(c, schedule + [Do(t, StartGet(path))] + [Do(t, LockForRead)]);
            PcOf(s, t) == Idle && s.sh.log == Run(c, schedule).sh.log + [Failed(path, NotInitialized)]
  {
    RunInv(c, schedule);
    RefusedMoves(c, Run(c, schedule), t, path);
    RunLast(c, schedule, Do(t, StartGet(path)));
    RunLast(c, schedule + [Do(t, StartGet(path))], Do(t, LockForRead));
  }

  // In every run, closed or not, no stop channel is closed twice.
  lemma StopChannelsClosedOnce(c: Config, schedule: seq<Action>)
    ensures Run(c, schedule).sh.renewStopCloses <= 1 && Run(c, schedule).sh.healthStopCloses <= 1
  {
    RunInv(c, schedule);
  }
}
