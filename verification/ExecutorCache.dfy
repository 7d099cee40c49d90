/**
 The two-level-locked cache of stream_executor/executor_cache.cc as a state machine: any number of
 threads calling GetOrCreate and Get, each step an access to the map mutex, an entry's mutex, the
 map, one cached configuration, or the factory. The calls are shown to behave like atomic
 operations on one finite map from keys to executors.
 */
module ExecutorCache {
  import opened Basics

  // ---- Configurations --------------------------------------------------------------------------

  datatype PluginConfig = PluginConfig(blas: int, dnn: int, fft: int, rng: int)
  datatype DeviceOptions = DeviceOptions(flags: nat, nonPortableTags: map<string, string>)
  datatype Config = Config(ordinal: int, plugins: PluginConfig, options: DeviceOptions)

  /** What decides whether two configurations share an executor: non_portable_tags does not. */
  datatype Key = Key(ordinal: int, plugins: PluginConfig, flags: nat)

  function KeyOf(c: Config): Key {
    Key(c.ordinal, c.plugins, c.options.flags)
  }

  /** The comparison of the scan, among configurations of one ordinal. */
  predicate Matches(a: Config, b: Config) {
    a.plugins == b.plugins && a.options.flags == b.options.flags
  }

  // ---- States and steps ------------------------------------------------------------------------

  datatype Call = GetOrCreate(config: Config) | Get(config: Config)

  datatype Outcome =
    | Executor(executor: nat)
    | Failed(status: int)   // the factory's status
    | NoneForOrdinal        // NOT_FOUND: nothing registered for the ordinal
    | NoneMatching          // NOT_FOUND: no matching configuration

  datatype Pc =
    | Idle
    | WantsMap(call: Call)
    | HasMap(call: Call)                     // about to evaluate cache_[ordinal]
    | LeavesMap(call: Call)
    | WantsEntry(call: Call)
    | Scans(call: Call, next: nat)           // holds the entry
    | Builds(call: Call)                     // holds the entry, in factory()
    | Stores(call: Call, executor: nat)      // holds the entry, about to emplace_back
    | Leaves(call: Call, outcome: Outcome)   // holds the entry, about to return

  datatype Lock = Free | HeldBy(thread: nat)
  datatype Cached = Cached(config: Config, executor: nat)
  datatype Entry = Entry(lock: Lock, configurations: seq<Cached>)
  datatype Event = Event(call: Call, outcome: Outcome)

  /**
   `built`: the key each executor was built for, an executor being its position here.
   `history`: the calls in the order in which their outcomes were decided.
   */
  datatype State = State(mapLock: Lock, cache: map<int, Entry>, threads: seq<Pc>,
                         built: seq<Key>, history: seq<Event>)

  /** What the environment picks: the next call of an idle thread, the factory's result. */
  datatype Choice = Choice(call: Call, factoryOk: bool, status: int)

  function Goes(s: State, t: nat, pc: Pc): State
    requires t < |s.threads|
  {
    s.(threads := s.threads[t := pc])
  }

  function Decides(s: State, t: nat, call: Call, outcome: Outcome): State
    requires t < |s.threads|
  {
    Goes(s, t, Leaves(call, outcome)).(history := s.history + [Event(call, outcome)])
  }

  function SetEntry(s: State, ordinal: int, entry: Entry): State {
    s.(cache := s.cache[ordinal := entry])
  }

  /** One turn of the scan, or what follows it. */
  function ScanStep(s: State, t: nat, call: Call, next: nat, configurations: seq<Cached>): State
    requires t < |s.threads|
  {
    if call.Get? && configurations == [] then Decides(s, t, call, NoneForOrdinal)
    else if next < |configurations| then
      if Matches(configurations[next].config, call.config)
      then Decides(s, t, call, Executor(configurations[next].executor))
      else Goes(s, t, Scans(call, next + 1))
    else if call.Get? then Decides(s, t, call, NoneMatching)
    else Goes(s, t, Builds(call))
  }

  /** emplace_back. */
  function StoreStep(s: State, t: nat, call: Call, executor: nat, entry: Entry): State
    requires t < |s.threads|
  {
    var stored := entry.configurations + [Cached(call.config, executor)];
    SetEntry(Decides(s, t, call, Executor(executor)), call.config.ordinal, entry.(configurations := stored))
  }

  /** A step of a thread that holds the entry of its ordinal, or waits for it. */
  function EntryStep(s: State, t: nat, pc: Pc, c: Choice, entry: Entry): Option<State>
    requires t < |s.threads| && (pc.WantsEntry? || InEntry(pc))
  {
    var ordinal := pc.call.config.ordinal;
    match pc
    case WantsEntry(call) =>
      if entry.lock.Free?
      then Some(SetEntry(Goes(s, t, Scans(call, 0)), ordinal, entry.(lock := HeldBy(t))))
      else None
    case Scans(call, next) => Some(ScanStep(s, t, call, next, entry.configurations))
    case Builds(call) =>
      if c.factoryOk
      then Some(Goes(s, t, Stores(call, |s.built|)).(built := s.built + [KeyOf(call.config)]))
      else Some(Decides(s, t, call, Failed(c.status)))
    case Stores(call, executor) => Some(StoreStep(s, t, call, executor, entry))
    case Leaves(call, _) => Some(SetEntry(Goes(s, t, Idle), ordinal, entry.(lock := Free)))
  }

  /** The next step of thread t; None when it must wait for a lock. */
  function Step(s: State, t: nat, c: Choice): Option<State>
    requires t < |s.threads|
  {
    var pc := s.threads[t];
    match pc
    case Idle => Some(Goes(s, t, WantsMap(c.call)))
    case WantsMap(call) =>
      if s.mapLock.Free? then Some(Goes(s, t, HasMap(call)).(mapLock := HeldBy(t))) else None
    case HasMap(call) =>
      var ordinal := call.config.ordinal;
      var next := Goes(s, t, LeavesMap(call));
      Some(if ordinal in s.cache then next else SetEntry(next, ordinal, Entry(Free, [])))
    case LeavesMap(call) => Some(Goes(s, t, WantsEntry(call)).(mapLock := Free))
    case _ =>
      var ordinal := pc.call.config.ordinal;
      if ordinal in s.cache then EntryStep(s, t, pc, c, s.cache[ordinal]) else None
  }

  predicate InMap(pc: Pc) {
    pc.HasMap? || pc.LeavesMap?
  }

  predicate InEntry(pc: Pc) {
    pc.Scans? || pc.Builds? || pc.Stores? || pc.Leaves?
  }

  ghost predicate Init(s: State) {
    && s.mapLock == Free && s.cache == map[] && s.built == [] && s.history == []
    && forall t | 0 <= t < |s.threads| :: s.threads[t] == Idle
  }

  ghost predicate StepsTo(s: State, t: nat, c: Choice, s': State) {
    t < |s.threads| && Step(s, t, c) == Some(s')
  }

  ghost predicate Next(s: State, s': State) {
    exists t: nat, c :: StepsTo(s, t, c, s')
  }

  ghost predicate IsRun(run: seq<State>) {
    && |run| > 0 && Init(run[0])
    && forall k | 0 <= k < |run| - 1 :: Next(run[k], run[k + 1])
  }

  // ---- The simple map --------------------------------------------------------------------------

  /** The map after the calls of h, one at a time. */
  function Replay(h: seq<Event>): map<Key, nat> {
    if h == [] then map[]
    else
      var m, last := Replay(h[..|h| - 1]), h[|h| - 1];
      if last.outcome.Executor? then m[KeyOf(last.call.config) := last.outcome.executor] else m
  }

  /** What a call on the simple map may answer. */
  ghost predicate Answers(m: map<Key, nat>, event: Event) {
    var key := KeyOf(event.call.config);
    if key in m then event.outcome == Executor(m[key])
    else
      match event.call
      case GetOrCreate(_) =>
        event.outcome.Failed? || (event.outcome.Executor? && event.outcome.executor !in m.Values)
      case Get(_) =>
        event.outcome == if exists k :: k in m && k.ordinal == key.ordinal then NoneMatching else NoneForOrdinal
  }

  ghost predicate Legal(h: seq<Event>) {
    forall n | 0 <= n < |h| :: Answers(Replay(h[..n]), h[n])
  }

  // ---- The invariant ---------------------------------------------------------------------------

  ghost predicate MapLockOk(s: State) {
    && (forall t: nat | t < |s.threads| && InMap(s.threads[t]) :: s.mapLock == HeldBy(t))
    && (s.mapLock.HeldBy? ==> s.mapLock.thread < |s.threads| && InMap(s.threads[s.mapLock.thread]))
  }

  /** Thread t is where it says it is. */
  ghost predicate PcOk(s: State, t: nat, pc: Pc) {
    pc.LeavesMap? || pc.WantsEntry? || InEntry(pc) ==>
      var key := KeyOf(pc.call.config);
      && key.ordinal in s.cache
      && var entry := s.cache[key.ordinal];
      && (InEntry(pc) ==> entry.lock == HeldBy(t))
      && (pc.Scans? ==> pc.next <= |entry.configurations| && Absent(entry.configurations[..pc.next], key))
      && (pc.Builds? || pc.Stores? ==> pc.call.GetOrCreate? && Absent(entry.configurations, key))
      && (pc.Stores? ==> pc.executor < |s.built| && s.built[pc.executor] == key)
  }

  ghost predicate Absent(configurations: seq<Cached>, key: Key) {
    forall j | 0 <= j < |configurations| :: KeyOf(configurations[j].config) != key
  }

  /** An entry that is locked is locked by a thread at work in it, and it holds what was built for it. */
  ghost predicate EntryOk(s: State, ordinal: int, entry: Entry) {
    && (entry.lock.HeldBy? ==>
          && entry.lock.thread < |s.threads|
          && var pc := s.threads[entry.lock.thread];
             InEntry(pc) && pc.call.config.ordinal == ordinal)
    && forall j | 0 <= j < |entry.configurations| :: CachedOk(s.built, ordinal, entry.configurations[j])
  }

  ghost predicate CachedOk(built: seq<Key>, ordinal: int, cached: Cached) {
    cached.config.ordinal == ordinal && cached.executor < |built| && built[cached.executor] == KeyOf(cached.config)
  }

  ghost predicate Contains(configurations: seq<Cached>, key: Key, executor: nat) {
    exists j :: 0 <= j < |configurations| && KeyOf(configurations[j].config) == key
                && configurations[j].executor == executor
  }

  function Configurations(s: State, ordinal: int): seq<Cached> {
    if ordinal in s.cache then s.cache[ordinal].configurations else []
  }

  ghost predicate Stored(s: State, key: Key, executor: nat) {
    Contains(Configurations(s, key.ordinal), key, executor)
  }

  ghost predicate IsStoring(pc: Pc, executor: nat) {
    pc.Stores? && pc.executor == executor
  }

  /** The executor is in the cache, or on its way into it. */
  ghost predicate Kept(s: State, executor: nat)
    requires executor < |s.built|
  {
    || Stored(s, s.built[executor], executor)
    || exists t :: 0 <= t < |s.threads| && IsStoring(s.threads[t], executor)
  }

  ghost predicate AllKept(s: State) {
    forall e: nat | e < |s.built| :: Kept(s, e)
  }

  /** The cache holds what the simple map holds. */
  ghost predicate Agrees(s: State) {
    var m := Replay(s.history);
    forall key, e: nat :: key in m && m[key] == e <==> Stored(s, key, e)
  }

  ghost predicate Inv(s: State) {
    && MapLockOk(s)
    && (forall t: nat | t < |s.threads| :: PcOk(s, t, s.threads[t]))
    && (forall o | o in s.cache :: EntryOk(s, o, s.cache[o]))
    && Distinct(s.built)
    && AllKept(s) && Agrees(s) && Legal(s.history)
  }

  lemma InitInv(s: State)
    requires Init(s)
    ensures Inv(s)
  {
  }

  // ---- Every step keeps the invariant ----------------------------------------------------------

  /** Steps that leave the cached configurations and the threads in emplace_back alone. */
  lemma ContentsKept(s: State, s': State)
    requires AllKept(s) && Agrees(s) && s'.built == s.built && s'.history == s.history
    requires |s'.threads| == |s.threads|
    requires forall o :: Configurations(s', o) == Configurations(s, o)
    requires forall t | 0 <= t < |s.threads| && s.threads[t].Stores? :: s'.threads[t] == s.threads[t]
    ensures AllKept(s') && Agrees(s')
  {
    forall e: nat | e < |s'.built| ensures Kept(s', e) {
      assert Kept(s, e);
      if !Stored(s, s.built[e], e) {
        var t :| 0 <= t < |s.threads| && IsStoring(s.threads[t], e);
        assert IsStoring(s'.threads[t], e);
      }
    }
    forall key, e: nat ensures Stored(s, key, e) == Stored(s', key, e) {
    }
  }

  /** A step that moves one thread and neither takes nor drops a lock. */
  lemma MoveKeepsInv(s: State, t: nat, pc: Pc)
    requires Inv(s) && t < |s.threads| && PcOk(s, t, pc) && !pc.Stores? && !s.threads[t].Stores?
    requires InMap(pc) == InMap(s.threads[t]) && InEntry(pc) == InEntry(s.threads[t])
    requires InEntry(pc) ==> pc.call == s.threads[t].call
    ensures Inv(Goes(s, t, pc))
  {
    ContentsKept(s, Goes(s, t, pc));
  }

  lemma TakeMapKeepsInv(s: State, t: nat, call: Call)
    requires Inv(s) && t < |s.threads| && s.threads[t].WantsMap? && s.mapLock == Free
    ensures Inv(Goes(s, t, HasMap(call)).(mapLock := HeldBy(t)))
  {
    ContentsKept(s, Goes(s, t, HasMap(call)).(mapLock := HeldBy(t)));
  }

  lemma LeaveMapKeepsInv(s: State, t: nat, call: Call)
    requires Inv(s) && t < |s.threads| && s.threads[t] == LeavesMap(call)
    ensures Inv(Goes(s, t, WantsEntry(call)).(mapLock := Free))
  {
    ContentsKept(s, Goes(s, t, WantsEntry(call)).(mapLock := Free));
  }

  lemma AddEntryKeepsInv(s: State, ordinal: int)
    requires Inv(s) && ordinal !in s.cache
    ensures Inv(SetEntry(s, ordinal, Entry(Free, [])))
  {
    ContentsKept(s, SetEntry(s, ordinal, Entry(Free, [])));
  }

  lemma TakeEntryKeepsInv(s: State, t: nat, call: Call)
    requires Inv(s) && t < |s.threads| && s.threads[t] == WantsEntry(call)
    requires s.cache[call.config.ordinal].lock == Free
    ensures var o := call.config.ordinal;
            Inv(SetEntry(Goes(s, t, Scans(call, 0)), o, s.cache[o].(lock := HeldBy(t))))
  {
    var o := call.config.ordinal;
    ContentsKept(s, SetEntry(Goes(s, t, Scans(call, 0)), o, s.cache[o].(lock := HeldBy(t))));
  }

  lemma LeaveEntryKeepsInv(s: State, t: nat, call: Call)
    requires Inv(s) && t < |s.threads| && s.threads[t].Leaves? && s.threads[t].call == call
    ensures var o := call.config.ordinal;
            o in s.cache && Inv(SetEntry(Goes(s, t, Idle), o, s.cache[o].(lock := Free)))
  {
    var o := call.config.ordinal;
    ContentsKept(s, SetEntry(Goes(s, t, Idle), o, s.cache[o].(lock := Free)));
  }

  lemma LegalExtended(h: seq<Event>, event: Event)
    requires Legal(h) && Answers(Replay(h), event)
    ensures Legal(h + [event])
  {
    var more := h + [event];
    forall n | 0 <= n < |more| ensures Answers(Replay(more[..n]), more[n]) {
      assert more[..n] == h[..n];
      assert h[..|h|] == h;
    }
  }

  lemma ReplayExtended(h: seq<Event>, event: Event)
    ensures Replay(h + [event]) == var m := Replay(h);
      if event.outcome.Executor? then m[KeyOf(event.call.config) := event.outcome.executor] else m
  {
    assert (h + [event])[..|h|] == h;
  }

  /** A call that answers without changing the simple map. */
  lemma DecideKeepsInv(s: State, t: nat, call: Call, outcome: Outcome)
    requires Inv(s) && t < |s.threads| && InEntry(s.threads[t]) && s.threads[t].call == call
    requires !s.threads[t].Stores?
    requires Answers(Replay(s.history), Event(call, outcome))
    requires outcome.Executor? ==> Stored(s, KeyOf(call.config), outcome.executor)
    ensures Inv(Decides(s, t, call, outcome))
  {
    MoveKeepsInv(s, t, Leaves(call, outcome));
    var s1 := Goes(s, t, Leaves(call, outcome));
    var s' := Decides(s, t, call, outcome);
    LegalExtended(s.history, Event(call, outcome));
    ReplayExtended(s.history, Event(call, outcome));
    assert Replay(s'.history) == Replay(s.history);
    HistoryKeepsInv(s1, s'.history);
  }

  lemma HistoryKeepsInv(s: State, h: seq<Event>)
    requires Inv(s) && Legal(h) && Replay(h) == Replay(s.history)
    ensures Inv(s.(history := h))
  {
    var s' := s.(history := h);
    assert AllKept(s') by {
      forall e: nat | e < |s'.built| ensures Kept(s', e) {
        assert Kept(s, e);
        assert Stored(s, s.built[e], e) == Stored(s', s.built[e], e);
      }
    }
    forall key, e: nat ensures Stored(s, key, e) == Stored(s', key, e) {
    }
  }

  /** While a thread builds for a key, no executor exists for that key. */
  lemma NotBuiltYet(s: State, t: nat, e: nat)
    requires Inv(s) && t < |s.threads| && s.threads[t].Builds? && e < |s.built|
    ensures s.built[e] != KeyOf(s.threads[t].call.config)
  {
    assert Kept(s, e) && PcOk(s, t, s.threads[t]);
    if !Stored(s, s.built[e], e) {
      var u: nat :| u < |s.threads| && IsStoring(s.threads[u], e);
      assert PcOk(s, u, s.threads[u]);
    }
  }

  lemma BuildKeepsInv(s: State, t: nat, call: Call)
    requires Inv(s) && t < |s.threads| && s.threads[t] == Builds(call)
    ensures Inv(Goes(s, t, Stores(call, |s.built|)).(built := s.built + [KeyOf(call.config)]))
  {
    var s' := Goes(s, t, Stores(call, |s.built|)).(built := s.built + [KeyOf(call.config)]);
    forall e: nat | e < |s.built| ensures s.built[e] != KeyOf(call.config) {
      NotBuiltYet(s, t, e);
    }
    forall e: nat | e < |s'.built| ensures Kept(s', e) {
      if e == |s.built| {
        assert IsStoring(s'.threads[t], e);
      } else {
        assert Kept(s, e);
        if Stored(s, s.built[e], e) {
          assert Stored(s', s'.built[e], e);
        } else {
          var u :| 0 <= u < |s.threads| && IsStoring(s.threads[u], e);
          assert IsStoring(s'.threads[u], e);
        }
      }
    }
    forall key, e: nat ensures Stored(s, key, e) == Stored(s', key, e) {
    }
  }

  lemma StoreAnswers(s: State, t: nat, call: Call, e: nat)
    requires Inv(s) && t < |s.threads| && s.threads[t] == Stores(call, e)
    ensures KeyOf(call.config) !in Replay(s.history)
    ensures Answers(Replay(s.history), Event(call, Executor(e)))
  {
    var m, key := Replay(s.history), KeyOf(call.config);
    assert PcOk(s, t, s.threads[t]);
    assert forall k | k in m :: Stored(s, k, m[k]);
    forall k | k in m ensures k != key && m[k] != e {
      assert Stored(s, k, m[k]);
      assert EntryOk(s, k.ordinal, s.cache[k.ordinal]);
    }
  }

  lemma StoreContents(s: State, t: nat, call: Call, e: nat, s': State)
    requires Inv(s) && t < |s.threads| && s.threads[t] == Stores(call, e) && call.config.ordinal in s.cache
    requires s' == StoreStep(s, t, call, e, s.cache[call.config.ordinal])
    ensures Agrees(s') && AllKept(s')
  {
    var o, key, m := call.config.ordinal, KeyOf(call.config), Replay(s.history);
    StoreAnswers(s, t, call, e);
    ReplayExtended(s.history, Event(call, Executor(e)));
    forall k, f: nat ensures Stored(s', k, f) <==> Stored(s, k, f) || (k == key && f == e) {
      ContainsExtended(s.cache[o].configurations, Cached(call.config, e), k, f);
    }
    forall k, f: nat ensures k in m[key := e] && m[key := e][k] == f <==> Stored(s', k, f) {
      assert k in m && m[k] == f <==> Stored(s, k, f);
    }
    forall f: nat | f < |s'.built| ensures Kept(s', f) {
      assert Kept(s, f);
      if !Stored(s, s.built[f], f) {
        var u: nat :| u < |s.threads| && IsStoring(s.threads[u], f);
        assert PcOk(s, t, s.threads[t]);
        assert u != t ==> IsStoring(s'.threads[u], f);
      }
    }
  }

  lemma StoreKeepsInv(s: State, t: nat, call: Call, e: nat, s': State)
    requires Inv(s) && t < |s.threads| && s.threads[t] == Stores(call, e) && call.config.ordinal in s.cache
    requires s' == StoreStep(s, t, call, e, s.cache[call.config.ordinal])
    ensures Inv(s')
  {
    var o := call.config.ordinal;
    assert PcOk(s, t, s.threads[t]);
    StoreAnswers(s, t, call, e);
    LegalExtended(s.history, Event(call, Executor(e)));
    StoreContents(s, t, call, e, s');
    forall u: nat | u < |s.threads| ensures PcOk(s', u, s'.threads[u]) {
      assert PcOk(s, u, s.threads[u]);
    }
    forall p | p in s'.cache ensures EntryOk(s', p, s'.cache[p]) {
      assert EntryOk(s, p, s.cache[p]);
    }
  }

  lemma ContainsExtended(configurations: seq<Cached>, c: Cached, key: Key, e: nat)
    ensures Contains(configurations + [c], key, e)
            <==> Contains(configurations, key, e) || (KeyOf(c.config) == key && c.executor == e)
  {
    var more := configurations + [c];
    if Contains(configurations, key, e) {
      var j :| 0 <= j < |configurations| && KeyOf(configurations[j].config) == key && configurations[j].executor == e;
      assert more[j] == configurations[j];
    }
    assert more[|configurations|] == c;
  }

  lemma MissAnswers(s: State, call: Call)
    requires Inv(s) && call.Get? && call.config.ordinal in s.cache
    requires Absent(s.cache[call.config.ordinal].configurations, KeyOf(call.config))
    ensures var none := s.cache[call.config.ordinal].configurations == [];
            Answers(Replay(s.history), Event(call, if none then NoneForOrdinal else NoneMatching))
  {
    var m, o := Replay(s.history), call.config.ordinal;
    var configurations := s.cache[o].configurations;
    assert forall k | k in m :: Stored(s, k, m[k]);
    if configurations != [] {
      var first := configurations[0];
      assert EntryOk(s, o, s.cache[o]);
      assert CachedOk(s.built, o, first);
      assert Contains(configurations, KeyOf(first.config), first.executor);
      assert Stored(s, KeyOf(first.config), first.executor);
    }
  }

  lemma ScanKeepsInv(s: State, t: nat, call: Call, next: nat)
    requires Inv(s) && t < |s.threads| && s.threads[t] == Scans(call, next) && call.config.ordinal in s.cache
    ensures Inv(ScanStep(s, t, call, next, s.cache[call.config.ordinal].configurations))
  {
    var o, key := call.config.ordinal, KeyOf(call.config);
    var configurations := s.cache[o].configurations;
    assert PcOk(s, t, s.threads[t]) && EntryOk(s, o, s.cache[o]);
    if next < |configurations| {
      assert CachedOk(s.built, o, configurations[next]);
      if Matches(configurations[next].config, call.config) {
        var e := configurations[next].executor;
        assert Contains(configurations, key, e);
        assert Stored(s, key, e);
        DecideKeepsInv(s, t, call, Executor(e));
      } else {
        MoveKeepsInv(s, t, Scans(call, next + 1));
      }
    } else {
      assert configurations[..next] == configurations;
      if call.Get? {
        MissAnswers(s, call);
        DecideKeepsInv(s, t, call, if configurations == [] then NoneForOrdinal else NoneMatching);
      } else {
        MoveKeepsInv(s, t, Builds(call));
      }
    }
  }

  lemma FailKeepsInv(s: State, t: nat, call: Call, status: int)
    requires Inv(s) && t < |s.threads| && s.threads[t] == Builds(call)
    ensures Inv(Decides(s, t, call, Failed(status)))
  {
    var m, key := Replay(s.history), KeyOf(call.config);
    assert PcOk(s, t, s.threads[t]);
    assert forall k | k in m :: Stored(s, k, m[k]);
    DecideKeepsInv(s, t, call, Failed(status));
  }

  lemma EntryStepKeepsInv(s: State, t: nat, c: Choice, s': State)
    requires Inv(s) && t < |s.threads| && (s.threads[t].WantsEntry? || InEntry(s.threads[t]))
    requires s.threads[t].call.config.ordinal in s.cache
    requires EntryStep(s, t, s.threads[t], c, s.cache[s.threads[t].call.config.ordinal]) == Some(s')
    ensures Inv(s')
  {
    match s.threads[t]
    case WantsEntry(call) => TakeEntryKeepsInv(s, t, call);
    case Scans(call, next) => ScanKeepsInv(s, t, call, next);
    case Builds(call) =>
      if c.factoryOk {
        BuildKeepsInv(s, t, call);
      } else {
        FailKeepsInv(s, t, call, c.status);
      }
    case Stores(call, e) => StoreKeepsInv(s, t, call, e, s');
    case Leaves(call, _) => LeaveEntryKeepsInv(s, t, call);
  }

  lemma FindEntryKeepsInv(s: State, t: nat, call: Call)
    requires Inv(s) && t < |s.threads| && s.threads[t] == HasMap(call)
    ensures var o := call.config.ordinal;
            var next := Goes(s, t, LeavesMap(call));
            Inv(if o in s.cache then next else SetEntry(next, o, Entry(Free, [])))
  {
    var o := call.config.ordinal;
    if o in s.cache {
      MoveKeepsInv(s, t, LeavesMap(call));
    } else {
      AddEntryKeepsInv(s, o);
      MoveKeepsInv(SetEntry(s, o, Entry(Free, [])), t, LeavesMap(call));
    }
  }

  lemma StepKeepsInv(s: State, t: nat, c: Choice, s': State)
    requires Inv(s) && StepsTo(s, t, c, s')
    ensures Inv(s')
  {
    match s.threads[t]
    case Idle => MoveKeepsInv(s, t, WantsMap(c.call));
    case WantsMap(call) => TakeMapKeepsInv(s, t, call);
    case HasMap(call) => FindEntryKeepsInv(s, t, call);
    case LeavesMap(call) => LeaveMapKeepsInv(s, t, call);
    case _ => EntryStepKeepsInv(s, t, c, s');
  }

  lemma {:induction false} RunInv(run: seq<State>, n: nat)
    requires IsRun(run) && n < |run|
    ensures Inv(run[n])
  {
    if n == 0 {
      InitInv(run[0]);
    } else {
      RunInv(run, n - 1);
      assert Next(run[n - 1], run[n - 1 + 1]);
      var t: nat, c :| StepsTo(run[n - 1], t, c, run[n]);
      StepKeepsInv(run[n - 1], t, c, run[n]);
    }
  }

  // ---- What holds in every run -----------------------------------------------------------------

  /** In the order in which they were decided, the answers are those of the simple map. */
  lemma CacheRefinesMap(run: seq<State>, n: nat, key: Key, e: nat)
    requires IsRun(run) && n < |run|
    ensures Legal(run[n].history)
    ensures var m := Replay(run[n].history); key in m && m[key] == e <==> Stored(run[n], key, e)
  {
    RunInv(run, n);
  }

  /** At most one executor is ever built for a key, and never two at once for one device. */
  lemma OneExecutorPerKey(run: seq<State>, n: nat)
    requires IsRun(run) && n < |run|
    ensures forall e, f | 0 <= e < f < |run[n].built| :: run[n].built[e] != run[n].built[f]
    ensures forall t: nat, u: nat | t < u < |run[n].threads| && run[n].threads[t].Builds? && run[n].threads[u].Builds? ::
              run[n].threads[t].call.config.ordinal != run[n].threads[u].call.config.ordinal
  {
    RunInv(run, n);
    var s := run[n];
    forall t: nat, u: nat | t < u < |s.threads| && s.threads[t].Builds? && s.threads[u].Builds?
      ensures s.threads[t].call.config.ordinal != s.threads[u].call.config.ordinal
    {
      assert PcOk(s, t, s.threads[t]) && PcOk(s, u, s.threads[u]);
    }
  }

  lemma AnswerKeeps(h: seq<Event>, event: Event, key: Key)
    requires Answers(Replay(h), event) && key in Replay(h)
    ensures key in Replay(h + [event]) && Replay(h + [event])[key] == Replay(h)[key]
  {
    ReplayExtended(h, event);
  }

  /** In a legal history a key keeps its executor. */
  lemma {:induction false} ReplayKeeps(h: seq<Event>, i: nat, j: nat, key: Key)
    requires Legal(h) && i <= j <= |h| && key in Replay(h[..i])
    ensures key in Replay(h[..j]) && Replay(h[..j])[key] == Replay(h[..i])[key]
  {
    if i < j {
      ReplayKeeps(h, i, j - 1, key);
      assert h[..j] == h[..j - 1] + [h[j - 1]];
      AnswerKeeps(h[..j - 1], h[j - 1], key);
    }
  }

  lemma SameOutcomeLater(h: seq<Event>, i: nat, j: nat)
    requires Legal(h) && i < j < |h| && h[i].outcome.Executor?
    requires KeyOf(h[i].call.config) == KeyOf(h[j].call.config)
    ensures h[j].outcome == h[i].outcome
  {
    assert h[..i + 1] == h[..i] + [h[i]];
    ReplayExtended(h[..i], h[i]);
    ReplayKeeps(h, i + 1, j, KeyOf(h[i].call.config));
    assert Answers(Replay(h[..j]), h[j]);
  }

  /** Once a key has an executor, every later call with that key returns that executor. */
  lemma SameExecutorAfterwards(run: seq<State>, n: nat, i: nat, j: nat)
    requires IsRun(run) && n < |run| && i < j < |run[n].history|
    requires KeyOf(run[n].history[i].call.config) == KeyOf(run[n].history[j].call.config)
    requires run[n].history[i].outcome.Executor?
    ensures run[n].history[j].outcome == run[n].history[i].outcome
  {
    RunInv(run, n);
    SameOutcomeLater(run[n].history, i, j);
  }

  /** A failed factory, like a missed Get, leaves the simple map as it was, without the key. */
  lemma FailureLeavesUnresolved(run: seq<State>, n: nat, i: nat)
    requires IsRun(run) && n < |run| && i < |run[n].history|
    requires !run[n].history[i].outcome.Executor?
    ensures var h := run[n].history;
            Replay(h[..i + 1]) == Replay(h[..i]) && KeyOf(h[i].call.config) !in Replay(h[..i + 1])
  {
    RunInv(run, n);
    var h := run[n].history;
    assert h[..i + 1] == h[..i] + [h[i]];
    ReplayExtended(h[..i], h[i]);
    assert Answers(Replay(h[..i]), h[i]);
  }

  /** The history only grows, so what was decided stays decided. */
  lemma {:induction false} HistoryGrows(run: seq<State>, m: nat, n: nat)
    requires IsRun(run) && m <= n < |run|
    ensures run[m].history <= run[n].history
  {
    if m < n {
      HistoryGrows(run, m, n - 1);
      assert Next(run[n - 1], run[n - 1 + 1]);
      var t: nat, c :| StepsTo(run[n - 1], t, c, run[n]);
      assert run[n - 1].history <= run[n].history;
    }
  }

  /** An executor in the cache stays in it, for its key. */
  lemma CachedForEver(run: seq<State>, m: nat, n: nat, key: Key, e: nat)
    requires IsRun(run) && m <= n < |run| && Stored(run[m], key, e)
    ensures Stored(run[n], key, e)
  {
    CacheRefinesMap(run, m, key, e);
    CacheRefinesMap(run, n, key, e);
    HistoryGrows(run, m, n);
    var h, k := run[n].history, |run[m].history|;
    assert h[..k] == run[m].history && h[..|h|] == h;
    ReplayKeeps(h, k, |h|, key);
  }

  /** Whenever a call is under way, some call can take its next step. */
  lemma NoDeadlock(run: seq<State>, n: nat, t: nat, c: Choice)
    requires IsRun(run) && n < |run| && t < |run[n].threads| && run[n].threads[t] != Idle
    ensures exists u: nat :: u < |run[n].threads| && run[n].threads[u] != Idle && Step(run[n], u, c).Some?
  {
    RunInv(run, n);
    var s := run[n];
    assert PcOk(s, t, s.threads[t]);
    if Step(s, t, c).None? {
      var u := if s.threads[t].WantsMap? then s.mapLock.thread
               else s.cache[s.threads[t].call.config.ordinal].lock.thread;
      assert s.threads[t].WantsEntry? ==> EntryOk(s, s.threads[t].call.config.ordinal, s.cache[s.threads[t].call.config.ordinal]);
      assert PcOk(s, u, s.threads[u]);
      assert Step(s, u, c).Some?;
    }
  }

  // ---- Calls and their answers -----------------------------------------------------------------

  /** A step: which thread takes it, and what the environment picks. */
  datatype Move = Move(thread: nat, choice: Choice)

  ghost predicate IsTrace(run: seq<State>, moves: seq<Move>) {
    && |run| == |moves| + 1 && Init(run[0])
    && forall k | 0 <= k < |moves| :: StepsTo(run[k], moves[k].thread, moves[k].choice, run[k + 1])
  }

  lemma TraceInv(run: seq<State>, moves: seq<Move>, k: nat)
    requires IsTrace(run, moves) && k < |run|
    ensures Inv(run[k]) && IsRun(run)
  {
    forall m | 0 <= m < |run| - 1 ensures Next(run[m], run[m + 1]) {
      assert StepsTo(run[m], moves[m].thread, moves[m].choice, run[m + 1]);
    }
    RunInv(run, k);
  }

  /** What a step of thread t does to its own call and to the history. */
  ghost predicate Acts(s: State, t: nat, c: Choice, s': State)
    requires t < |s.threads| == |s'.threads|
  {
    var pc, pc' := s.threads[t], s'.threads[t];
    && (forall u: nat | u < |s.threads| && u != t :: s'.threads[u] == s.threads[u])
    && (pc.Idle? ==> pc' == WantsMap(c.call))
    && (!pc.Idle? ==> (if pc.Leaves? then pc'.Idle? else !pc'.Idle? && pc'.call == pc.call))
    && (pc'.Leaves? ==> s'.history == s.history + [Event(pc'.call, pc'.outcome)])
    && (!pc'.Leaves? ==> s'.history == s.history)
    && (pc'.Leaves? && pc'.outcome.Failed? ==> pc.Builds? && !c.factoryOk && pc'.outcome.status == c.status)
  }

  lemma StepActs(s: State, t: nat, c: Choice, s': State)
    requires StepsTo(s, t, c, s')
    ensures |s'.threads| == |s.threads| && Acts(s, t, c, s')
  {
  }

  lemma {:induction false} SameThreads(run: seq<State>, moves: seq<Move>, k: nat)
    requires IsTrace(run, moves) && k < |run|
    ensures |run[k].threads| == |run[0].threads|
  {
    if k > 0 {
      SameThreads(run, moves, k - 1);
      StepActs(run[k - 1], moves[k - 1].thread, moves[k - 1].choice, run[k - 1 + 1]);
    }
  }

  /** The call thread t is in at step k was made at step j, and t has been in it ever since. */
  ghost predicate Called(run: seq<State>, moves: seq<Move>, j: nat, k: nat, t: nat, call: Call) {
    && j < k < |run| && k <= |moves| && moves[j].thread == t && moves[j].choice.call == call
    && t < |run[j].threads| && run[j].threads[t].Idle?
    && forall m | j < m <= k :: t < |run[m].threads| && !run[m].threads[t].Idle? && run[m].threads[t].call == call
  }

  lemma {:induction false} CalledAt(run: seq<State>, moves: seq<Move>, k: nat, t: nat) returns (j: nat)
    requires IsTrace(run, moves) && k < |run| && t < |run[k].threads| && !run[k].threads[t].Idle?
    ensures Called(run, moves, j, k, t, run[k].threads[t].call)
  {
    SameThreads(run, moves, k);
    var p := k - 1;
    SameThreads(run, moves, p);
    StepActs(run[p], moves[p].thread, moves[p].choice, run[p + 1]);
    if run[p].threads[t].Idle? {
      j := p;
    } else {
      j := CalledAt(run, moves, p, t);
    }
  }

  /** Step m of thread t decides entry n of the history. */
  ghost predicate DecidedAt(run: seq<State>, moves: seq<Move>, m: nat, n: nat, t: nat, event: Event) {
    && m < |moves| && m + 1 < |run| && moves[m].thread == t && t < |run[m].threads| == |run[m + 1].threads|
    && !run[m].threads[t].Idle? && run[m].threads[t].call == event.call
    && |run[m].history| == n && run[m + 1].history == run[m].history + [event]
    && run[m + 1].threads[t] == Leaves(event.call, event.outcome)
    && (event.outcome.Failed? ==>
          run[m].threads[t].Builds? && !moves[m].choice.factoryOk && moves[m].choice.status == event.outcome.status)
  }

  lemma StepDecides(run: seq<State>, moves: seq<Move>, m: nat)
    requires IsTrace(run, moves) && m < |moves| && run[m + 1].history != run[m].history
    ensures |run[m + 1].history| == |run[m].history| + 1
    ensures DecidedAt(run, moves, m, |run[m].history|, moves[m].thread, run[m + 1].history[|run[m].history|])
  {
    StepActs(run[m], moves[m].thread, moves[m].choice, run[m + 1]);
  }

  /**
   Every answer in the history is the answer to a call: some thread made that call before the step
   that decided it, and was in it at that step. A Failed answer repeats what the factory returned
   at that step.
   */
  lemma {:induction false} AnswersACall(run: seq<State>, moves: seq<Move>, k: nat, n: nat)
    returns (t: nat, j: nat, m: nat)
    requires IsTrace(run, moves) && k < |run| && n < |run[k].history|
    ensures m < k && DecidedAt(run, moves, m, n, t, run[k].history[n])
    ensures Called(run, moves, j, m, t, run[k].history[n].call)
  {
    var p := k - 1;
    StepActs(run[p], moves[p].thread, moves[p].choice, run[p + 1]);
    if n < |run[p].history| {
      t, j, m := AnswersACall(run, moves, p, n);
    } else {
      StepDecides(run, moves, p);
      t, m := moves[p].thread, p;
      j := CalledAt(run, moves, p, t);
    }
  }

  /** When no factory fails, no call fails. */
  lemma NoFailureWithoutCause(run: seq<State>, moves: seq<Move>, k: nat, n: nat)
    requires IsTrace(run, moves) && k < |run| && n < |run[k].history|
    requires forall m | 0 <= m < |moves| :: moves[m].choice.factoryOk
    ensures !run[k].history[n].outcome.Failed?
  {
    var t, j, m := AnswersACall(run, moves, k, n);
  }

  lemma {:induction false} AnsweredAt(run: seq<State>, moves: seq<Move>, k: nat, t: nat) returns (m: nat)
    requires IsTrace(run, moves) && k < |run| && t < |run[k].threads| && run[k].threads[t].Leaves?
    ensures m < k && m < |moves| && m + 1 < |run|
    ensures DecidedAt(run, moves, m, |run[m].history|, t, Event(run[k].threads[t].call, run[k].threads[t].outcome))
    ensures forall q | m < q <= k :: t < |run[q].threads| && run[q].threads[t].Leaves?
  {
    SameThreads(run, moves, k);
    var p := k - 1;
    SameThreads(run, moves, p);
    StepActs(run[p], moves[p].thread, moves[p].choice, run[p + 1]);
    if run[p].threads[t].Leaves? {
      m := AnsweredAt(run, moves, p, t);
    } else {
      StepDecides(run, moves, p);
      m := p;
    }
  }

  /**
   Linearizability in real time: a call that is about to return was answered, as the history
   records, after it was made and before it returns.
   */
  lemma AnsweredBetweenCallAndReturn(run: seq<State>, moves: seq<Move>, k: nat, t: nat) returns (j: nat, m: nat)
    requires IsTrace(run, moves) && k < |run| && t < |run[k].threads| && run[k].threads[t].Leaves?
    ensures j < m < k && Called(run, moves, j, k, t, run[k].threads[t].call)
    ensures |run[m].history| < |run[k].history|
    ensures run[k].history[|run[m].history|] == Event(run[k].threads[t].call, run[k].threads[t].outcome)
  {
    j := CalledAt(run, moves, k, t);
    m := AnsweredAt(run, moves, k, t);
    TraceInv(run, moves, k);
    HistoryGrows(run, m + 1, k);
  }

  // ---- Every call takes finitely many steps ----------------------------------------------------

  function StepsOf(moves: seq<Move>, j: nat, k: nat, t: nat): nat
    requires k <= |moves|
  {
    if k <= j then 0 else StepsOf(moves, j, k - 1, t) + if moves[k - 1].thread == t then 1 else 0
  }

  /** Where a thread is after n steps of a call: no turn of the scan is taken twice. */
  ghost predicate Reached(s: State, pc: Pc, n: nat) {
    !pc.Idle? ==>
      var size := |Configurations(s, pc.call.config.ordinal)|;
      match pc
      case WantsMap(_) => n == 1
      case HasMap(_) => n == 2
      case LeavesMap(_) => n == 3
      case WantsEntry(_) => n == 4
      case Scans(_, next) => n == 5 + next && next <= size
      case Builds(_) => n == 6 + size
      case Stores(_, _) => n == 7 + size
      case Leaves(_, _) => n <= 8 + size
  }

  lemma OwnStepReaches(s: State, t: nat, c: Choice, s': State, n: nat)
    requires Inv(s) && StepsTo(s, t, c, s') && t < |s'.threads| && !s.threads[t].Idle? && !s'.threads[t].Idle?
    requires Reached(s, s.threads[t], n)
    ensures Reached(s', s'.threads[t], n + 1)
  {
    assert PcOk(s, t, s.threads[t]);
  }

  /** Nobody else changes the configurations a thread is scanning. */
  lemma OtherStepReaches(s: State, u: nat, c: Choice, s': State, t: nat, n: nat)
    requires Inv(s) && StepsTo(s, u, c, s') && u != t && t < |s.threads| == |s'.threads|
    requires Reached(s, s.threads[t], n)
    ensures Reached(s', s'.threads[t], n)
  {
    StepActs(s, u, c, s');
    assert PcOk(s, t, s.threads[t]) && PcOk(s, u, s.threads[u]);
  }

  /** A call made at step j has taken at most 8 steps and one for each configuration of its ordinal. */
  lemma {:induction false} CallsAreBounded(run: seq<State>, moves: seq<Move>, j: nat, k: nat, t: nat, call: Call)
    requires IsTrace(run, moves) && Called(run, moves, j, k, t, call)
    ensures Reached(run[k], run[k].threads[t], StepsOf(moves, j, k, t))
    ensures StepsOf(moves, j, k, t) <= 8 + |Configurations(run[k], call.config.ordinal)|
  {
    var p := k - 1;
    TraceInv(run, moves, p);
    StepActs(run[p], moves[p].thread, moves[p].choice, run[p + 1]);
    if p == j {
      assert StepsOf(moves, j, j, t) == 0;
    } else {
      CallsAreBounded(run, moves, j, p, t, call);
      var n := StepsOf(moves, j, p, t);
      if moves[p].thread == t {
        OwnStepReaches(run[p], t, moves[p].choice, run[p + 1], n);
      } else {
        OtherStepReaches(run[p], moves[p].thread, moves[p].choice, run[p + 1], t, n);
      }
    }
  }
}
