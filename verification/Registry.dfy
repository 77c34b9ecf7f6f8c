/**
 The registry of opened caches with its reference counts and delayed teardown. The atomic steps
 are New and TimerFire (under both locks) and Close (under the lock of the cache); any number of
 timers may be pending for one cache, and they fire in any order.
 */
module Registry {
  import opened Basics

  datatype Options = Options(cacheDir: string, rootUid: int, rootGid: int, shadowGid: int,
                             forceShadowMode: int, passwdPermission: int, shadowPermission: int,
                             teardown: int, expiration: int)

  /** A Cache object; `db` is its underlying connection. */
  datatype CacheObject = CacheObject(db: nat, shadowMode: int, usedBy: int, sig: Options)

  /** What the surroundings answer during New. */
  datatype Surroundings = Surroundings(shadowGroup: Option<int>, init: InitOutcome, purgeSucceeds: bool)

  /**
   initDB fails without a connection, or drops the one it has (when the tables of new files cannot be
   created or shadow cannot be attached), or succeeds.
   */
  datatype InitOutcome = NotConnected | ConnectedThenFailed | Connected(shadowMode: int)

  datatype NewError = NoShadowGroup | InitFailed | PurgeFailed

  /**
   Caches and connections are numbered in order of creation. `closes` counts how often each
   connection was closed; `abandoned` are the connections opened by a New that then failed.
   */
  datatype State = State(entries: map<Options, nat>, caches: seq<CacheObject>, closes: seq<nat>,
                         abandoned: set<nat>, handles: multiset<nat>, timers: multiset<nat>)

  const INITIAL: State := State(map[], [], [], {}, multiset{}, multiset{})

  // ---------------------------------------------------------------------------- steps

  function Abandon(s: State): State {
    s.(closes := s.closes + [0], abandoned := s.abandoned + {|s.closes|})
  }

  /** One more handle on a registered cache. */
  function Reuse(s: State, id: nat): State
    requires id < |s.caches|
  {
    s.(caches := s.caches[id := s.caches[id].(usedBy := s.caches[id].usedBy + 1)],
       handles := s.handles + multiset{id})
  }

  /** The part of New that connects. The options change while shadow is looked up, and are restored. */
  function Open(s: State, requested: Options, env: Surroundings): (State, Result<nat, NewError>) {
    if requested.shadowGid < 0 && env.shadowGroup.None? then (s, Err(NoShadowGroup))
    else
      var looked := if requested.shadowGid < 0 then requested.(shadowGid := env.shadowGroup.value) else requested;
      match env.init
      case NotConnected => (s, Err(InitFailed))
      case ConnectedThenFailed => (Abandon(s), Err(InitFailed))
      case Connected(mode) =>
        if mode == READ_WRITE && looked.expiration != 0 && !env.purgeSucceeds then (Abandon(s), Err(PurgeFailed))
        else
          var restored := looked.(shadowGid := requested.shadowGid);
          var id := |s.caches|;
          (State(s.entries[restored := id], s.caches + [CacheObject(|s.closes|, mode, 1, restored)],
                 s.closes + [0], s.abandoned, s.handles + multiset{id}, s.timers), Ok(id))
  }

  /** New: an opened cache with the same options is shared, otherwise one is opened. */
  function New(s: State, requested: Options, env: Surroundings): (State, Result<nat, NewError>)
    requires requested in s.entries ==> s.entries[requested] < |s.caches|
  {
    if requested in s.entries then (Reuse(s, s.entries[requested]), Ok(s.entries[requested]))
    else Open(s, requested, env)
  }

  /** Close of one handle on cache id. */
  function Close(s: State, id: nat): State
    requires id < |s.caches|
  {
    var used := s.caches[id].usedBy - 1;
    s.(caches := s.caches[id := s.caches[id].(usedBy := used)],
       handles := s.handles - multiset{id},
       timers := if used != 0 then s.timers else s.timers + multiset{id})
  }

  /** One pending timer of cache id fires. */
  function TimerFire(s: State, id: nat): State
    requires id < |s.caches| && s.caches[id].db < |s.closes|
  {
    var c := s.caches[id];
    var timers := s.timers - multiset{id};
    if c.usedBy != 0 then s.(timers := timers)
    else
      State(s.entries - {c.sig}, s.caches[id := c.(usedBy := -1)],
            s.closes[c.db := s.closes[c.db] + 1], s.abandoned, s.handles, timers)
  }

  // ------------------------------------------------------------------------- invariant

  /** The registry still holds this cache. */
  predicate Registered(s: State, id: nat)
    requires id < |s.caches|
  {
    s.caches[id].sig in s.entries && s.entries[s.caches[id].sig] == id
  }

  /** The map entry, the signature and the numbering agree. */
  predicate KeysMatch(s: State) {
    forall o :: o in s.entries ==> s.entries[o] < |s.caches| && s.caches[s.entries[o]].sig == o
  }

  /** A registered cache is open and counts its handles; one at rest has a timer. */
  predicate Alive(s: State, id: nat)
    requires id < |s.caches| && s.caches[id].db < |s.closes|
  {
    && s.caches[id].usedBy == s.handles[id]
    && s.closes[s.caches[id].db] == 0
    && (s.caches[id].usedBy == 0 ==> id in s.timers)
  }

  /** A cache that left the registry is closed once, unused and marked for good. */
  predicate TornDown(s: State, id: nat)
    requires id < |s.caches| && s.caches[id].db < |s.closes|
  {
    s.caches[id].usedBy == -1 && s.handles[id] == 0 && s.closes[s.caches[id].db] == 1
  }

  predicate Sound(s: State, id: nat)
    requires id < |s.caches| && s.caches[id].db < |s.closes|
  {
    if Registered(s, id) then Alive(s, id) else TornDown(s, id)
  }

  /** Caches own distinct connections; the abandoned ones belong to nobody and are never closed. */
  predicate Connections(s: State) {
    && (forall i :: 0 <= i < |s.caches| ==> s.caches[i].db < |s.closes| && s.caches[i].db !in s.abandoned)
    && (forall i, j :: 0 <= i < j < |s.caches| ==> s.caches[i].db != s.caches[j].db)
    && (forall d :: d in s.abandoned ==> d < |s.closes| && s.closes[d] == 0)
    && (forall d :: 0 <= d < |s.closes| && d !in s.abandoned ==> exists i :: 0 <= i < |s.caches| && s.caches[i].db == d)
  }

  predicate Known(s: State) {
    && (forall id :: id in s.handles ==> id < |s.caches|)
    && (forall id :: id in s.timers ==> id < |s.caches|)
  }

  predicate Inv(s: State) {
    && KeysMatch(s) && Connections(s) && Known(s)
    && (forall id: nat :: id < |s.caches| ==> Sound(s, id))
  }

  datatype Action = DoNew(options: Options, env: Surroundings) | DoClose(id: nat) | DoFire(id: nat)

  /** Only open handles are closed, and only pending timers fire; numbers must be in range. */
  predicate Enabled(s: State, a: Action) {
    match a
    case DoNew(o, _) => o in s.entries ==> s.entries[o] < |s.caches|
    case DoClose(id) => id in s.handles && id < |s.caches|
    case DoFire(id) => id in s.timers && id < |s.caches| && s.caches[id].db < |s.closes|
  }

  function Step(s: State, a: Action): State
    requires Enabled(s, a)
  {
    match a
    case DoNew(o, env) => New(s, o, env).0
    case DoClose(id) => Close(s, id)
    case DoFire(id) => TimerFire(s, id)
  }

  // ---------------------------------------------------------------------- preservation

  /** The options registered are the options requested, although the lookup changed them midway. */
  lemma NewRegistersRequest(s: State, o: Options, env: Surroundings)
    requires Inv(s) && New(s, o, env).1.Ok?
    ensures var (s', r) := New(s, o, env);
      && o in s'.entries && s'.entries[o] == r.value
      && r.value < |s'.caches| && s'.caches[r.value].sig == o
      && s'.handles == s.handles + multiset{r.value}
  {
  }

  /** New adds one handle when it succeeds and none otherwise. */
  lemma NewHandles(s: State, o: Options, env: Surroundings)
    requires Inv(s)
    ensures var (s', r) := New(s, o, env);
      && s'.handles == (if r.Ok? then s.handles + multiset{r.value} else s.handles)
      && (r.Ok? ==> r.value < |s'.caches|)
  {
  }

  /** The mode of the cache handed out: the one it was opened with, or the one initDB reports now. */
  lemma NewMode(s: State, o: Options, env: Surroundings)
    requires Inv(s) && New(s, o, env).1.Ok?
    ensures var (s', r) := New(s, o, env);
      && r.value < |s'.caches|
      && if o in s.entries then s'.caches[r.value].shadowMode == s.caches[s.entries[o]].shadowMode
         else env.init == Connected(s'.caches[r.value].shadowMode)
  {
    NewRegistersRequest(s, o, env);
  }

  /** Which error New reports, and when: only a New under options not yet open fails. */
  lemma NewErrorIff(s: State, o: Options, env: Surroundings)
    requires Inv(s)
    ensures var r := New(s, o, env).1;
      && (r == Err(NoShadowGroup) <==> o !in s.entries && o.shadowGid < 0 && env.shadowGroup.None?)
      && (r == Err(InitFailed) <==>
            o !in s.entries && (o.shadowGid >= 0 || env.shadowGroup.Some?) && !env.init.Connected?)
      && (r == Err(PurgeFailed) <==>
            && o !in s.entries && (o.shadowGid >= 0 || env.shadowGroup.Some?)
            && env.init == Connected(2) && o.expiration != 0 && !env.purgeSucceeds)
  {
  }

  /** New opens a cache of its own. */
  predicate Opens(s: State, o: Options, env: Surroundings)
    requires o in s.entries ==> s.entries[o] < |s.caches|
  {
    o !in s.entries && New(s, o, env).1.Ok?
  }

  lemma NewOpensNext(s: State, o: Options, env: Surroundings)
    requires Inv(s) && Opens(s, o, env)
    ensures New(s, o, env).1 == Ok(|s.caches|) && |New(s, o, env).0.caches| == |s.caches| + 1
  {
  }

  /** What happened to the caches: at most one was added, registered under these options; entries only went otherwise. */
  predicate Extends(s: State, s': State, o: Options, opens: bool) {
    && |s'.caches| == |s.caches| + (if opens then 1 else 0)
    && (forall i :: 0 <= i < |s.caches| ==>
          s'.caches[i].sig == s.caches[i].sig && s'.caches[i].shadowMode == s.caches[i].shadowMode)
    && (opens ==> s'.caches[|s.caches|].sig == o)
    && (forall k :: k in s'.entries ==>
          (k in s.entries && s'.entries[k] == s.entries[k]) || (opens && k == o && s'.entries[k] == |s.caches|))
  }

  lemma OpenExtends(s: State, o: Options, env: Surroundings)
    ensures Extends(s, Open(s, o, env).0, o, Open(s, o, env).1.Ok?)
  {
  }

  lemma ReuseExtends(s: State, o: Options, id: nat)
    requires id < |s.caches|
    ensures Extends(s, Reuse(s, id), o, false)
  {
  }

  lemma NewExtends(s: State, o: Options, env: Surroundings)
    requires o in s.entries ==> s.entries[o] < |s.caches|
    ensures Extends(s, New(s, o, env).0, o, Opens(s, o, env))
  {
    if o in s.entries {
      ReuseExtends(s, o, s.entries[o]);
    } else {
      OpenExtends(s, o, env);
    }
  }

  lemma CloseExtends(s: State, s': State, o: Options, opens: bool, id: nat)
    requires Extends(s, s', o, opens) && id < |s'.caches|
    ensures Extends(s, Close(s', id), o, opens)
  {
  }

  /** A cache acquired and released at once stays registered, with its mode; its timer will decide. */
  lemma AcquiredStaysRegistered(s: State, o: Options, env: Surroundings)
    requires Inv(s) && New(s, o, env).1.Ok?
    ensures var (s1, r) := New(s, o, env);
      && r.value < |s1.caches|
      && var s2 := Close(s1, r.value);
         && r.value < |s2.caches| && o in s2.entries && s2.entries[o] == r.value
         && s2.caches[r.value].shadowMode == s1.caches[r.value].shadowMode
  {
    NewRegistersRequest(s, o, env);
  }

  lemma TimerFireExtends(s: State, o: Options, id: nat)
    requires id < |s.caches| && s.caches[id].db < |s.closes|
    ensures Extends(s, TimerFire(s, id), o, false)
  {
  }

  lemma AbandonInvariant(s: State)
    requires Inv(s)
    ensures Inv(Abandon(s))
  {
    forall i: nat | i < |s.caches| ensures Sound(Abandon(s), i) {
      assert Sound(s, i);
    }
  }

  lemma ReuseSound(s: State, id: nat, i: nat)
    requires Inv(s) && id < |s.caches| && Registered(s, id) && i < |s.caches|
    ensures Reuse(s, id).caches[i].db < |s.closes| && Sound(Reuse(s, id), i)
  {
    assert Sound(s, i);
  }

  lemma ReuseInvariant(s: State, id: nat)
    requires Inv(s) && id < |s.caches| && Registered(s, id)
    ensures Inv(Reuse(s, id))
  {
    var s' := Reuse(s, id);
    assert forall i :: 0 <= i < |s.caches| ==> s'.caches[i].db == s.caches[i].db && s'.caches[i].sig == s.caches[i].sig;
    forall i: nat | i < |s.caches| ensures Sound(s', i) {
      ReuseSound(s, id, i);
    }
  }

  /** What a successful New leaves when the options were not registered. */
  predicate Grown(s: State, s': State, c: CacheObject) {
    && c.db == |s.closes| && c.usedBy == 1 && c.sig !in s.entries
    && s' == State(s.entries[c.sig := |s.caches|], s.caches + [c], s.closes + [0], s.abandoned,
                   s.handles + multiset{|s.caches|}, s.timers)
  }

  lemma GrownSound(s: State, s': State, c: CacheObject, i: nat)
    requires Inv(s) && Grown(s, s', c) && i <= |s.caches|
    ensures s'.caches[i].db < |s'.closes| && Sound(s', i)
  {
    if i < |s.caches| {
      assert Sound(s, i);
    } else {
      assert s.handles[i] == 0;
    }
  }

  lemma GrownInvariant(s: State, s': State, c: CacheObject)
    requires Inv(s) && Grown(s, s', c)
    ensures Inv(s')
  {
    var n := |s.caches|;
    assert s'.caches[n] == c && forall i :: 0 <= i < n ==> s'.caches[i] == s.caches[i];
    forall i: nat | i <= n ensures Sound(s', i) {
      GrownSound(s, s', c, i);
    }
  }

  lemma NewInvariant(s: State, o: Options, env: Surroundings)
    requires Inv(s)
    ensures Inv(New(s, o, env).0)
  {
    var (s', r) := New(s, o, env);
    if o in s.entries {
      ReuseInvariant(s, s.entries[o]);
    } else if r.Ok? {
      NewRegistersRequest(s, o, env);
      GrownInvariant(s, s', s'.caches[|s.caches|]);
    } else {
      AbandonInvariant(s);
    }
  }

  lemma CloseSound(s: State, id: nat, i: nat)
    requires Inv(s) && id in s.handles && i < |s.caches|
    ensures Close(s, id).caches[i].db < |s.closes| && Sound(Close(s, id), i)
  {
    assert Sound(s, i);
    assert Sound(s, id);
  }

  lemma CloseInvariant(s: State, id: nat)
    requires Inv(s) && id in s.handles
    ensures Inv(Close(s, id))
  {
    var s' := Close(s, id);
    assert forall i :: 0 <= i < |s.caches| ==> s'.caches[i].db == s.caches[i].db && s'.caches[i].sig == s.caches[i].sig;
    forall i: nat | i < |s.caches| ensures Sound(s', i) {
      CloseSound(s, id, i);
    }
  }

  /** Tearing down one cache takes its own entry away and leaves the standing of the others. */
  lemma TeardownSound(s: State, id: nat, i: nat)
    requires Inv(s) && id in s.timers && s.caches[id].usedBy == 0 && i < |s.caches|
    ensures TimerFire(s, id).caches[i].db < |s.closes| && Sound(TimerFire(s, id), i)
  {
    assert Sound(s, id);
    assert Sound(s, i);
  }

  lemma TeardownInvariant(s: State, id: nat)
    requires Inv(s) && id in s.timers && s.caches[id].usedBy == 0
    ensures Inv(TimerFire(s, id))
  {
    var s' := TimerFire(s, id);
    assert forall i :: 0 <= i < |s.caches| ==> s'.caches[i].db == s.caches[i].db && s'.caches[i].sig == s.caches[i].sig;
    forall i: nat | i < |s.caches| ensures Sound(s', i) {
      TeardownSound(s, id, i);
    }
  }

  lemma TimerFireInvariant(s: State, id: nat)
    requires Inv(s) && id in s.timers
    ensures Inv(TimerFire(s, id))
  {
    if s.caches[id].usedBy == 0 {
      TeardownInvariant(s, id);
    } else {
      forall i: nat | i < |s.caches| ensures Sound(TimerFire(s, id), i) {
        assert Sound(s, i);
      }
    }
  }

  lemma ReuseThenClose(s: State, id: nat)
    requires id < |s.caches|
    ensures var s2 := Close(Reuse(s, id), id);
      s2.handles == s.handles && |s2.caches| == |s.caches| &&
      forall i :: 0 <= i < |s.caches| ==> s2.caches[i].usedBy == s.caches[i].usedBy
  {
  }

  lemma OpenThenClose(s: State, o: Options, env: Surroundings)
    requires Open(s, o, env).1.Ok?
    ensures var (s1, r) := Open(s, o, env);
      && r.value == |s.caches| < |s1.caches|
      && var s2 := Close(s1, r.value);
         s2.handles == s.handles && |s2.caches| >= |s.caches| &&
         forall i :: 0 <= i < |s.caches| ==> s2.caches[i].usedBy == s.caches[i].usedBy
  {
  }

  lemma NewThenCloseInvariant(s: State, o: Options, env: Surroundings)
    requires Inv(s) && New(s, o, env).1.Ok?
    ensures var (s1, r) := New(s, o, env);
      r.value in s1.handles && r.value < |s1.caches| && Inv(Close(s1, r.value))
  {
    NewInvariant(s, o, env);
    NewRegistersRequest(s, o, env);
    CloseInvariant(New(s, o, env).0, New(s, o, env).1.value);
  }

  /** Acquiring a cache and releasing it leaves every earlier reference count as it was. */
  lemma NewThenClose(s: State, o: Options, env: Surroundings)
    requires Inv(s) && New(s, o, env).1.Ok?
    ensures var (s1, r) := New(s, o, env);
      && r.value in s1.handles && r.value < |s1.caches|
      && var s2 := Close(s1, r.value);
         && Inv(s2) && s2.handles == s.handles && |s2.caches| >= |s.caches|
         && forall i :: 0 <= i < |s.caches| ==> s2.caches[i].usedBy == s.caches[i].usedBy
  {
    NewThenCloseInvariant(s, o, env);
    if o in s.entries {
      ReuseThenClose(s, s.entries[o]);
    } else {
      OpenThenClose(s, o, env);
    }
  }

  lemma StepInvariant(s: State, a: Action)
    requires Inv(s) && Enabled(s, a)
    ensures Inv(Step(s, a))
  {
    match a
    case DoNew(o, env) => NewInvariant(s, o, env);
    case DoClose(id) => CloseInvariant(s, id);
    case DoFire(id) => TimerFireInvariant(s, id);
  }

  // --------------------------------------------------------------------- whole runs

  /** An interleaving all of whose actions are enabled when their turn comes. */
  predicate Executes(s: State, actions: seq<Action>)
    decreases |actions|
  {
    actions != [] ==> Enabled(s, actions[0]) && Executes(Step(s, actions[0]), actions[1..])
  }

  function Run(s: State, actions: seq<Action>): State
    requires Executes(s, actions)
    decreases |actions|
  {
    if actions == [] then s else Run(Step(s, actions[0]), actions[1..])
  }

  lemma {:induction false} RunInvariant(s: State, actions: seq<Action>)
    requires Inv(s) && Executes(s, actions)
    ensures Inv(Run(s, actions))
    decreases |actions|
  {
    if actions != [] {
      StepInvariant(s, actions[0]);
      RunInvariant(Step(s, actions[0]), actions[1..]);
    }
  }

  /** The state of some interleaving. */
  ghost predicate Reachable(s: State) {
    exists actions :: Executes(INITIAL, actions) && s == Run(INITIAL, actions)
  }

  lemma ReachableInvariant(s: State)
    requires Reachable(s)
    ensures Inv(s)
  {
    var actions :| Executes(INITIAL, actions) && s == Run(INITIAL, actions);
    RunInvariant(INITIAL, actions);
  }

  lemma {:induction false} RunSnoc(s: State, actions: seq<Action>, a: Action)
    requires Executes(s, actions) && Enabled(Run(s, actions), a)
    ensures Executes(s, actions + [a]) && Run(s, actions + [a]) == Step(Run(s, actions), a)
    decreases |actions|
  {
    if actions == [] {
      assert actions + [a] == [a] && [a][1..] == [];
    } else {
      assert (actions + [a])[1..] == actions[1..] + [a];
      RunSnoc(Step(s, actions[0]), actions[1..], a);
    }
  }

  lemma ReachableStep(s: State, a: Action)
    requires Reachable(s) && Enabled(s, a)
    ensures Reachable(Step(s, a))
  {
    var actions :| Executes(INITIAL, actions) && s == Run(INITIAL, actions);
    RunSnoc(INITIAL, actions, a);
  }

  /** The invariant never lets a number be out of range: open handles and pending timers suffice. */
  lemma EnabledIff(s: State, id: nat, o: Options, env: Surroundings)
    requires Inv(s)
    ensures Enabled(s, DoNew(o, env))
    ensures Enabled(s, DoClose(id)) <==> id in s.handles
    ensures Enabled(s, DoFire(id)) <==> id in s.timers
  {
  }

  /** In every interleaving the entry under some options carries them and counts its open handles. */
  lemma EntriesCountHandles(actions: seq<Action>, o: Options)
    requires Executes(INITIAL, actions) && o in Run(INITIAL, actions).entries
    ensures var s := Run(INITIAL, actions);
      var id := s.entries[o];
      id < |s.caches| && s.caches[id].sig == o && s.caches[id].usedBy == s.handles[id]
  {
    var s := Run(INITIAL, actions);
    RunInvariant(INITIAL, actions);
    assert Sound(s, s.entries[o]);
  }

  predicate ConnectionOpen(s: State, id: nat) {
    id < |s.caches| && s.caches[id].db < |s.closes| && s.closes[s.caches[id].db] == 0
  }

  lemma HandleHoldsConnection(s: State, id: nat)
    requires Inv(s) && id in s.handles
    ensures ConnectionOpen(s, id) && Registered(s, id)
  {
    assert Sound(s, id);
  }

  /** In this interleaving somebody keeps a handle on the cache: no Close takes the last one. */
  predicate KeepsHandle(s: State, actions: seq<Action>, id: nat)
    requires Executes(s, actions)
    decreases |actions|
  {
    id in s.handles && (actions != [] ==> KeepsHandle(Step(s, actions[0]), actions[1..], id))
  }

  /** While a handle is kept, no interleaving closes the connection or hands out another cache for its options. */
  lemma {:induction false} KeptCacheStaysOpen(s: State, actions: seq<Action>, id: nat, env: Surroundings)
    requires Inv(s) && Executes(s, actions) && KeepsHandle(s, actions, id)
    ensures id < |s.caches|
    ensures var s' := Run(s, actions);
      && Inv(s') && id < |s'.caches| && ConnectionOpen(s', id)
      && s'.caches[id].sig == s.caches[id].sig && New(s', s.caches[id].sig, env).1 == Ok(id)
    decreases |actions|
  {
    HandleHoldsConnection(s, id);
    if actions != [] {
      StepInvariant(s, actions[0]);
      StepKeepsSignature(s, actions[0], id);
      KeptCacheStaysOpen(Step(s, actions[0]), actions[1..], id, env);
    }
  }

  lemma StepKeepsSignature(s: State, a: Action, id: nat)
    requires Enabled(s, a) && id < |s.caches|
    ensures id < |Step(s, a).caches| && Step(s, a).caches[id].sig == s.caches[id].sig
  {
  }

  lemma ClosedAtMostOnce(s: State, d: nat)
    requires Inv(s) && d < |s.closes|
    ensures s.closes[d] <= 1
  {
    if d !in s.abandoned {
      var i :| 0 <= i < |s.caches| && s.caches[i].db == d;
      assert Sound(s, i);
    }
  }

  /** No connection is closed while a handle to its cache is open, and none is closed twice ever. */
  lemma OpenHandleOpenConnection(actions: seq<Action>)
    requires Executes(INITIAL, actions)
    ensures var s := Run(INITIAL, actions);
      && (forall id :: id in s.handles ==> ConnectionOpen(s, id) && Registered(s, id))
      && (forall d :: 0 <= d < |s.closes| ==> s.closes[d] <= 1)
  {
    var s := Run(INITIAL, actions);
    RunInvariant(INITIAL, actions);
    forall id | id in s.handles ensures ConnectionOpen(s, id) && Registered(s, id) {
      HandleHoldsConnection(s, id);
    }
    forall d: nat | d < |s.closes| ensures s.closes[d] <= 1 {
      ClosedAtMostOnce(s, d);
    }
  }

  /** A timer of a cache that is gone or in use only disappears: no close, no entry removed. */
  lemma StaleTimerHarmless(s: State, id: nat)
    requires Inv(s) && id in s.timers
    requires !Registered(s, id) || id in s.handles
    ensures TimerFire(s, id) == s.(timers := s.timers - multiset{id})
  {
    assert Sound(s, id);
  }

  /** A timer that does tear down removes its own entry and closes its own connection, nothing else. */
  lemma TeardownIsPrecise(s: State, id: nat, o: Options)
    requires Inv(s) && id in s.timers && s.caches[id].usedBy == 0
    ensures var s' := TimerFire(s, id);
      && (o in s'.entries <==> o in s.entries && s.entries[o] != id)
      && (o in s'.entries ==> s'.entries[o] == s.entries[o])
      && s'.closes == s.closes[s.caches[id].db := 1]
  {
    assert Sound(s, id);
  }

  predicate StaysGone(s: State, s': State, id: nat)
    requires id < |s.caches|
  {
    id < |s'.caches| && s'.caches[id] == s.caches[id] && !Registered(s', id)
  }

  lemma NewKeepsTornDown(s: State, o: Options, env: Surroundings, id: nat)
    requires Inv(s) && id < |s.caches| && !Registered(s, id)
    ensures StaysGone(s, New(s, o, env).0, id) && New(s, o, env).1 != Ok(id)
  {
  }

  lemma StepKeepsTornDown(s: State, a: Action, id: nat)
    requires Inv(s) && Enabled(s, a) && id < |s.caches| && !Registered(s, id)
    ensures StaysGone(s, Step(s, a), id)
  {
    assert Sound(s, id);
    match a
    case DoNew(o, env) => NewKeepsTornDown(s, o, env, id);
    case DoClose(_) =>
    case DoFire(_) =>
  }

  /** The -1 mark is for good: no continuation returns, reopens or closes again a cache that is gone. */
  lemma {:induction false} TornDownForever(s: State, actions: seq<Action>, id: nat, o: Options, env: Surroundings)
    requires Inv(s) && Executes(s, actions) && id < |s.caches| && !Registered(s, id)
    ensures var s' := Run(s, actions);
      && Inv(s') && id < |s'.caches| && s'.caches[id] == s.caches[id] && s'.caches[id].usedBy == -1
      && s'.closes[s'.caches[id].db] == 1
      && New(s', o, env).1 != Ok(id)
    decreases |actions|
  {
    assert Sound(s, id);
    if actions == [] {
      NewKeepsTornDown(s, o, env, id);
    } else {
      StepInvariant(s, actions[0]);
      StepKeepsTornDown(s, actions[0], id);
      TornDownForever(Step(s, actions[0]), actions[1..], id, o, env);
    }
  }

  // ----------------------------------------------------------------------------- leaks

  /**
   This New gets as far as connecting and then fails, because the tables of new files cannot be
   created, shadow cannot be attached or the purge of a writable cache fails; nobody closes the connection.
   */
  predicate DropsConnection(s: State, a: Action) {
    && a.DoNew? && a.options !in s.entries
    && (a.options.shadowGid >= 0 || a.env.shadowGroup.Some?)
    && (|| a.env.init.ConnectedThenFailed?
        || (a.env.init == Connected(READ_WRITE) && a.options.expiration != 0 && !a.env.purgeSucceeds))
  }

  predicate RunDrops(s: State, actions: seq<Action>)
    requires Executes(s, actions)
    decreases |actions|
  {
    actions != [] && (DropsConnection(s, actions[0]) || RunDrops(Step(s, actions[0]), actions[1..]))
  }

  lemma {:induction false} AbandonedIff(s: State, actions: seq<Action>)
    requires Executes(s, actions)
    ensures s.abandoned <= Run(s, actions).abandoned
    ensures Run(s, actions).abandoned == {} <==> s.abandoned == {} && !RunDrops(s, actions)
    decreases |actions|
  {
    if actions != [] {
      AbandonedIff(Step(s, actions[0]), actions[1..]);
      if DropsConnection(s, actions[0]) {
        assert |s.closes| in Step(s, actions[0]).abandoned;
      }
    }
  }

  /** One such New is enough: nothing is left to close or to fire, and its connection stays open. */
  lemma LeakingRun(a: Action)
    requires DropsConnection(INITIAL, a)
    ensures Executes(INITIAL, [a])
    ensures var s := Run(INITIAL, [a]);
      s.handles == multiset{} && s.timers == multiset{} && s.entries == map[] && s.closes == [0]
  {
    assert [a][1..] == [];
    assert Run(INITIAL, [a]) == Run(Step(INITIAL, a), [a][1..]);
  }

  /** Every entry is kept by an open handle or waits for a timer. */
  lemma EntriesBusy(s: State)
    requires Inv(s)
    ensures forall o :: o in s.entries ==> s.entries[o] in s.handles || s.entries[o] in s.timers
  {
    forall o | o in s.entries ensures s.entries[o] in s.handles || s.entries[o] in s.timers {
      assert Sound(s, s.entries[o]);
    }
  }

  /**
   No leak, exactly: once every handle is closed and every timer has fired, the registry is empty,
   and every connection was closed exactly once if and only if no New connected and then failed.
   */
  lemma QuiescentIff(actions: seq<Action>)
    requires Executes(INITIAL, actions)
    requires Run(INITIAL, actions).handles == multiset{} && Run(INITIAL, actions).timers == multiset{}
    ensures var s := Run(INITIAL, actions);
      && s.entries == map[]
      && ((forall d :: 0 <= d < |s.closes| ==> s.closes[d] == 1) <==> !RunDrops(INITIAL, actions))
  {
    var s := Run(INITIAL, actions);
    RunInvariant(INITIAL, actions);
    AbandonedIff(INITIAL, actions);
    EntriesBusy(s);
    forall d | 0 <= d < |s.closes| && d !in s.abandoned ensures s.closes[d] == 1 {
      var i :| 0 <= i < |s.caches| && s.caches[i].db == d;
      assert Sound(s, i);
    }
    if RunDrops(INITIAL, actions) {
      var d :| d in s.abandoned;
    }
  }

  /** What is left to close or to fire; a Close may start one timer. */
  function Pending(s: State): nat {
    2 * |s.handles| + |s.timers|
  }

  lemma SomethingToDo(s: State) returns (a: Action)
    requires Inv(s) && !(s.handles == multiset{} && s.timers == multiset{})
    ensures !a.DoNew? && Enabled(s, a) && Pending(Step(s, a)) < Pending(s)
  {
    if id: nat :| id in s.handles {
      a := DoClose(id);
    } else {
      var id: nat :| id in s.timers;
      a := DoFire(id);
    }
  }

  /** From every reachable state, closing the handles and letting the timers fire empties the registry. */
  lemma {:induction false} ShutdownPossible(s: State) returns (actions: seq<Action>)
    requires Inv(s)
    ensures Executes(s, actions) && forall i :: 0 <= i < |actions| ==> !actions[i].DoNew?
    ensures Run(s, actions).handles == multiset{} && Run(s, actions).timers == multiset{}
    ensures Run(s, actions).entries == map[]
    decreases Pending(s)
  {
    if s.handles == multiset{} && s.timers == multiset{} {
      actions := [];
      EntriesBusy(s);
    } else {
      var a := SomethingToDo(s);
      StepInvariant(s, a);
      var rest := ShutdownPossible(Step(s, a));
      actions := [a] + rest;
      RunCons(s, a, rest);
    }
  }

  lemma RunCons(s: State, a: Action, rest: seq<Action>)
    requires Enabled(s, a) && Executes(Step(s, a), rest)
    ensures Executes(s, [a] + rest) && Run(s, [a] + rest) == Run(Step(s, a), rest)
  {
    assert ([a] + rest)[1..] == rest;
  }
}
