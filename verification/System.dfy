/**
 The whole system in motion: PAM attempts, other Go clients that acquire and release caches, firing
 teardown timers, other programs that work on the tables, and files that are lost and created again,
 in any order and for any number of cache directories.

 The files of a directory are created anew whenever one of them is missing. Each creation is a
 generation with tables of its own. A connection belongs to the generation that was current when it
 was opened and keeps it, even when the files have been removed meanwhile.
 */
module System {
  import opened Basics
  import opened Aad
  import opened Durations
  import C = Cache
  import T = Tables
  import R = Registry
  import Runs
  import Uids
  import Opening
  import Pam

  /** `held` is the generation of each cache, `current` the one a directory holds now. */
  datatype AnyState = State(registry: R.State, held: seq<nat>, current: map<string, nat>, worlds: seq<Runs.World>)

  /** The registry is in a state of one of its interleavings, and all numbers are in range. */
  ghost predicate Good(s: AnyState) {
    && R.Reachable(s.registry) && |s.held| == |s.registry.caches|
    && (forall o :: o in s.registry.entries ==> s.registry.entries[o] < |s.held|)
    && (forall i :: 0 <= i < |s.held| ==> s.held[i] < |s.worlds|)
    && (forall d :: d in s.current ==> s.current[d] < |s.worlds|)
  }

  /** No cache is open and no directory has files. */
  ghost function Beginning(): (s: AnyState)
    ensures Good(s)
  {
    assert R.Executes(R.INITIAL, []) && R.INITIAL == R.Run(R.INITIAL, []);
    State(R.INITIAL, [], map[], [])
  }

  /** Every step below is shown to keep the states good. */
  type State = s: AnyState | Good(s) ghost witness Beginning()

  ghost const START: State := Beginning()

  datatype Step =
    | Try(attempt: Pam.Attempt)
    | Acquire(options: R.Options, env: R.Surroundings, at: int)
    | Release(id: nat)
    | Fire(id: nat)
    | Elsewhere(generation: nat, event: Runs.Event)
    | Recreate(dir: string)

  /** The generation New gives access to: that of the open cache, else that of the files. */
  function Generation(s: State, o: R.Options): (g: Option<nat>)
    ensures g.Some? ==> g.value < |s.worlds|
  {
    if o in s.registry.entries then Some(s.held[s.registry.entries[o]])
    else if o.cacheDir in s.current then Some(s.current[o.cacheDir])
    else None
  }

  /** What New does to the tables, as events of a run. */
  function OpeningEvents(s: R.State, o: R.Options, env: R.Surroundings, at: int): seq<Runs.Event>
    requires R.Inv(s)
  {
    var (s1, r) := R.New(s, o, env);
    if r.Err? || o in s.entries then []
    else
      R.NewHandles(s, o, env);
      [Runs.GoOpen(s1.caches[r.value].shadowMode, o.expiration, at)]
  }

  /** What a PAM attempt does to the tables once it has a cache: an unshared opening, then the login. */
  function AcquiredEvents(a: Pam.Attempt, shared: bool, mode: int): seq<Runs.Event>
    requires a.config.Some?
  {
    (if shared then [] else [Runs.GoOpen(mode, Pam.CacheOptions(a).expiration, a.at)]) +
    (if Classify(a.answer) == NoNetwork then [] else [Runs.OnlineLogin(Pam.LoginOf(a, mode))])
  }

  /** What a PAM attempt does to the tables, as events of a run. */
  function AttemptEvents(s: R.State, a: Pam.Attempt): seq<Runs.Event>
    requires R.Inv(s)
  {
    if a.config.None? || Classify(a.answer) == Deny || R.New(s, Pam.CacheOptions(a), a.env).1.Err? then []
    else
      var o := Pam.CacheOptions(a);
      R.NewHandles(s, o, a.env);
      AcquiredEvents(a, o in s.entries, R.New(s, o, a.env).0.caches[R.New(s, o, a.env).1.value].shadowMode)
  }

  /** To the tables, New is the opening. */
  lemma AcquireIsRun(s: R.State, w: Runs.World, o: R.Options, env: R.Surroundings, at: int)
    requires R.Inv(s)
    ensures Runs.Run(w, OpeningEvents(s, o, env, at)).tables ==
      if R.New(s, o, env).1.Ok? then Opening.TablesAcquired(s, w.tables, o, env, at) else w.tables
  {
    var events := OpeningEvents(s, o, env, at);
    if events != [] {
      RunOne(w, events[0]);
      assert events == [events[0]];
    }
  }

  /** The directory allowed the login and the cache was updated. */
  ghost predicate Recorded(s: R.State, t: T.Tables, a: Pam.Attempt)
    requires R.Inv(s)
  {
    Classify(a.answer) == Allow && Pam.Outcome(s, t, a).2 == Pam.Success
  }

  lemma RunOne(w: Runs.World, e: Runs.Event)
    ensures Runs.Run(w, [e]) == Runs.Step(w, e)
  {
    assert [e][..0] == [];
  }

  lemma RunTwo(w: Runs.World, e: Runs.Event, f: Runs.Event)
    ensures Runs.Run(w, [e] + [f]) == Runs.Step(Runs.Step(w, e), f)
  {
    assert ([e] + [f])[..1] == [e];
    RunOne(w, e);
  }

  /** The log grew by purges only, or by purges and then this refresh. */
  predicate LogGrew(before: seq<Runs.Entry>, after: seq<Runs.Entry>, recorded: bool, a: Pam.Attempt) {
    var n := if recorded then |after| - 1 else |after|;
    && |before| <= n && before == after[..|before|]
    && (forall i :: |before| <= i < n ==> after[i].PurgedBelow?)
    && (recorded ==> after[n] == Runs.RefreshedBy(a.name, a.password, a.at))
  }

  /** The opening alone: at most one purge. */
  lemma OpeningStep(w: Runs.World, mode: int, days: int, a: Pam.Attempt)
    ensures var w' := Runs.Step(w, Runs.GoOpen(mode, days, a.at));
      w'.tables == Opening.TablesAtOpen(false, mode, days, w.tables, a.at) && LogGrew(w.log, w'.log, false, a)
  {
  }

  /** The login alone: recorded exactly when it succeeds. */
  lemma LoginStep(w: Runs.World, l: C.Login)
    ensures var w' := Runs.Step(w, Runs.OnlineLogin(l));
      && w'.tables == C.Update(w.tables, l).0
      && w'.log == w.log +
           if C.Update(w.tables, l).1.Ok? then [Runs.RefreshedBy(l.name, l.password, l.at)] else []
  {
  }

  lemma EventsRun(w: Runs.World, a: Pam.Attempt, shared: bool, mode: int)
    requires a.config.Some?
    ensures var opening := Runs.GoOpen(mode, Pam.CacheOptions(a).expiration, a.at);
      var w1 := if shared then w else Runs.Step(w, opening);
      Runs.Run(w, AcquiredEvents(a, shared, mode)) ==
        if Classify(a.answer) == NoNetwork then w1 else Runs.Step(w1, Runs.OnlineLogin(Pam.LoginOf(a, mode)))
  {
    var login := Runs.OnlineLogin(Pam.LoginOf(a, mode));
    var opening := Runs.GoOpen(mode, Pam.CacheOptions(a).expiration, a.at);
    RunOne(w, opening);
    RunOne(w, login);
    RunTwo(w, opening, login);
    assert [] + [login] == [login] && [opening] + [] == [opening];
  }

  /** From the state after the opening to the state after the decision. */
  lemma DecisionStep(before: seq<Runs.Entry>, w1: Runs.World, w2: Runs.World, a: Pam.Attempt, mode: int)
    requires a.config.Some? && Classify(a.answer) != Deny && LogGrew(before, w1.log, false, a)
    requires if Classify(a.answer) == NoNetwork then w2 == w1
      else var (t, r) := C.Update(w1.tables, Pam.LoginOf(a, mode));
        w2.tables == t && w2.log == w1.log + if r.Ok? then [Runs.RefreshedBy(a.name, a.password, a.at)] else []
    ensures var (t, r) := Pam.Decided(w1.tables, a, mode);
      w2.tables == t && LogGrew(before, w2.log, Classify(a.answer) == Allow && r == Pam.Success, a)
  {
  }

  lemma AcquiredSteps(w: Runs.World, w1: Runs.World, w2: Runs.World, a: Pam.Attempt, shared: bool, mode: int)
    requires a.config.Some? && Classify(a.answer) != Deny
    requires w1 == if shared then w else Runs.Step(w, Runs.GoOpen(mode, Pam.CacheOptions(a).expiration, a.at))
    requires w2 == if Classify(a.answer) == NoNetwork then w1 else Runs.Step(w1, Runs.OnlineLogin(Pam.LoginOf(a, mode)))
    ensures w1.tables == Opening.TablesAtOpen(shared, mode, Pam.CacheOptions(a).expiration, w.tables, a.at)
    ensures w2.tables == Pam.Decided(w1.tables, a, mode).0
    ensures LogGrew(w.log, w2.log, Classify(a.answer) == Allow && Pam.Decided(w1.tables, a, mode).1 == Pam.Success, a)
  {
    OpeningStep(w, mode, Pam.CacheOptions(a).expiration, a);
    LoginStep(w1, Pam.LoginOf(a, mode));
    DecisionStep(w.log, w1, w2, a, mode);
  }

  /** A PAM attempt is a short run: its tables are the run's, and it records a refresh iff it succeeds online. */
  lemma AttemptIsRun(s: R.State, w: Runs.World, a: Pam.Attempt)
    requires R.Inv(s)
    ensures var w' := Runs.Run(w, AttemptEvents(s, a));
      w'.tables == Pam.Outcome(s, w.tables, a).1 && LogGrew(w.log, w'.log, Recorded(s, w.tables, a), a)
  {
    if a.config.Some? && Classify(a.answer) != Deny && R.New(s, Pam.CacheOptions(a), a.env).1.Ok? {
      var o := Pam.CacheOptions(a);
      var (s1, r) := R.New(s, o, a.env);
      R.NewHandles(s, o, a.env);
      var shared, mode := o in s.entries, s1.caches[r.value].shadowMode;
      EventsRun(w, a, shared, mode);
      var w1 := if shared then w else Runs.Step(w, Runs.GoOpen(mode, o.expiration, a.at));
      AcquiredSteps(w, w1, Runs.Run(w, AcquiredEvents(a, shared, mode)), a, shared, mode);
    }
  }

  // ------------------------------------------------------------------------- executions

  /** Without files there is nothing to connect to; a New that creates them is Recreate and then this step. */
  predicate CanConnect(s: State, o: R.Options, env: R.Surroundings) {
    Generation(s, o).Some? || env.init.NotConnected?
  }

  /** Other programs work on any generation, since they too may have stale files open. */
  predicate Enabled(s: State, step: Step) {
    match step
    case Try(a) => a.config.Some? ==> CanConnect(s, Pam.CacheOptions(a), a.env)
    case Acquire(o, env, _) => CanConnect(s, o, env)
    case Release(id) => id in s.registry.handles
    case Fire(id) => id in s.registry.timers
    case Elsewhere(g, e) => g < |s.worlds| && !e.Reopen?
    case Recreate(_) => true
  }

  /** What is always possible: creating files, attempts and openings where there are files, and whatever is due. */
  lemma PossibleSteps(s: State, a: Pam.Attempt, o: R.Options, env: R.Surroundings, at: int, id: nat, g: nat, e: Runs.Event)
    ensures Enabled(s, Recreate(o.cacheDir))
    ensures o.cacheDir in s.current ==> Enabled(s, Acquire(o, env, at))
    ensures a.config.Some? && Pam.CacheOptions(a).cacheDir in s.current ==> Enabled(s, Try(a))
    ensures a.config.None? ==> Enabled(s, Try(a))
    ensures id in s.registry.handles ==> Enabled(s, Release(id))
    ensures id in s.registry.timers ==> Enabled(s, Fire(id))
    ensures g < |s.worlds| && !e.Reopen? ==> Enabled(s, Elsewhere(g, e))
  {
  }

  /** The generation and the events of a step: what it does to which tables. */
  function Touched(s: State, step: Step): Option<nat> {
    match step
    case Try(a) => if a.config.Some? then Generation(s, Pam.CacheOptions(a)) else None
    case Acquire(o, _, _) => Generation(s, o)
    case Elsewhere(g, _) => if g < |s.worlds| then Some(g) else None
    case _ => None
  }

  function EventsOf(s: State, step: Step): seq<Runs.Event> {
    R.ReachableInvariant(s.registry);
    match step
    case Try(a) => AttemptEvents(s.registry, a)
    case Acquire(o, env, at) => OpeningEvents(s.registry, o, env, at)
    case Elsewhere(_, e) => [e]
    case _ => []
  }

  /** The tables a PAM attempt works on. */
  function TablesFor(s: State, a: Pam.Attempt): T.Tables {
    match Touched(s, Try(a))
    case Some(g) => s.worlds[g].tables
    case None => T.EMPTY
  }

  ghost function RegistryAfter(s: State, step: Step): R.State
    requires Enabled(s, step)
  {
    R.ReachableInvariant(s.registry);
    match step
    case Try(a) => Pam.Outcome(s.registry, TablesFor(s, a), a).0
    case Acquire(o, env, _) => R.New(s.registry, o, env).0
    case Release(id) => R.Close(s.registry, id)
    case Fire(id) => R.TimerFire(s.registry, id)
    case _ => s.registry
  }

  /** The options under which the step opens a cache. */
  function Opened(s: State, step: Step): Option<R.Options> {
    R.ReachableInvariant(s.registry);
    match step
    case Try(a) => if Pam.AttemptOpens(s.registry, a) then Some(Pam.CacheOptions(a)) else None
    case Acquire(o, env, _) => if R.Opens(s.registry, o, env) then Some(o) else None
    case _ => None
  }

  /** A step takes the registry along an interleaving. */
  lemma RegistryReachable(s: State, step: Step)
    requires Enabled(s, step)
    ensures R.Reachable(RegistryAfter(s, step))
  {
    R.ReachableInvariant(s.registry);
    match step
    case Try(a) => Pam.AttemptReachable(s.registry, TablesFor(s, a), a);
    case Acquire(o, env, _) => R.ReachableStep(s.registry, R.DoNew(o, env));
    case Release(id) => R.ReachableStep(s.registry, R.DoClose(id));
    case Fire(id) => R.ReachableStep(s.registry, R.DoFire(id));
    case _ =>
  }

  /** It changes the registry by at most one new cache, opened on the current files of its directory. */
  lemma RegistryStep(s: State, step: Step, o: R.Options)
    requires Enabled(s, step) && (Opened(s, step).Some? ==> o == Opened(s, step).value)
    ensures R.Extends(s.registry, RegistryAfter(s, step), o, Opened(s, step).Some?)
    ensures Opened(s, step).Some? ==> o.cacheDir in s.current && Touched(s, step) == Some(s.current[o.cacheDir])
  {
    R.ReachableInvariant(s.registry);
    match step
    case Try(a) =>
      Pam.AttemptExtends(s.registry, TablesFor(s, a), a, if a.config.Some? then Pam.CacheOptions(a) else o);
    case Acquire(o', env, _) => R.NewExtends(s.registry, o', env);
    case Release(id) => R.CloseExtends(s.registry, s.registry, o, false, id);
    case Fire(id) => R.TimerFireExtends(s.registry, o, id);
    case _ =>
  }

  ghost function WorldsAfter(s: State, step: Step): seq<Runs.World> {
    match Touched(s, step)
    case Some(g) => s.worlds[g := Runs.Run(s.worlds[g], EventsOf(s, step))]
    case None => s.worlds + if step.Recreate? then [Runs.FRESH] else []
  }

  ghost function Next(s: State, step: Step): State
    requires Enabled(s, step)
  {
    var added := Opened(s, step);
    RegistryReachable(s, step);
    RegistryStep(s, step, if added.Some? then added.value else Pam.DEFAULT_OPTIONS);
    State(RegistryAfter(s, step),
          s.held + (if added.Some? then [s.current[added.value.cacheDir]] else []),
          if step.Recreate? then s.current[step.dir := |s.worlds|] else s.current,
          WorldsAfter(s, step))
  }

  ghost predicate Executes(s: State, steps: seq<Step>)
    decreases |steps|
  {
    steps != [] ==> Enabled(s, steps[0]) && Executes(Next(s, steps[0]), steps[1..])
  }

  ghost function After(s: State, steps: seq<Step>): State
    requires Executes(s, steps)
    decreases |steps|
  {
    if steps == [] then s else After(Next(s, steps[0]), steps[1..])
  }

  /** What each step does to the registry, in terms of the operations themselves. */
  lemma StepRegistry(s: State, step: Step)
    requires Enabled(s, step) && R.Inv(s.registry)
    ensures match step
      case Try(a) => Next(s, step).registry == Pam.Outcome(s.registry, TablesFor(s, a), a).0
      case Acquire(o, env, _) => Next(s, step).registry == R.New(s.registry, o, env).0
      case Release(id) => id < |s.registry.caches| && Next(s, step).registry == R.Close(s.registry, id)
      case Fire(id) =>
        && id < |s.registry.caches| && s.registry.caches[id].db < |s.registry.closes|
        && Next(s, step).registry == R.TimerFire(s.registry, id)
      case Elsewhere(_, _) => Next(s, step).registry == s.registry
      case Recreate(_) => Next(s, step).registry == s.registry
  {
  }

  lemma WorldAfter(s: State, step: Step, g: nat)
    requires Enabled(s, step) && g < |s.worlds|
    ensures g < |Next(s, step).worlds|
    ensures Next(s, step).worlds[g] ==
      if Touched(s, step) == Some(g) then Runs.Run(s.worlds[g], EventsOf(s, step)) else s.worlds[g]
  {
  }

  /** And to the tables: only those of one generation change, as the operation changes them. */
  lemma StepTables(s: State, step: Step, g: nat)
    requires Enabled(s, step) && R.Inv(s.registry) && g < |s.worlds|
    ensures g < |Next(s, step).worlds|
    ensures var (w, w') := (s.worlds[g], Next(s, step).worlds[g]);
      match step
      case Try(a) =>
        w'.tables == if Touched(s, step) == Some(g) then Pam.Outcome(s.registry, w.tables, a).1 else w.tables
      case Acquire(o, env, at) =>
        w'.tables == if Generation(s, o) == Some(g) && R.New(s.registry, o, env).1.Ok?
                     then Opening.TablesAcquired(s.registry, w.tables, o, env, at) else w.tables
      case Elsewhere(h, e) => w' == if h == g then Runs.Step(w, e) else w
      case _ => w' == w
  {
    WorldAfter(s, step, g);
    match step
    case Try(a) => AttemptIsRun(s.registry, s.worlds[g], a);
    case Acquire(o, env, at) => AcquireIsRun(s.registry, s.worlds[g], o, env, at);
    case Elsewhere(h, e) => RunOne(s.worlds[g], e);
    case _ =>
  }

  // ----------------------------------------------------------------- every generation is a run

  ghost predicate IsRun(w: Runs.World) {
    exists events :: w == Runs.Run(Runs.FRESH, events)
  }

  ghost predicate AllRuns(worlds: seq<Runs.World>) {
    forall g :: 0 <= g < |worlds| ==> IsRun(worlds[g])
  }

  lemma RunContinues(w: Runs.World, more: seq<Runs.Event>)
    requires IsRun(w)
    ensures IsRun(Runs.Run(w, more))
  {
    var events :| w == Runs.Run(Runs.FRESH, events);
    Runs.RunConcat(Runs.FRESH, events, more);
  }

  lemma StepRuns(s: State, step: Step)
    requires Enabled(s, step) && AllRuns(s.worlds)
    ensures AllRuns(Next(s, step).worlds)
  {
    match Touched(s, step)
    case Some(g) => RunContinues(s.worlds[g], EventsOf(s, step));
    case None => assert Runs.FRESH == Runs.Run(Runs.FRESH, []);
  }

  /** In every execution, the tables of every generation are those of a run of the cache on fresh files. */
  lemma {:induction false} EveryGenerationIsARun(s: State, steps: seq<Step>)
    requires Executes(s, steps) && AllRuns(s.worlds)
    ensures AllRuns(After(s, steps).worlds)
    decreases |steps|
  {
    if steps != [] {
      StepRuns(s, steps[0]);
      EveryGenerationIsARun(Next(s, steps[0]), steps[1..]);
    }
  }

  // -------------------------------------------------------------------- where refreshes come from

  ghost function LogOf(s: State, g: nat): seq<Runs.Entry> {
    if g < |s.worlds| then s.worlds[g].log else []
  }

  /** The step committed this refresh to the generation: an attempt that succeeded online, or a login elsewhere. */
  ghost predicate Commits(s: State, step: Step, g: nat, entry: Runs.Entry) {
    R.ReachableInvariant(s.registry);
    && Touched(s, step) == Some(g)
    && match step
       case Try(a) =>
         Recorded(s.registry, s.worlds[g].tables, a) && entry == Runs.RefreshedBy(a.name, a.password, a.at)
       case Elsewhere(_, OnlineLogin(l)) =>
         C.Update(s.worlds[g].tables, l).1.Ok? && entry == Runs.RefreshedBy(l.name, l.password, l.at)
       case _ => false
  }

  /** The log was kept, and each refresh added to it satisfies the condition. */
  ghost predicate Accounted(before: seq<Runs.Entry>, after: seq<Runs.Entry>, expected: Runs.Entry, committed: bool) {
    && before <= after
    && forall k :: |before| <= k < |after| && after[k].RefreshedBy? ==> committed && after[k] == expected
  }

  /** On plain sequences: purges and at most one refresh. */
  lemma GrewIsAccounted(before: seq<Runs.Entry>, after: seq<Runs.Entry>, recorded: bool, a: Pam.Attempt)
    requires LogGrew(before, after, recorded, a)
    ensures Accounted(before, after, Runs.RefreshedBy(a.name, a.password, a.at), recorded)
  {
  }

  lemma AttemptLog(s: R.State, w: Runs.World, a: Pam.Attempt)
    requires R.Inv(s)
    ensures Accounted(w.log, Runs.Run(w, AttemptEvents(s, a)).log, Runs.RefreshedBy(a.name, a.password, a.at),
                      Recorded(s, w.tables, a))
  {
    AttemptIsRun(s, w, a);
    GrewIsAccounted(w.log, Runs.Run(w, AttemptEvents(s, a)).log, Recorded(s, w.tables, a), a);
  }

  /** A single event commits at most the refresh of its own login. */
  lemma EventLog(w: Runs.World, e: Runs.Event)
    ensures w.log <= Runs.Run(w, [e]).log
    ensures forall k :: |w.log| <= k < |Runs.Run(w, [e]).log| && Runs.Run(w, [e]).log[k].RefreshedBy? ==>
      && e.OnlineLogin? && C.Update(w.tables, e.login).1.Ok?
      && Runs.Run(w, [e]).log[k] == Runs.RefreshedBy(e.login.name, e.login.password, e.login.at)
  {
    RunOne(w, e);
  }

  lemma OpeningLog(s: R.State, w: Runs.World, o: R.Options, env: R.Surroundings, at: int)
    requires R.Inv(s)
    ensures var after := Runs.Run(w, OpeningEvents(s, o, env, at)).log;
      w.log <= after && forall k :: |w.log| <= k < |after| ==> !after[k].RefreshedBy?
  {
    var events := OpeningEvents(s, o, env, at);
    if events != [] {
      assert events == [events[0]];
      EventLog(w, events[0]);
    }
  }

  /** A step works on one generation and leaves the logs of the others alone. */
  lemma LogAfter(s: State, step: Step, g: nat)
    requires Enabled(s, step)
    ensures LogOf(Next(s, step), g) ==
      if Touched(s, step) == Some(g) then Runs.Run(s.worlds[g], EventsOf(s, step)).log else LogOf(s, g)
  {
  }

  /** The log was kept, and each refresh added was committed by the step. */
  ghost predicate LogAccounted(s: State, step: Step, g: nat, before: seq<Runs.Entry>, after: seq<Runs.Entry>) {
    && before <= after
    && forall k :: |before| <= k < |after| && after[k].RefreshedBy? ==> Commits(s, step, g, after[k])
  }

  lemma TouchedLog(s: State, step: Step, g: nat)
    requires Enabled(s, step) && Touched(s, step) == Some(g)
    ensures LogAccounted(s, step, g, s.worlds[g].log, Runs.Run(s.worlds[g], EventsOf(s, step)).log)
  {
    R.ReachableInvariant(s.registry);
    match step
    case Try(a) => AttemptLog(s.registry, s.worlds[g], a);
    case Acquire(o, env, at) => OpeningLog(s.registry, s.worlds[g], o, env, at);
    case Elsewhere(_, e) => EventLog(s.worlds[g], e);
  }

  /** A step keeps every log, and a refresh it adds to one is a refresh it committed there. */
  lemma StepLog(s: State, step: Step, g: nat)
    requires Enabled(s, step)
    ensures LogAccounted(s, step, g, LogOf(s, g), LogOf(Next(s, step), g))
  {
    LogAfter(s, step, g);
    if Touched(s, step) == Some(g) {
      TouchedLog(s, step, g);
    }
  }

  lemma {:induction false} LogPersists(s: State, steps: seq<Step>, g: nat)
    requires Executes(s, steps)
    ensures LogOf(s, g) <= LogOf(After(s, steps), g)
    decreases |steps|
  {
    if steps != [] {
      StepLog(s, steps[0], g);
      LogPersists(Next(s, steps[0]), steps[1..], g);
    }
  }

  lemma PrefixNothing(s: State, steps: seq<Step>)
    ensures Executes(s, steps[..0]) && After(s, steps[..0]) == s
  {
  }

  /** One step more at the beginning. */
  lemma PrefixShift(s: State, steps: seq<Step>, j: nat)
    requires steps != [] && j < |steps| && Enabled(s, steps[0])
    requires Executes(Next(s, steps[0]), steps[1..][..j])
    ensures Executes(s, steps[..j + 1])
    ensures After(s, steps[..j + 1]) == After(Next(s, steps[0]), steps[1..][..j])
  {
    assert steps[..j + 1][1..] == steps[1..][..j];
  }

  /** Every refresh in a log of an execution was committed there by one of its steps. */
  lemma {:induction false} RefreshHasOrigin(s: State, steps: seq<Step>, g: nat, k: nat) returns (i: nat)
    requires Executes(s, steps)
    requires |LogOf(s, g)| <= k < |LogOf(After(s, steps), g)| && LogOf(After(s, steps), g)[k].RefreshedBy?
    ensures i < |steps| && Executes(s, steps[..i])
    ensures Commits(After(s, steps[..i]), steps[i], g, LogOf(After(s, steps), g)[k])
    decreases |steps|
  {
    var next, rest := Next(s, steps[0]), steps[1..];
    StepLog(s, steps[0], g);
    LogPersists(next, rest, g);
    if k < |LogOf(next, g)| {
      PrefixNothing(s, steps);
      i := 0;
    } else {
      var j := RefreshHasOrigin(next, rest, g, k);
      PrefixShift(s, steps, j);
      i := j + 1;
    }
  }

  // ------------------------------------------------------------------------ offline success

  ghost function Result(s: State, a: Pam.Attempt): Pam.PamResult {
    R.ReachableInvariant(s.registry);
    Pam.Outcome(s.registry, TablesFor(s, a), a).2
  }

  lemma TablesOfGeneration(s: State, a: Pam.Attempt)
    requires Enabled(s, Try(a)) && a.config.Some? && R.New(s.registry, Pam.CacheOptions(a), a.env).1.Ok?
    ensures var g := Generation(s, Pam.CacheOptions(a));
      g.Some? && TablesFor(s, a) == s.worlds[g.value].tables
  {
  }

  /**
   The system theorem. At any point of any execution and for any days, a PAM attempt without network
   succeeds exactly when the cache it gets can read shadow, the days are not negative, and the log of
   the generation which that cache holds has the latest refresh of that name, made with that password,
   standing, unexpired and spared by the purge of the opening, if the attempt opens the cache.
   */
  lemma OfflineSuccessIff(steps: seq<Step>, s: State, a: Pam.Attempt)
    requires Executes(START, steps) && s == After(START, steps) && Enabled(s, Try(a))
    requires a.config.Some? && (a.answer == NoClient || a.answer == OtherError)
    requires R.New(s.registry, Pam.CacheOptions(a), a.env).1.Ok?
    ensures var o := Pam.CacheOptions(a);
      var (s1, r) := R.New(s.registry, o, a.env);
      && r.value < |s1.caches| && Generation(s, o).Some?
      && var (mode, log) := (s1.caches[r.value].shadowMode, s.worlds[Generation(s, o).value].log);
         (Result(s, a) == Pam.Success <==>
           && mode >= READ_ONLY && o.expiration >= 0
           && exists i :: Pam.Admits(log, i, a.name, a.password, o in s.registry.entries, mode, o.expiration, a.at))
  {
    EveryGenerationIsARun(START, steps);
    TablesOfGeneration(s, a);
    OfflineResultIff(s, s.worlds[Generation(s, Pam.CacheOptions(a)).value], a);
  }

  /** The same for one generation. */
  lemma OfflineResultIff(s: State, w: Runs.World, a: Pam.Attempt)
    requires IsRun(w) && TablesFor(s, a) == w.tables
    requires a.config.Some? && (a.answer == NoClient || a.answer == OtherError)
    requires R.New(s.registry, Pam.CacheOptions(a), a.env).1.Ok?
    ensures var o := Pam.CacheOptions(a);
      var (s1, r) := R.New(s.registry, o, a.env);
      && r.value < |s1.caches|
      && var mode := s1.caches[r.value].shadowMode;
         (Result(s, a) == Pam.Success <==>
           && mode >= READ_ONLY && o.expiration >= 0
           && exists i :: Pam.Admits(w.log, i, a.name, a.password, o in s.registry.entries, mode, o.expiration, a.at))
  {
    R.ReachableInvariant(s.registry);
    var events :| w == Runs.Run(Runs.FRESH, events);
    Pam.OfflineAttemptIff(events, s.registry, a);
  }

  /** An allowed login through an acquired cache, on the tables of a run. */
  lemma OnlineResultIff(s: State, t: T.Tables, a: Pam.Attempt)
    requires T.Weak(t) && TablesFor(s, a) == t
    requires a.config.Some? && Classify(a.answer) == Allow
    requires R.New(s.registry, Pam.CacheOptions(a), a.env).1.Ok?
    ensures var o := Pam.CacheOptions(a);
      var (s1, r) := R.New(s.registry, o, a.env);
      && r.value < |s1.caches|
      && var mode := s1.caches[r.value].shadowMode;
         var t1 := Opening.TablesAtOpen(o in s.registry.entries, mode, o.expiration, t, a.at);
         (Result(s, a) == Pam.Success <==>
           && mode == READ_WRITE && !a.interrupted
           && (T.LoginTaken(t1, a.name) ||
               (!C.Leftover(t, a.name) && Uids.HasFreeId(t1) && C.SoundPattern(a.config.value.pattern, a.name))))
  {
    var o := Pam.CacheOptions(a);
    R.ReachableInvariant(s.registry);
    R.NewHandles(s.registry, o, a.env);
    var (s1, r) := R.New(s.registry, o, a.env);
    var mode := s1.caches[r.value].shadowMode;
    var t1 := Opening.TablesAtOpen(o in s.registry.entries, mode, o.expiration, t, a.at);
    OnlineDecided(s.registry, t, a);
    OpeningLeftover(t, o in s.registry.entries, mode, o.expiration, a.at, a.name);
    C.LoginIff(t1, Pam.LoginOf(a, mode));
  }

  lemma OnlineDecided(s: R.State, t: T.Tables, a: Pam.Attempt)
    requires R.Inv(s) && a.config.Some? && Classify(a.answer) == Allow && R.New(s, Pam.CacheOptions(a), a.env).1.Ok?
    ensures var o := Pam.CacheOptions(a);
      var (s1, r) := R.New(s, o, a.env);
      && r.value < |s1.caches|
      && var mode := s1.caches[r.value].shadowMode;
         var t1 := Opening.TablesAtOpen(o in s.entries, mode, o.expiration, t, a.at);
         Pam.Outcome(s, t, a).2 == Pam.Success <==> C.Update(t1, Pam.LoginOf(a, mode)).1 == Ok(())
  {
    R.NewHandles(s, Pam.CacheOptions(a), a.env);
  }

  /** The purge of an opening neither makes nor removes a leftover. */
  lemma OpeningLeftover(t: T.Tables, shared: bool, mode: int, days: int, at: int, name: string)
    requires T.Weak(t)
    ensures var t1 := Opening.TablesAtOpen(shared, mode, days, t, at);
      T.Weak(t1) && (C.Leftover(t1, name) <==> C.Leftover(t, name))
  {
    T.GoPurgedInvariant(t, GoThreshold(at, days));
    Runs.PurgedLeftover(t, GoThreshold(at, days), name);
  }

  /**
   The online half. At any point of any execution, an attempt that the directory allows and that gets a
   cache succeeds exactly when shadow is writable, the login is not cut short, and the user is in the
   tables as the opening leaves them, or can be created: no group of that name was left over by the NSS
   module, an id is free and the pattern expands.
   */
  lemma OnlineSuccessIff(steps: seq<Step>, s: State, a: Pam.Attempt)
    requires Executes(START, steps) && s == After(START, steps) && Enabled(s, Try(a))
    requires a.config.Some? && Classify(a.answer) == Allow
    requires R.New(s.registry, Pam.CacheOptions(a), a.env).1.Ok?
    ensures var o := Pam.CacheOptions(a);
      var (s1, r) := R.New(s.registry, o, a.env);
      && r.value < |s1.caches| && Generation(s, o).Some?
      && var (mode, t) := (s1.caches[r.value].shadowMode, s.worlds[Generation(s, o).value].tables);
         var t1 := Opening.TablesAtOpen(o in s.registry.entries, mode, o.expiration, t, a.at);
         (Result(s, a) == Pam.Success <==>
           && mode == READ_WRITE && !a.interrupted
           && (T.LoginTaken(t1, a.name) ||
               (!C.Leftover(t, a.name) && Uids.HasFreeId(t1) && C.SoundPattern(a.config.value.pattern, a.name))))
  {
    EveryGenerationIsARun(START, steps);
    TablesOfGeneration(s, a);
    var w := s.worlds[Generation(s, Pam.CacheOptions(a)).value];
    RunIsWeak(w);
    OnlineResultIff(s, w.tables, a);
  }

  lemma RunIsWeak(w: Runs.World)
    requires IsRun(w)
    ensures T.Weak(w.tables)
  {
    var events :| w == Runs.Run(Runs.FRESH, events);
    Runs.MixedRunInvariant(Runs.FRESH, events);
  }

  /** The tables and the mode an offline attempt that succeeded was checked against. */
  lemma OfflineChecked(s: R.State, t: T.Tables, a: Pam.Attempt) returns (mode: int)
    requires R.Inv(s) && a.config.Some? && Pam.Outcome(s, t, a).2 == Pam.Success
    requires a.answer == NoClient || a.answer == OtherError
    ensures C.CanAuthenticate(Pam.Outcome(s, t, a).1, mode, Pam.CacheOptions(a).expiration, a.name, a.password, a.at) == Ok(())
  {
    var o := Pam.CacheOptions(a);
    var (s1, r) := R.New(s, o, a.env);
    R.NewHandles(s, o, a.env);
    mode := s1.caches[r.value].shadowMode;
    Pam.SuccessIff(s, t, a);
  }

  /** Whoever is let in offline owes it to a refresh already in the log, at most the configured days old. */
  lemma SuccessHasRefresh(s: R.State, w: Runs.World, a: Pam.Attempt) returns (k: nat)
    requires R.Inv(s) && IsRun(w) && a.config.Some? && Pam.Outcome(s, w.tables, a).2 == Pam.Success
    requires a.answer == NoClient || a.answer == OtherError
    ensures k < |w.log| && w.log[k].RefreshedBy? && w.log[k].user == a.name && w.log[k].password == a.password
    ensures var days := Pam.CacheOptions(a).expiration;
      days >= 0 && (days == 0 || a.at <= w.log[k].at + days * DAY)
  {
    var events :| w == Runs.Run(Runs.FRESH, events);
    var more := AttemptEvents(s, a);
    Runs.RunConcat(Runs.FRESH, events, more);
    AttemptIsRun(s, w, a);
    var mode := OfflineChecked(s, w.tables, a);
    k := Runs.OfflineLoginIsRecent(events + more, mode, Pam.CacheOptions(a).expiration, a.name, a.password, a.at);
    assert !Recorded(s, w.tables, a);
  }

  /**
   No credential comes from nowhere: whoever is let in without network, through a generation without
   refreshes at the beginning of the execution, used the password of an online login that a step of
   the execution recorded in that generation, at most the configured days ago.
   */
  lemma OfflineSuccessHasOrigin(s0: State, steps: seq<Step>, a: Pam.Attempt) returns (i: nat, at: int)
    requires AllRuns(s0.worlds) && Executes(s0, steps) && Enabled(After(s0, steps), Try(a))
    requires a.config.Some?
    requires a.answer == NoClient || a.answer == OtherError
    requires Result(After(s0, steps), a) == Pam.Success
    requires var g := Generation(After(s0, steps), Pam.CacheOptions(a)); g.Some? ==> LogOf(s0, g.value) == []
    ensures i < |steps| && Executes(s0, steps[..i])
    ensures Generation(After(s0, steps), Pam.CacheOptions(a)).Some?
    ensures Commits(After(s0, steps[..i]), steps[i], Generation(After(s0, steps), Pam.CacheOptions(a)).value,
                    Runs.RefreshedBy(a.name, a.password, at))
    ensures var days := Pam.CacheOptions(a).expiration;
      days >= 0 && (days == 0 || a.at <= at + days * DAY)
  {
    var s := After(s0, steps);
    EveryGenerationIsARun(s0, steps);
    SuccessHasGeneration(s, a);
    var g := Generation(s, Pam.CacheOptions(a)).value;
    R.ReachableInvariant(s.registry);
    var k := SuccessHasRefresh(s.registry, s.worlds[g], a);
    i := RefreshHasOrigin(s0, steps, g, k);
    at := s.worlds[g].log[k].at;
  }

  lemma SuccessHasGeneration(s: State, a: Pam.Attempt)
    requires Enabled(s, Try(a)) && Result(s, a) == Pam.Success
    ensures a.config.Some? && Generation(s, Pam.CacheOptions(a)).Some?
  {
  }

  // ----------------------------------------------------------------- the mode of a cache

  function EnvOf(step: Step): Option<R.Surroundings> {
    match step
    case Try(a) => Some(a.env)
    case Acquire(_, env, _) => Some(env)
    case _ => None
  }

  /** initDB reported this mode to the step. */
  predicate Reported(step: Step, mode: int) {
    match EnvOf(step)
    case Some(env) => env.init == R.Connected(mode)
    case None => false
  }

  function ModeOf(s: State, id: nat): int
    requires id < |s.registry.caches|
  {
    s.registry.caches[id].shadowMode
  }

  /** No step changes the mode of a cache, */
  lemma ModeKept(s: State, step: Step, id: nat)
    requires Enabled(s, step) && id < |s.registry.caches|
    ensures id < |Next(s, step).registry.caches| && ModeOf(Next(s, step), id) == ModeOf(s, id)
  {
    var added := Opened(s, step);
    RegistryStep(s, step, if added.Some? then added.value else Pam.DEFAULT_OPTIONS);
  }

  /** and one that opens a cache gives it the mode reported by initDB. */
  lemma ModeGiven(s: State, step: Step)
    requires Enabled(s, step)
    ensures var n := |s.registry.caches|;
      |Next(s, step).registry.caches| != n ==>
        |Next(s, step).registry.caches| == n + 1 && Reported(step, ModeOf(Next(s, step), n))
  {
    var added := Opened(s, step);
    RegistryStep(s, step, if added.Some? then added.value else Pam.DEFAULT_OPTIONS);
    if added.Some? {
      R.ReachableInvariant(s.registry);
      match step
      case Try(a) => AttemptModeGiven(s.registry, TablesFor(s, a), a);
      case Acquire(o, env, _) =>
        R.NewMode(s.registry, o, env);
        R.NewOpensNext(s.registry, o, env);
    }
  }

  lemma AttemptModeGiven(s: R.State, t: T.Tables, a: Pam.Attempt)
    requires R.Inv(s) && Pam.AttemptOpens(s, a)
    ensures var s' := Pam.Outcome(s, t, a).0;
      |s.caches| < |s'.caches| && a.env.init == R.Connected(s'.caches[|s.caches|].shadowMode)
  {
    R.NewMode(s, Pam.CacheOptions(a), a.env);
    R.NewOpensNext(s, Pam.CacheOptions(a), a.env);
  }

  /** The mode of a cache is the one reported to the step of the execution that opened it. */
  lemma {:induction false} ModeHasOrigin(s: State, steps: seq<Step>, id: nat) returns (i: nat)
    requires Executes(s, steps) && |s.registry.caches| <= id < |After(s, steps).registry.caches|
    ensures i < |steps| && Reported(steps[i], ModeOf(After(s, steps), id))
    decreases |steps|
  {
    if id < |Next(s, steps[0]).registry.caches| {
      FirstMode(s, steps[0], steps[1..], id);
      i := 0;
    } else {
      var j := ModeHasOrigin(Next(s, steps[0]), steps[1..], id);
      i := j + 1;
    }
  }

  lemma FirstMode(s: State, step: Step, rest: seq<Step>, id: nat)
    requires Enabled(s, step) && Executes(Next(s, step), rest)
    requires |s.registry.caches| <= id < |Next(s, step).registry.caches|
    ensures id < |After(Next(s, step), rest).registry.caches|
    ensures Reported(step, ModeOf(After(Next(s, step), rest), id))
  {
    ModeGiven(s, step);
    ModesLast(Next(s, step), rest, id);
  }

  lemma {:induction false} ModesLast(s: State, steps: seq<Step>, id: nat)
    requires Executes(s, steps) && id < |s.registry.caches|
    ensures id < |After(s, steps).registry.caches| && ModeOf(After(s, steps), id) == ModeOf(s, id)
    decreases |steps|
  {
    if steps != [] {
      ModeKept(s, steps[0], id);
      ModesLast(Next(s, steps[0]), steps[1..], id);
    }
  }

  /** The mode an attempt works with: reported to it, or to the earlier step that opened the shared cache. */
  lemma AttemptMode(steps: seq<Step>, s: State, a: Pam.Attempt) returns (env: R.Surroundings)
    requires Executes(START, steps) && s == After(START, steps)
    requires a.config.Some? && R.New(s.registry, Pam.CacheOptions(a), a.env).1.Ok?
    ensures var (s1, r) := R.New(s.registry, Pam.CacheOptions(a), a.env);
      r.value < |s1.caches| && env.init == R.Connected(s1.caches[r.value].shadowMode)
    ensures env == a.env || exists i :: 0 <= i < |steps| && EnvOf(steps[i]) == Some(env)
  {
    var o := Pam.CacheOptions(a);
    R.ReachableInvariant(s.registry);
    R.NewMode(s.registry, o, a.env);
    env := a.env;
    if o in s.registry.entries {
      var i := ModeHasOrigin(START, steps, s.registry.entries[o]);
      env := EnvOf(steps[i]).value;
    }
  }

  // ----------------------------------------------------------------- files created again

  /** The cache registered under o before the files went is registered still. */
  predicate Kept(before: AnyState, s: AnyState, o: R.Options) {
    && o in before.registry.entries && o in s.registry.entries
    && s.registry.entries[o] == before.registry.entries[o]
  }

  /** What holds of a directory from the creation of its files until the next one. */
  predicate Aftermath(before: AnyState, dir: string, s: AnyState) {
    var (n, g) := (|before.held|, |before.worlds|);
    && dir in s.current && s.current[dir] == g && |s.held| == |s.registry.caches|
    && n <= |s.held| && s.held[..n] == before.held
    && (forall id :: n <= id < |s.held| && s.registry.caches[id].sig.cacheDir == dir ==> s.held[id] == g)
    && (forall o :: o in s.registry.entries && s.registry.entries[o] < n ==> Kept(before, s, o))
  }

  /** A new cache of the directory, if there is one, holds the files as they are now. */
  lemma AftermathExtends(before: AnyState, dir: string, s: AnyState, s': AnyState, o: R.Options, opens: bool)
    requires Aftermath(before, dir, s) && R.Extends(s.registry, s'.registry, o, opens)
    requires dir in s'.current && s'.current[dir] == s.current[dir]
    requires opens ==> o.cacheDir in s.current
    requires s'.held == s.held + if opens then [s.current[o.cacheDir]] else []
    ensures Aftermath(before, dir, s')
  {
    assert s'.held[..|before.held|] == s.held[..|before.held|];
  }

  lemma AftermathStep(before: State, dir: string, s: State, step: Step)
    requires Aftermath(before, dir, s) && Enabled(s, step) && step != Recreate(dir)
    ensures Aftermath(before, dir, Next(s, step))
  {
    var added := Opened(s, step);
    var o := if added.Some? then added.value else Pam.DEFAULT_OPTIONS;
    RegistryStep(s, step, o);
    AftermathExtends(before, dir, s, Next(s, step), o, added.Some?);
  }

  lemma {:induction false} AftermathLasts(before: State, dir: string, s: State, steps: seq<Step>)
    requires Aftermath(before, dir, s) && Executes(s, steps) && Recreate(dir) !in steps
    ensures Aftermath(before, dir, After(s, steps))
    decreases |steps|
  {
    if steps != [] {
      AftermathStep(before, dir, s, steps[0]);
      AftermathLasts(before, dir, Next(s, steps[0]), steps[1..]);
    }
  }

  lemma AftermathBegins(before: State, dir: string)
    ensures Aftermath(before, dir, Next(before, Recreate(dir)))
  {
    RecreateStep(before, dir);
  }

  lemma AftermathGeneration(before: State, s: State, o: R.Options)
    requires Aftermath(before, o.cacheDir, s)
    ensures Generation(s, o) == Some(if Kept(before, s, o) then before.held[before.registry.entries[o]] else |before.worlds|)
  {
    R.ReachableInvariant(s.registry);
    if o in s.registry.entries {
      var id := s.registry.entries[o];
      if id < |before.held| {
        assert s.held[id] == s.held[..|before.held|][id];
      }
    }
  }

  /**
   Discarded tables outlive their files exactly in the caches opened before: until the next creation,
   New leads to the old generation if and only if the cache registered under those options before is
   registered still, and to the new files otherwise.
   */
  lemma StaleGenerationIff(before: State, steps: seq<Step>, o: R.Options)
    requires Executes(Next(before, Recreate(o.cacheDir)), steps) && Recreate(o.cacheDir) !in steps
    ensures var s := After(Next(before, Recreate(o.cacheDir)), steps);
      && Generation(s, o) == Some(if Kept(before, s, o) then before.held[before.registry.entries[o]] else |before.worlds|)
      && (Kept(before, s, o) ==> before.held[before.registry.entries[o]] < |before.worlds|)
  {
    var s1 := Next(before, Recreate(o.cacheDir));
    AftermathBegins(before, o.cacheDir);
    AftermathLasts(before, o.cacheDir, s1, steps);
    AftermathGeneration(before, After(s1, steps), o);
  }

  /** Once that cache is torn down, or if there was none, a login from before no longer helps: a new one is needed. */
  lemma NewFilesNeedNewLogin(before: State, steps: seq<Step>, a: Pam.Attempt) returns (i: nat, at: int)
    requires AllRuns(before.worlds) && a.config.Some?
    requires var dir := Pam.CacheOptions(a).cacheDir;
      && Executes(Next(before, Recreate(dir)), steps) && Recreate(dir) !in steps
      && var s := After(Next(before, Recreate(dir)), steps);
         Enabled(s, Try(a)) && Result(s, a) == Pam.Success && !Kept(before, s, Pam.CacheOptions(a))
    requires a.answer == NoClient || a.answer == OtherError
    ensures i < |steps|
    ensures var s1 := Next(before, Recreate(Pam.CacheOptions(a).cacheDir));
      Executes(s1, steps[..i]) &&
      Commits(After(s1, steps[..i]), steps[i], |before.worlds|, Runs.RefreshedBy(a.name, a.password, at))
    ensures var days := Pam.CacheOptions(a).expiration;
      days >= 0 && (days == 0 || a.at <= at + days * DAY)
  {
    var dir := Pam.CacheOptions(a).cacheDir;
    StaleGenerationIff(before, steps, Pam.CacheOptions(a));
    StepRuns(before, Recreate(dir));
    i, at := OfflineSuccessHasOrigin(Next(before, Recreate(dir)), steps, a);
  }

  /** A recorded online login leaves its cache registered and writable. */
  lemma RecordedRegistry(s: R.State, t: T.Tables, a: Pam.Attempt)
    requires R.Inv(s) && Recorded(s, t, a)
    ensures var (s', o) := (Pam.Outcome(s, t, a).0, Pam.CacheOptions(a));
      o in s'.entries && s'.entries[o] < |s'.caches| && s'.caches[s'.entries[o]].shadowMode == READ_WRITE
  {
    RecordedMode(s, t, a);
    R.AcquiredStaysRegistered(s, Pam.CacheOptions(a), a.env);
  }

  /** Its refresh is the last entry of the log. */
  lemma RecordedLog(s: R.State, w: Runs.World, a: Pam.Attempt)
    requires R.Inv(s) && Recorded(s, w.tables, a)
    ensures var log := Runs.Run(w, AttemptEvents(s, a)).log;
      log != [] && log[|log| - 1] == Runs.RefreshedBy(a.name, a.password, a.at)
  {
    AttemptIsRun(s, w, a);
  }

  lemma RecordedMode(s: R.State, t: T.Tables, a: Pam.Attempt)
    requires R.Inv(s) && Recorded(s, t, a)
    ensures a.config.Some? && R.New(s, Pam.CacheOptions(a), a.env).1.Ok?
    ensures var (s1, r) := R.New(s, Pam.CacheOptions(a), a.env);
      && r.value < |s1.caches| && s1.caches[r.value].shadowMode == READ_WRITE
      && Pam.Outcome(s, t, a).0 == R.Close(s1, r.value)
  {
    var o := Pam.CacheOptions(a);
    var (s1, r) := R.New(s, o, a.env);
    R.NewHandles(s, o, a.env);
    var mode := s1.caches[r.value].shadowMode;
    C.RecordedIsComplete(Opening.TablesAtOpen(o in s.entries, mode, o.expiration, t, a.at), Pam.LoginOf(a, mode));
  }

  /** The cache an attempt leaves registered holds the generation the attempt worked on. */
  lemma GenerationKept(s: State, a: Pam.Attempt, g: nat)
    requires Enabled(s, Try(a)) && Touched(s, Try(a)) == Some(g)
    requires Pam.CacheOptions(a) in Next(s, Try(a)).registry.entries
    ensures Generation(Next(s, Try(a)), Pam.CacheOptions(a)) == Some(g)
  {
    RegistryStep(s, Try(a), Pam.CacheOptions(a));
  }

  lemma TryStep(s: State, a: Pam.Attempt, g: nat)
    requires Enabled(s, Try(a)) && Touched(s, Try(a)) == Some(g)
    ensures Next(s, Try(a)).registry == RegistryAfter(s, Try(a)) && TablesFor(s, a) == s.worlds[g].tables
    ensures Next(s, Try(a)).worlds == s.worlds[g := Runs.Run(s.worlds[g], EventsOf(s, Try(a)))]
  {
  }

  /** The state left by such a login. */
  lemma AfterRecorded(s: State, s': State, a: Pam.Attempt, g: nat)
    requires Enabled(s, Try(a)) && Commits(s, Try(a), g, Runs.RefreshedBy(a.name, a.password, a.at))
    requires s' == Next(s, Try(a))
    ensures LeftOpen(s', g, Pam.CacheOptions(a), Runs.RefreshedBy(a.name, a.password, a.at))
  {
    R.ReachableInvariant(s.registry);
    TryStep(s, a, g);
    RecordedRegistry(s.registry, s.worlds[g].tables, a);
    RecordedLog(s.registry, s.worlds[g], a);
    GenerationKept(s, a, g);
    HeldGeneration(s', Pam.CacheOptions(a), g);
  }

  lemma HeldGeneration(s: State, o: R.Options, g: nat)
    requires Generation(s, o) == Some(g) && o in s.registry.entries
    ensures s.registry.entries[o] < |s.held| == |s.registry.caches| && s.held[s.registry.entries[o]] == g < |s.worlds|
  {
  }

  /** A writable cache of generation g is registered under these options, and this entry is the last of its log. */
  predicate LeftOpen(s: AnyState, g: nat, o: R.Options, last: Runs.Entry) {
    && o in s.registry.entries && s.registry.entries[o] < |s.registry.caches| == |s.held|
    && s.registry.caches[s.registry.entries[o]].shadowMode == READ_WRITE
    && s.held[s.registry.entries[o]] == g && g < |s.worlds|
    && s.worlds[g].log != [] && s.worlds[g].log[|s.worlds[g].log| - 1] == last
  }

  lemma RecreateStep(s: State, dir: string)
    ensures Next(s, Recreate(dir)) ==
      State(s.registry, s.held, s.current[dir := |s.worlds|], s.worlds + [Runs.FRESH])
  {
  }

  lemma LastRefreshAdmits(log: seq<Runs.Entry>, b: Pam.Attempt, seconds: int, days: int)
    requires log != [] && log[|log| - 1].RefreshedBy? && UnixSeconds(log[|log| - 1].at) == seconds
    requires log[|log| - 1].user == b.name && log[|log| - 1].password == b.password && Unexpired(b.at, seconds, days)
    ensures exists i :: Pam.Admits(log, i, b.name, b.password, true, READ_WRITE, days, b.at)
  {
    assert Pam.Admits(log, |log| - 1, b.name, b.password, true, READ_WRITE, days, b.at);
  }

  /** An offline attempt through an open writable cache whose log ends with its refresh. */
  lemma AcceptedThroughOpenCache(s: State, g: nat, b: Pam.Attempt, at: int)
    requires b.config.Some? && (b.answer == NoClient || b.answer == OtherError)
    requires LeftOpen(s, g, Pam.CacheOptions(b), Runs.RefreshedBy(b.name, b.password, at)) && IsRun(s.worlds[g])
    requires Unexpired(b.at, UnixSeconds(at), Pam.CacheOptions(b).expiration)
    ensures Enabled(s, Try(b)) && Result(s, b) == Pam.Success
  {
    LastRefreshAdmits(s.worlds[g].log, b, UnixSeconds(at), Pam.CacheOptions(b).expiration);
    OfflineResultIff(s, s.worlds[g], b);
  }

  lemma LeftOpenSurvives(s: State, s': State, dir: string, g: nat, o: R.Options, last: Runs.Entry)
    requires LeftOpen(s, g, o, last) && s' == Next(s, Recreate(dir))
    ensures LeftOpen(s', g, o, last) && s'.worlds[g] == s.worlds[g]
    ensures dir in s'.current && s'.worlds[s'.current[dir]] == Runs.FRESH
  {
    RecreateStep(s, dir);
  }

  /**
   A discard can be outlived, and always is while the timer waits: when an online login is recorded and
   the files are created again, the password is still accepted offline through the cache left open,
   although the current tables are empty.
   */
  lemma DiscardedStillAccepted(s: State, s1: State, s2: State, a: Pam.Attempt, b: Pam.Attempt, g: nat)
    requires AllRuns(s.worlds) && Enabled(s, Try(a)) && s1 == Next(s, Try(a))
    requires Commits(s, Try(a), g, Runs.RefreshedBy(a.name, a.password, a.at))
    requires s2 == Next(s1, Recreate(Pam.CacheOptions(a).cacheDir))
    requires b.config.Some? && Pam.CacheOptions(b) == Pam.CacheOptions(a)
    requires b.name == a.name && b.password == a.password && (b.answer == NoClient || b.answer == OtherError)
    requires Unexpired(b.at, UnixSeconds(a.at), Pam.CacheOptions(a).expiration)
    ensures var dir := Pam.CacheOptions(a).cacheDir;
      && dir in s2.current && s2.worlds[s2.current[dir]] == Runs.FRESH
      && Enabled(s2, Try(b)) && Result(s2, b) == Pam.Success
  {
    var (o, last) := (Pam.CacheOptions(a), Runs.RefreshedBy(a.name, a.password, a.at));
    AfterRecorded(s, s1, a, g);
    LeftOpenSurvives(s1, s2, o.cacheDir, g, o, last);
    StepRuns(s, Try(a));
    AcceptedThroughOpenCache(s2, g, b, a.at);
  }

  // ------------------------------------------------------------------------- such an execution

  /** An online login that nothing prevents, on files just created, is committed. */
  lemma FirstLoginCommits(s: State, a: Pam.Attempt)
    requires a.config.Some? && a.answer == Token && !a.interrupted && C.SoundPattern(a.config.value.pattern, a.name)
    requires Pam.CacheOptions(a).shadowGid >= 0 || a.env.shadowGroup.Some?
    requires a.env.init == R.Connected(READ_WRITE) && a.env.purgeSucceeds
    requires s == Next(START, Recreate(Pam.CacheOptions(a).cacheDir))
    ensures Enabled(s, Try(a)) && Commits(s, Try(a), 0, Runs.RefreshedBy(a.name, a.password, a.at))
  {
    var o := Pam.CacheOptions(a);
    RecreateStep(START, o.cacheDir);
    assert s.registry == R.INITIAL && s.worlds == [Runs.FRESH] && Generation(s, o) == Some(0);
    Runs.EmptyHasFreeId();
    assert Opening.TablesAtOpen(false, READ_WRITE, o.expiration, T.EMPTY, a.at) == T.EMPTY;
    OnlineResultIff(s, T.EMPTY, a);
  }

  /** The hypotheses are met from the very beginning: the default files, one login, the files created again. */
  lemma DiscardOutlivedFromStart() returns (a: Pam.Attempt, b: Pam.Attempt, s2: State)
    ensures a.config.Some? && b.config.Some? && Pam.CacheOptions(a) == Pam.CacheOptions(b) == Pam.DEFAULT_OPTIONS
    ensures a.answer == Token && b.answer == NoClient && b.name == a.name && b.password == a.password
    ensures var files := Recreate(Pam.DEFAULT_OPTIONS.cacheDir);
      Executes(START, [files, Try(a), files]) && s2 == After(START, [files, Try(a), files])
    ensures var dir := Pam.DEFAULT_OPTIONS.cacheDir;
      && dir in s2.current && s2.worlds[s2.current[dir]] == Runs.FRESH
      && Enabled(s2, Try(b)) && Result(s2, b) == Pam.Success
  {
    var config := Some(Pam.Config(None, "/home/%f", "/bin/bash"));
    var env := R.Surroundings(Some(42), R.Connected(READ_WRITE), true);
    a := Pam.Attempt("user@domain.com", "secret", config, Token, [], env, 0, false);
    b := a.(answer := NoClient);
    var files := Recreate(Pam.DEFAULT_OPTIONS.cacheDir);
    assert Pam.CacheOptions(a) == Pam.DEFAULT_OPTIONS;
    assert C.SoundPattern(a.config.value.pattern, a.name);
    var s := Next(START, files);
    FirstLoginCommits(s, a);
    var s1 := Next(s, Try(a));
    s2 := Next(s1, files);
    JustRefreshed(0, Pam.DEFAULT_OPTIONS.expiration);
    assert AllRuns(START.worlds);
    StepRuns(START, files);
    DiscardedStillAccepted(s, s1, s2, a, b, 0);
    ThreeSteps(START, files, Try(a), files);
  }

  lemma ThreeSteps(s: State, x: Step, y: Step, z: Step)
    requires Enabled(s, x) && Enabled(Next(s, x), y) && Enabled(Next(Next(s, x), y), z)
    ensures Executes(s, [x, y, z]) && After(s, [x, y, z]) == Next(Next(Next(s, x), y), z)
  {
    var steps := [x, y, z];
    assert steps[1..] == [y, z] && [y, z][1..] == [z] && [z][1..] == [];
    var s1 := Next(s, x);
    var s2 := Next(s1, y);
    var s3 := Next(s2, z);
    assert Executes(s3, []) && After(s3, []) == s3;
    assert Executes(s2, [z]) && After(s2, [z]) == s3;
    assert Executes(s1, [y, z]) && After(s1, [y, z]) == s3;
  }
}
