/**
 getpwent in the middle of everything else: the one iteration of the process, interleaved with the
 steps of the system. Every client closes only its own handles, so nobody else gives back the handle
 that the iteration holds.
 */
module IterationRuns {
  import opened Basics
  import Q = Queries
  import I = PasswdIteration
  import S = System
  import R = Registry
  import Pam
  import T = Tables
  import Runs

  datatype AnyState = State(system: S.State, it: I.Iteration)

  /** The iterated cache is held, and a cursor exists only during an iteration. */
  predicate Good(s: AnyState) {
    match s.it.cache
    case Some(id) => id in s.system.registry.handles && id < |s.system.held|
    case None => s.it.cursor.None?
  }

  type State = s: AnyState | Good(s) ghost witness State(S.START, I.Iteration(None, None))

  datatype Move =
    | Other(step: S.Step)
    | Start(options: R.Options, env: R.Surroundings, at: int)
    | NextEntry
    | End

  predicate Enabled(s: State, m: Move) {
    match m
    case Other(step) =>
      S.Enabled(s.system, step) &&
      (step.Release? && s.it.cache == Some(step.id) ==> s.system.registry.handles[step.id] > 1)
    case Start(o, env, at) => s.it.cache.None? ==> S.Enabled(s.system, S.Acquire(o, env, at))
    case _ => true
  }

  /** The tables behind the iterated cache: those of the generation it holds. */
  function TablesOf(s: State): T.Tables {
    match s.it.cache
    case Some(id) => s.system.worlds[s.system.held[id]].tables
    case None => T.EMPTY
  }

  /** What the query would list if it were sent now. */
  ghost function Listing(s: State): seq<Q.PasswdEntry> {
    Q.AllPasswd(TablesOf(s))
  }

  lemma HandleKept(s: S.State, step: S.Step, id: nat)
    requires S.Enabled(s, step) && id in s.registry.handles && (step == S.Release(id) ==> s.registry.handles[id] > 1)
    ensures id in S.Next(s, step).registry.handles
    ensures |s.held| <= |S.Next(s, step).held|
  {
    R.ReachableInvariant(s.registry);
    match step
    case Try(a) => Pam.HandlesBalanced(s.registry, S.TablesFor(s, a), a);
    case Acquire(o, env, _) => R.NewHandles(s.registry, o, env);
    case _ =>
  }

  lemma StartGood(s: S.State, o: R.Options, env: R.Surroundings, at: int)
    requires S.Enabled(s, S.Acquire(o, env, at))
    ensures R.New(s.registry, o, env).1.Ok? ==>
      var (s', id) := (S.Next(s, S.Acquire(o, env, at)), R.New(s.registry, o, env).1.value);
      id in s'.registry.handles && id < |s'.held|
  {
    R.ReachableInvariant(s.registry);
    R.NewHandles(s.registry, o, env);
  }

  ghost function Next(s: State, m: Move): State
    requires Enabled(s, m)
  {
    match m
    case Other(step) =>
      assert s.it.cache.Some? ==> Good(s.(system := S.Next(s.system, step))) by {
        if s.it.cache.Some? { HandleKept(s.system, step, s.it.cache.value); }
      }
      s.(system := S.Next(s.system, step))
    case Start(o, env, at) =>
      if s.it.cache.Some? then s
      else
        StartGood(s.system, o, env, at);
        State(S.Next(s.system, S.Acquire(o, env, at)),
              I.Iteration(match R.New(s.system.registry, o, env).1 case Ok(id) => Some(id) case Err(_) => None, None))
    case NextEntry => s.(it := I.Next(s.it, Listing(s)).0)
    case End =>
      match s.it.cache
      case None => s
      case Some(id) => State(S.Next(s.system, S.Release(id)), I.Iteration(None, None))
  }

  ghost predicate Executes(s: State, moves: seq<Move>)
    decreases |moves|
  {
    moves != [] ==> Enabled(s, moves[0]) && Executes(Next(s, moves[0]), moves[1..])
  }

  ghost function After(s: State, moves: seq<Move>): State
    requires Executes(s, moves)
    decreases |moves|
  {
    if moves == [] then s else After(Next(s, moves[0]), moves[1..])
  }

  /** The answers of the NextEntry calls. */
  ghost function Answers(s: State, moves: seq<Move>): seq<Result<Q.PasswdEntry, I.NssError>>
    requires Executes(s, moves)
    decreases |moves|
  {
    if moves == [] then []
    else (if moves[0].NextEntry? then [I.Next(s.it, Listing(s)).1] else []) + Answers(Next(s, moves[0]), moves[1..])
  }

  /** The tables at the NextEntry calls. */
  ghost function Seen(s: State, moves: seq<Move>): seq<T.Tables>
    requires Executes(s, moves)
    decreases |moves|
  {
    if moves == [] then []
    else (if moves[0].NextEntry? then [TablesOf(s)] else []) + Seen(Next(s, moves[0]), moves[1..])
  }

  ghost function Listings(tables: seq<T.Tables>): seq<seq<Q.PasswdEntry>> {
    if tables == [] then [] else [Q.AllPasswd(tables[0])] + Listings(tables[1..])
  }

  /** A second Start changes nothing; End gives the handle back, and the next Start begins before the first row. */
  lemma StartAndEnd(s: State, o: R.Options, env: R.Surroundings, at: int)
    requires Enabled(s, Start(o, env, at))
    ensures s.it.cache.Some? ==> Next(s, Start(o, env, at)) == s
    ensures s.it.cache.None? ==>
      Next(s, Start(o, env, at)).system == S.Next(s.system, S.Acquire(o, env, at)) &&
      Next(s, Start(o, env, at)).it ==
        I.Iteration(match R.New(s.system.registry, o, env).1 case Ok(id) => Some(id) case Err(_) => None, None)
    ensures Next(s, End).it == I.Iteration(None, None)
    ensures Next(s, End).system.registry.handles ==
      match s.it.cache
      case None => s.system.registry.handles
      case Some(id) => s.system.registry.handles - multiset{id}
  {
  }

  /** At every point of every execution the connection being iterated is open. */
  lemma IteratedConnectionOpen(s: State, moves: seq<Move>)
    requires Executes(s, moves) && After(s, moves).it.cache.Some?
    ensures R.ConnectionOpen(After(s, moves).system.registry, After(s, moves).it.cache.value)
  {
    R.ReachableInvariant(After(s, moves).system.registry);
    R.HandleHoldsConnection(After(s, moves).system.registry, After(s, moves).it.cache.value);
  }

  /** The tables read are those which New leads to under the options of the iterated cache. */
  lemma IteratedTables(s: State)
    requires s.it.cache.Some?
    ensures var id := s.it.cache.value;
      && id < |s.system.registry.caches|
      && var g := S.Generation(s.system, s.system.registry.caches[id].sig);
         g.Some? && TablesOf(s) == s.system.worlds[g.value].tables
  {
    R.ReachableInvariant(s.system.registry);
    R.HandleHoldsConnection(s.system.registry, s.it.cache.value);
  }

  /** What others do in between does not touch the iteration. */
  lemma {:induction false} AnswersOfListings(s: State, moves: seq<Move>)
    requires s.it.cache.Some? && Executes(s, moves) && End !in moves
    ensures Answers(s, moves) == I.Answers(s.it, Listings(Seen(s, moves)))
    ensures After(s, moves).it == I.After(s.it, Listings(Seen(s, moves)))
    decreases |moves|
  {
    if moves != [] {
      var next, rest := Next(s, moves[0]), moves[1..];
      AnswersOfListings(next, rest);
      if moves[0].NextEntry? {
        assert Seen(s, moves)[1..] == Seen(next, rest);
        var listings := Listings(Seen(s, moves));
        assert listings[1..] == Listings(Seen(next, rest));
      } else {
        assert Seen(s, moves) == Seen(next, rest);
        assert Answers(s, moves) == Answers(next, rest);
      }
    }
  }

  lemma MoveRuns(s: State, m: Move)
    requires Enabled(s, m) && S.AllRuns(s.system.worlds)
    ensures S.AllRuns(Next(s, m).system.worlds)
  {
    match m
    case Other(step) => S.StepRuns(s.system, step);
    case Start(o, env, at) => if s.it.cache.None? { S.StepRuns(s.system, S.Acquire(o, env, at)); }
    case NextEntry =>
    case End => if s.it.cache.Some? { S.StepRuns(s.system, S.Release(s.it.cache.value)); }
  }

  lemma TablesWeak(s: State)
    requires S.AllRuns(s.system.worlds)
    ensures T.Weak(TablesOf(s))
  {
    if s.it.cache.Some? {
      var w := s.system.worlds[s.system.held[s.it.cache.value]];
      var events :| w == Runs.Run(Runs.FRESH, events);
      Runs.MixedRunInvariant(Runs.FRESH, events);
    }
  }

  lemma {:induction false} SeenWeak(s: State, moves: seq<Move>)
    requires Executes(s, moves) && S.AllRuns(s.system.worlds)
    ensures forall i :: 0 <= i < |Seen(s, moves)| ==> T.Weak(Seen(s, moves)[i])
    decreases |moves|
  {
    if moves != [] {
      MoveRuns(s, moves[0]);
      SeenWeak(Next(s, moves[0]), moves[1..]);
      TablesWeak(s);
    }
  }

  lemma ListingsFirst(tables: seq<T.Tables>)
    ensures |Listings(tables)| == |tables|
    ensures tables != [] ==> Listings(tables)[0] == Q.AllPasswd(tables[0])
  {
  }

  /**
   Whatever PAM attempts, other clients, timers, other programs and lost files do in between, the calls
   of one pass deliver every user that the iterated tables held at the first call, exactly once and in
   login order, then not-found; and the iteration is where it began.
   */
  lemma InterleavedPass(s: State, moves: seq<Move>)
    requires S.AllRuns(s.system.worlds) && s.it.cache.Some? && s.it.cursor.None?
    requires Executes(s, moves) && End !in moves
    requires Seen(s, moves) != [] && |Seen(s, moves)| == |Seen(s, moves)[0].passwd| + 1
    ensures I.DeliversUsers(Answers(s, moves), Seen(s, moves)[0])
    ensures After(s, moves).it == s.it
  {
    var tables := Seen(s, moves);
    AnswersOfListings(s, moves);
    SeenWeak(s, moves);
    ListingsFirst(tables);
    I.PassDeliversUsers(s.it, tables[0], Listings(tables));
    Q.AllPasswdExact(tables[0]);
    I.OnePass(s.it, Listings(tables));
  }
}
