/** getpwent over the cache: Start, Next and End on one package-level iteration. */
module PasswdIteration {
  import opened Basics
  import opened Queries
  import Strings
  import T = Tables
  import R = Registry
  import O = OpenedCaches
  import D = Database
  import Opening

  datatype NssError = Unavailable | NotFound

  /** The cache being iterated and the rows its cursor has not delivered yet. */
  datatype Iteration = Iteration(cache: Option<nat>, cursor: Option<seq<PasswdEntry>>)

  /** NextEntry; `listing` is what the query would list if it had to be sent now. */
  function Next(it: Iteration, listing: seq<PasswdEntry>): (Iteration, Result<PasswdEntry, NssError>) {
    if it.cache.None? then (it, Err(Unavailable))
    else
      var rows := if it.cursor.None? then listing else it.cursor.value;
      if rows == [] then (it.(cursor := None), Err(NotFound))
      else (it.(cursor := Some(rows[1..])), Ok(rows[0]))
  }

  /** The iteration after a series of calls, each with the listing of its instant. */
  function After(it: Iteration, listings: seq<seq<PasswdEntry>>): Iteration
    decreases |listings|
  {
    if listings == [] then it else After(Next(it, listings[0]).0, listings[1..])
  }

  function Answers(it: Iteration, listings: seq<seq<PasswdEntry>>): seq<Result<PasswdEntry, NssError>>
    decreases |listings|
  {
    if listings == [] then [] else [Next(it, listings[0]).1] + Answers(Next(it, listings[0]).0, listings[1..])
  }

  function Delivered(rows: seq<PasswdEntry>): seq<Result<PasswdEntry, NssError>> {
    seq(|rows|, i requires 0 <= i < |rows| => Ok(rows[i])) + [Err(NotFound)]
  }

  lemma {:induction false} RestOfPass(it: Iteration, rows: seq<PasswdEntry>, listings: seq<seq<PasswdEntry>>)
    requires it.cache.Some? && it.cursor == Some(rows) && |listings| == |rows| + 1
    ensures Answers(it, listings) == Delivered(rows)
    ensures After(it, listings) == it.(cursor := None)
    decreases |rows|
  {
    if rows == [] {
      assert listings[1..] == [];
    } else {
      RestOfPass(it.(cursor := Some(rows[1..])), rows[1..], listings[1..]);
      assert Delivered(rows) == [Ok(rows[0])] + Delivered(rows[1..]);
    }
  }

  /** One pass delivers the listing of its first call once, in order, then not-found, whatever is written meanwhile. */
  lemma OnePass(it: Iteration, listings: seq<seq<PasswdEntry>>)
    requires it.cache.Some? && it.cursor == None
    requires listings != [] && |listings| == |listings[0]| + 1
    ensures Answers(it, listings) == Delivered(listings[0])
    ensures After(it, listings) == it
  {
    RestOfPass(it.(cursor := Some(listings[0])), listings[0], listings);
  }

  function Times<T>(x: T, n: nat): seq<T> {
    seq(n, _ => x)
  }

  /** On unchanged tables the passes repeat for ever. */
  lemma {:induction false} PassesRepeat(it: Iteration, listing: seq<PasswdEntry>, passes: nat)
    requires it.cache.Some? && it.cursor == None
    ensures After(it, Times(listing, passes * (|listing| + 1))) == it
    ensures Answers(it, Times(listing, (passes + 1) * (|listing| + 1)))
         == Answers(it, Times(listing, passes * (|listing| + 1))) + Delivered(listing)
  {
    var n := |listing| + 1;
    var once := Times(listing, n);
    OnePass(it, once);
    if passes == 0 {
      assert Times(listing, 0) == [];
      assert Times(listing, 1 * n) == once;
    } else {
      PassesRepeat(it, listing, passes - 1);
      assert passes * n == (passes - 1) * n + n && (passes + 1) * n == passes * n + n;
      var before := Times(listing, (passes - 1) * n);
      assert Times(listing, passes * n) == before + once;
      Concat(it, before, once);
      assert Times(listing, (passes + 1) * n) == Times(listing, passes * n) + once;
      Concat(it, Times(listing, passes * n), once);
    }
  }

  lemma {:induction false} Concat(it: Iteration, a: seq<seq<PasswdEntry>>, b: seq<seq<PasswdEntry>>)
    ensures After(it, a + b) == After(After(it, a), b)
    ensures Answers(it, a + b) == Answers(it, a) + Answers(After(it, a), b)
    decreases |a|
  {
    if a == [] {
      assert a + b == b;
    } else {
      assert (a + b)[1..] == a[1..] + b;
      Concat(Next(it, a[0]).0, a[1..], b);
    }
  }

  /** The answers are every user of the tables exactly once, in login order, and then not-found. */
  predicate DeliversUsers(answers: seq<Result<PasswdEntry, NssError>>, t: T.Tables) {
    && |answers| == |t.passwd| + 1 && answers[|t.passwd|] == Err(NotFound)
    && (forall i :: 0 <= i < |t.passwd| ==> answers[i].Ok?)
    && (forall i, j :: 0 <= i < j < |t.passwd| ==> Strings.Before(answers[i].value.name, answers[j].value.name))
    && (forall u :: u in t.passwd ==> Ok(EntryOf(t.passwd, u)) in answers)
  }

  /** A pass over a reachable state delivers every user exactly once, in login order. */
  lemma PassDeliversUsers(it: Iteration, t: T.Tables, listings: seq<seq<PasswdEntry>>)
    requires it.cache.Some? && it.cursor == None && T.Weak(t)
    requires listings != [] && listings[0] == AllPasswd(t) && |listings| == |t.passwd| + 1
    ensures DeliversUsers(Answers(it, listings), t)
  {
    AllPasswdExact(t);
    OnePass(it, listings);
    ListingDelivers(t, AllPasswd(t));
  }

  lemma ListingDelivers(t: T.Tables, all: seq<PasswdEntry>)
    requires |all| == |t.passwd| && forall u :: u in t.passwd ==> EntryOf(t.passwd, u) in all
    requires forall i, j :: 0 <= i < j < |all| ==> Strings.Before(all[i].name, all[j].name)
    ensures DeliversUsers(Delivered(all), t)
  {
    var answers := Delivered(all);
    assert forall i :: 0 <= i < |all| ==> answers[i] == Ok(all[i]);
    forall u | u in t.passwd ensures Ok(EntryOf(t.passwd, u)) in answers {
      var i :| 0 <= i < |all| && all[i] == EntryOf(t.passwd, u);
      assert answers[i] == Ok(EntryOf(t.passwd, u));
    }
  }

  class PasswdIteration {
    const registry: O.OpenedCaches
    const db: D.Database
    var cache: Option<nat>
    var cursor: Option<seq<PasswdEntry>>

    ghost function View(): Iteration
      reads this
    {
      Iteration(cache, cursor)
    }

    /** A cursor only exists during an iteration, and the iterated cache is held open. */
    ghost predicate Valid()
      reads this, registry, db
    {
      && registry.Valid() && T.Weak(db.View())
      && (cache.Some? ==> cache.value in registry.handles)
      && (cache.None? ==> cursor.None?)
    }

    constructor (registry: O.OpenedCaches, db: D.Database)
      requires registry.Valid() && T.Weak(db.View())
      ensures Valid() && this.registry == registry && this.db == db && View() == Iteration(None, None)
    {
      this.registry, this.db := registry, db;
      cache, cursor := None, None;
    }

    /** StartEntryIteration: an opening that is not shared purges a writable cache. */
    method Start(o: R.Options, env: R.Surroundings, at: int) returns (r: Result<(), NssError>)
      requires Valid()
      modifies this, registry, db
      ensures Valid()
      ensures old(cache).Some? ==>
        && r == Err(Unavailable) && View() == old(View())
        && registry.View() == old(registry.View()) && db.View() == old(db.View())
      ensures old(cache).None? ==>
        && registry.View() == R.New(old(registry.View()), o, env).0
        && (match R.New(old(registry.View()), o, env).1
            case Ok(id) =>
              && r.Ok? && View() == Iteration(Some(id), None)
              && db.View() == Opening.TablesAcquired(old(registry.View()), old(db.View()), o, env, at)
            case Err(_) => r == Err(Unavailable) && View() == Iteration(None, None) && db.View() == old(db.View()))
    {
      if cache.Some? {
        return Err(Unavailable);
      }
      var c := Opening.Acquire(registry, db, o, env, at);
      if c.Err? {
        return Err(Unavailable);
      }
      cache := Some(c.value);
      return Ok(());
    }

    /** NextEntry: the query is sent by the first call of a pass. */
    method NextEntry() returns (r: Result<PasswdEntry, NssError>)
      requires Valid()
      modifies this
      ensures Valid() && (View(), r) == Next(old(View()), AllPasswd(db.View()))
      ensures cache.Some? ==> R.ConnectionOpen(registry.View(), cache.value)
    {
      if cache.None? {
        return Err(Unavailable);
      }
      R.HandleHoldsConnection(registry.View(), cache.value);
      if cursor.None? {
        var listing := db.ListPasswd();
        cursor := Some(listing);
      }
      if cursor.value == [] {
        cursor := None;
        return Err(NotFound);
      }
      r := Ok(cursor.value[0]);
      cursor := Some(cursor.value[1..]);
    }

    /** EndEntryIteration. */
    method End()
      requires Valid()
      modifies this, registry
      ensures Valid() && View() == Iteration(None, None)
      ensures registry.View() == match old(cache)
        case None => old(registry.View())
        case Some(id) => R.Close(old(registry.View()), id)
    {
      if cache.None? {
        return;
      }
      var c := cache.value;
      cache := None;
      cursor := None;
      registry.Close(c);
    }
  }
}
