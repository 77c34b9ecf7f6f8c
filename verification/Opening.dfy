/** What New does to the tables: an opening that is not shared purges a writable cache. */
module Opening {
  import opened Basics
  import opened Tables
  import opened Durations
  import Runs
  import D = Database
  import R = Registry
  import O = OpenedCaches

  /** The tables once New has returned: an opening that is not shared purges a writable cache. */
  function TablesAtOpen(shared: bool, mode: int, days: int, t: Tables, at: int): Tables {
    if !shared && Runs.GoPurges(mode, days) then GoPurged(t, GoThreshold(at, days)) else t
  }

  /** The same from the state of the registry, for a New that succeeds. */
  function TablesAcquired(s: R.State, t: Tables, o: R.Options, env: R.Surroundings, at: int): Tables
    requires R.Inv(s) && R.New(s, o, env).1.Ok?
  {
    R.NewHandles(s, o, env);
    var (s1, r) := R.New(s, o, env);
    TablesAtOpen(o in s.entries, s1.caches[r.value].shadowMode, o.expiration, t, at)
  }

  /** Exactly the users last seen at or after the threshold are left, with their rows. */
  ghost predicate KeptSince(t: Tables, t': Tables, threshold: int) {
    && (forall u :: u in t'.passwd <==> u in t.passwd && t.passwd[u].lastOnlineAuth >= threshold)
    && (forall u :: u in t'.passwd ==> t'.passwd[u] == t.passwd[u])
  }

  /**
   What an opening does, in plain numbers: nothing when the cache is shared, shadow is not writable or
   the days are 0; otherwise it keeps exactly the users seen within twice the days, or within 180 days
   when the days are negative.
   */
  lemma OpeningPurges(shared: bool, mode: int, days: int, t: Tables, at: int)
    ensures shared || mode != 2 || days == 0 ==> TablesAtOpen(shared, mode, days, t, at) == t
    ensures !shared && mode == 2 && days != 0 && days <= 53375 ==>
      KeptSince(t, TablesAtOpen(shared, mode, days, t, at),
                (at - 2 * (if days < 0 then 90 else days) * 86_400_000_000_000) / 1_000_000_000)
    ensures !shared && mode == 2 && 53375 < days <= 106751 ==>
      forall u :: u in TablesAtOpen(shared, mode, days, t, at).passwd ==>
        u in t.passwd && t.passwd[u].lastOnlineAuth > UnixSeconds(at)
  {
    ThresholdsInSeconds(at, days);
    if 53375 < days <= 106751 {
      WrappedPurgeRemovesFreshUser(days, at);
    }
  }

  /** A user whose first login stopped half-way goes with the next purge, at any instant since 1970. */
  lemma HalfCreatedPurged(mode: int, days: int, t: Tables, at: int, u: int)
    requires u in t.passwd && t.passwd[u].lastOnlineAuth == -62135596800
    requires mode == 2 && days != 0 && days <= 106751 && at >= 0
    ensures u !in TablesAtOpen(false, mode, days, t, at).passwd
  {
    OpeningPurges(false, mode, days, t, at);
  }

  /** The purge at the end of New. */
  method PurgeAtOpen(db: D.Database, shared: bool, mode: int, days: int, at: int)
    modifies db
    ensures db.View() == TablesAtOpen(shared, mode, days, old(db.View()), at)
  {
    if !shared && Runs.GoPurges(mode, days) {
      db.CleanUpDB(at, PurgeNanos(days));
    }
  }

  /** New with its effect on the tables: acquire a cache, and purge the tables if that opened a writable one. */
  method Acquire(registry: O.OpenedCaches, db: D.Database, o: R.Options, env: R.Surroundings, at: int)
    returns (r: Result<nat, R.NewError>)
    requires registry.Valid() && Weak(db.View())
    modifies registry, db
    ensures registry.Valid() && Weak(db.View())
    ensures (registry.View(), r) == R.New(old(registry.View()), o, env)
    ensures r.Ok? ==>
      && registry.handles == old(registry.handles) + multiset{r.value} && r.value < |registry.caches|
      && db.View() == TablesAcquired(old(registry.View()), old(db.View()), o, env, at)
    ensures r.Ok? && (o in old(registry.entries) || registry.caches[r.value].shadowMode != 2 || o.expiration == 0) ==>
      db.View() == old(db.View())
    ensures r.Ok? && o !in old(registry.entries) && registry.caches[r.value].shadowMode == 2 && 0 != o.expiration <= 53375 ==>
      KeptSince(old(db.View()), db.View(),
                (at - 2 * (if o.expiration < 0 then 90 else o.expiration) * 86_400_000_000_000) / 1_000_000_000)
    ensures r.Err? ==> db.View() == old(db.View()) && registry.handles == old(registry.handles)
  {
    GoPurgedInvariant(db.View(), GoThreshold(at, o.expiration));
    var shared := o in registry.entries;
    r := registry.New(o, env);
    if r.Ok? {
      OpeningPurges(shared, registry.caches[r.value].shadowMode, o.expiration, db.View(), at);
      PurgeAtOpen(db, shared, registry.caches[r.value].shadowMode, o.expiration, at);
    }
  }
}
