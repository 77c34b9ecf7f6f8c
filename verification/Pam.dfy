/** The PAM entry point: ask the directory, then update the cache or fall back to it. */
module Pam {
  import opened Basics
  import opened Tables
  import opened Durations
  import opened Aad
  import C = Cache
  import D = Database
  import R = Registry
  import O = OpenedCaches
  import opened Opening
  import Runs
  import Uids
  import HomeDir

  /** The options of cache.New that a caller can set. */
  datatype CacheOption =
    | CacheDir(path: string)
    | RootUid(uid: int)
    | RootGid(gid: int)
    | ShadowGid(shadowGid: int)
    | ShadowMode(mode: int)
    | Teardown(duration: int)
    | Expiration(days: int)

  const DEFAULT_OPTIONS: R.Options :=
    R.Options("/var/lib/aad/cache", 0, 0, -1, -1, 0x1A4, 0x1A0, 30 * SECOND, DEFAULT_EXPIRATION)

  function Applied(o: R.Options, option: CacheOption): R.Options {
    match option
    case CacheDir(path) => o.(cacheDir := path)
    case RootUid(uid) => o.(rootUid := uid)
    case RootGid(gid) => o.(rootGid := gid)
    case ShadowGid(gid) => o.(shadowGid := gid)
    case ShadowMode(mode) => o.(forceShadowMode := mode)
    case Teardown(duration) => o.(teardown := duration)
    case Expiration(days) => o.(expiration := days)
  }

  /** Options are applied in order, so the later one wins. */
  function AppliedAll(o: R.Options, options: seq<CacheOption>): R.Options
    decreases |options|
  {
    if options == [] then o else AppliedAll(Applied(o, options[0]), options[1..])
  }

  datatype Config = Config(days: Option<int>, pattern: string, shell: string)

  datatype PamResult = Success | SystemError | AuthError

  /** One attempt: who, the directory's answer, the caller's options, the surroundings and the instant. */
  datatype Attempt = Attempt(name: string, password: string, config: Option<Config>, answer: Answer,
                             options: seq<CacheOption>, env: R.Surroundings, at: int, interrupted: bool)

  /** The options of the cache: the defaults, then the configured days, then what the caller asks for. */
  function CacheOptions(a: Attempt): R.Options
    requires a.config.Some?
  {
    AppliedAll(DEFAULT_OPTIONS, Configured(a.config.value) + a.options)
  }

  function Configured(c: Config): seq<CacheOption> {
    match c.days
    case None => []
    case Some(days) => [Expiration(days)]
  }

  /** The days set by the last option that sets them. */
  predicate LastDays(options: seq<CacheOption>, i: int) {
    0 <= i < |options| && options[i].Expiration? && forall j :: i < j < |options| ==> !options[j].Expiration?
  }

  lemma {:induction false} AppliedDays(o: R.Options, options: seq<CacheOption>)
    ensures forall i :: LastDays(options, i) ==> AppliedAll(o, options).expiration == options[i].days
    ensures (forall i :: 0 <= i < |options| ==> !options[i].Expiration?) ==> AppliedAll(o, options).expiration == o.expiration
    decreases |options|
  {
    if options != [] {
      var rest := options[1..];
      AppliedDays(Applied(o, options[0]), rest);
      forall i | LastDays(options, i) ensures AppliedAll(o, options).expiration == options[i].days {
        if i > 0 {
          assert LastDays(rest, i - 1);
        }
      }
    }
  }

  /** Which days count: the caller's last, else the configured ones, else 90. */
  lemma DaysPrecedence(a: Attempt)
    requires a.config.Some?
    ensures forall i :: LastDays(a.options, i) ==> CacheOptions(a).expiration == a.options[i].days
    ensures (forall i :: 0 <= i < |a.options| ==> !a.options[i].Expiration?) ==>
      CacheOptions(a).expiration == match a.config.value.days case None => 90 case Some(days) => days
  {
    AppliedConcat(DEFAULT_OPTIONS, Configured(a.config.value), a.options);
    AppliedDays(AppliedAll(DEFAULT_OPTIONS, Configured(a.config.value)), a.options);
    ConfiguredDays(a.config.value);
  }

  lemma ConfiguredDays(c: Config)
    ensures AppliedAll(DEFAULT_OPTIONS, Configured(c)).expiration ==
      match c.days case None => DEFAULT_EXPIRATION case Some(days) => days
  {
    if c.days.Some? {
      assert Configured(c)[1..] == [];
    }
  }

  lemma {:induction false} AppliedConcat(o: R.Options, a: seq<CacheOption>, b: seq<CacheOption>)
    ensures AppliedAll(o, a + b) == AppliedAll(AppliedAll(o, a), b)
    decreases |a|
  {
    if a == [] {
      assert a + b == b;
    } else {
      assert (a + b)[1..] == a[1..] + b;
      AppliedConcat(Applied(o, a[0]), a[1..], b);
    }
  }

  function LoginOf(a: Attempt, mode: int): C.Login
    requires a.config.Some?
  {
    C.Login(mode, a.name, a.password, a.config.value.pattern, a.config.value.shell, a.at, a.interrupted)
  }

  /** Each option sets its own field and no other. */
  lemma OptionsAreIndependent(o: R.Options, option: CacheOption)
    ensures var o' := Applied(o, option);
      && o'.cacheDir == (if option.CacheDir? then option.path else o.cacheDir)
      && o'.rootUid == (if option.RootUid? then option.uid else o.rootUid)
      && o'.rootGid == (if option.RootGid? then option.gid else o.rootGid)
      && o'.shadowGid == (if option.ShadowGid? then option.shadowGid else o.shadowGid)
      && o'.forceShadowMode == (if option.ShadowMode? then option.mode else o.forceShadowMode)
      && o'.teardown == (if option.Teardown? then option.duration else o.teardown)
      && o'.expiration == (if option.Expiration? then option.days else o.expiration)
      && o'.passwdPermission == o.passwdPermission && o'.shadowPermission == o.shadowPermission
  {
  }

  /** Without options the defaults hold, with the configured days if there are any. */
  lemma DefaultsHold(a: Attempt)
    requires a.config.Some? && a.options == []
    ensures CacheOptions(a) ==
      R.Options("/var/lib/aad/cache", 0, 0, -1, -1, 420, 416, 30_000_000_000,
                match a.config.value.days case None => 90 case Some(days) => days)
  {
    var configured := Configured(a.config.value);
    assert configured + [] == configured;
    if a.config.value.days.Some? {
      assert configured[1..] == [];
      assert AppliedAll(DEFAULT_OPTIONS, configured) == AppliedAll(Applied(DEFAULT_OPTIONS, configured[0]), []);
    }
  }

  /** Tables and result once a cache was acquired. */
  ghost function Decided(t: Tables, a: Attempt, mode: int): (Tables, PamResult)
    requires a.config.Some?
  {
    if Classify(a.answer) == NoNetwork then
      var r := C.CanAuthenticate(t, mode, CacheOptions(a).expiration, a.name, a.password, a.at);
      (t, if r.Ok? then Success else AuthError)
    else
      var (t', r) := C.Update(t, LoginOf(a, mode));
      (t', if r.Ok? then Success else AuthError)
  }

  /** Registry, tables and result after one attempt. */
  ghost function Outcome(s: R.State, t: Tables, a: Attempt): (R.State, Tables, PamResult)
    requires R.Inv(s)
  {
    if a.config.None? then (s, t, SystemError)
    else if Classify(a.answer) == Deny then (s, t, AuthError)
    else
      var o := CacheOptions(a);
      var (s1, acquired) := R.New(s, o, a.env);
      if acquired.Err? then (s1, t, SystemError)
      else
        R.NewRegistersRequest(s, o, a.env);
        var id := acquired.value;
        var mode := s1.caches[id].shadowMode;
        var t1 := TablesAtOpen(o in s.entries, mode, o.expiration, t, a.at);
        var s2 := R.Close(s1, id);
        var (t2, r) := Decided(t1, a, mode);
        (s2, t2, r)
  }

  /** Every attempt leaves the reference counts as it found them. */
  lemma HandlesBalanced(s: R.State, t: Tables, a: Attempt)
    requires R.Inv(s)
    ensures var s' := Outcome(s, t, a).0;
      && R.Inv(s') && s'.handles == s.handles && |s'.caches| >= |s.caches|
      && forall id :: 0 <= id < |s.caches| ==> s'.caches[id].usedBy == s.caches[id].usedBy
  {
    if a.config.Some? && Classify(a.answer) != Deny {
      var o := CacheOptions(a);
      if R.New(s, o, a.env).1.Ok? {
        R.NewThenClose(s, o, a.env);
      } else {
        R.NewInvariant(s, o, a.env);
        R.NewHandles(s, o, a.env);
        FailedNewKeepsCaches(s, o, a.env);
      }
    }
  }

  /** To the registry an attempt is a New, followed by a Close when it succeeds: a piece of an interleaving. */
  lemma AttemptReachable(s: R.State, t: Tables, a: Attempt)
    requires R.Reachable(s) && R.Inv(s)
    ensures R.Reachable(Outcome(s, t, a).0)
  {
    if a.config.Some? && Classify(a.answer) != Deny {
      var o := CacheOptions(a);
      R.EnabledIff(s, 0, o, a.env);
      R.ReachableStep(s, R.DoNew(o, a.env));
      if R.New(s, o, a.env).1.Ok? {
        R.NewThenClose(s, o, a.env);
        R.ReachableStep(R.New(s, o, a.env).0, R.DoClose(R.New(s, o, a.env).1.value));
      }
    }
  }

  /** The attempt opens a cache of its own. */
  predicate AttemptOpens(s: R.State, a: Attempt)
    requires R.Inv(s)
  {
    a.config.Some? && Classify(a.answer) != Deny && R.Opens(s, CacheOptions(a), a.env)
  }

  lemma AttemptExtends(s: R.State, t: Tables, a: Attempt, o: R.Options)
    requires R.Inv(s) && (a.config.Some? ==> o == CacheOptions(a))
    ensures R.Extends(s, Outcome(s, t, a).0, o, AttemptOpens(s, a))
  {
    if a.config.Some? && Classify(a.answer) != Deny {
      var (s1, r) := R.New(s, o, a.env);
      R.NewExtends(s, o, a.env);
      if r.Ok? {
        R.NewHandles(s, o, a.env);
        R.CloseExtends(s, s1, o, R.Opens(s, o, a.env), r.value);
      }
    }
  }

  lemma FailedNewKeepsCaches(s: R.State, o: R.Options, env: R.Surroundings)
    requires R.Inv(s) && R.New(s, o, env).1.Err?
    ensures R.New(s, o, env).0.caches == s.caches
  {
  }

  /** Success, exactly: an accepted online login recorded, or no network and an accepted offline login. */
  lemma SuccessIff(s: R.State, t: Tables, a: Attempt)
    requires R.Inv(s) && a.config.Some? && R.New(s, CacheOptions(a), a.env).1.Ok?
    ensures var o := CacheOptions(a);
      var (s1, r) := R.New(s, o, a.env);
      var mode := s1.caches[r.value].shadowMode;
      var t1 := TablesAtOpen(o in s.entries, mode, o.expiration, t, a.at);
      Outcome(s, t, a).2 == Success <==>
        || ((a.answer == Token ||
             (a.answer.CallError? && a.answer.body.Codes? &&
              exists i :: 0 <= i < |a.answer.body.codes| && a.answer.body.codes[i] == 50076
                       && forall j :: 0 <= j < i ==> a.answer.body.codes[j] !in {50126, 50034, 65001, 7000218}))
            && C.Update(t1, LoginOf(a, mode)).1 == Ok(()))
        || ((a.answer == NoClient || a.answer == OtherError)
            && C.CanAuthenticate(t1, mode, o.expiration, a.name, a.password, a.at) == Ok(()))
  {
    ClassifyIff(a.answer);
    R.NewRegistersRequest(s, CacheOptions(a), a.env);
  }

  /** Which failure: a system error without a configuration or without a cache, else an authentication error. */
  lemma FailureIff(s: R.State, t: Tables, a: Attempt)
    requires R.Inv(s)
    ensures Outcome(s, t, a).2 == SystemError <==>
      a.config.None? || (Classify(a.answer) != Deny && R.New(s, CacheOptions(a), a.env).1.Err?)
    ensures a.config.Some? && Classify(a.answer) == Deny ==> Outcome(s, t, a) == (s, t, AuthError)
  {
  }

  /** What a recorded online login leaves in the tables, for a new user as configured. */
  lemma OnlineProfile(s: R.State, t: Tables, a: Attempt) returns (u: int)
    requires R.Inv(s) && Weak(t) && Classify(a.answer) == Allow && Outcome(s, t, a).2 == Success
    ensures a.config.Some? && R.New(s, CacheOptions(a), a.env).1.Ok?
    ensures var (t1, t', home) := (TablesAcquired(s, t, CacheOptions(a), a.env, a.at), Outcome(s, t, a).1,
                                   HomeDir.Expand(a.config.value.pattern, a.name, C.Decimal(if u < 0 then 0 else u)));
      if LoginTaken(t1, a.name)
      then && u in t1.passwd && t1.passwd[u].login == a.name && u in t'.passwd && u in t'.shadow
           && t'.passwd[u] == t1.passwd[u].(lastOnlineAuth := UnixSeconds(a.at)) && t'.shadow[u] == Of(a.password)
      else && u >= 0 && u !in Uids.Taken(t1) && home.Ok?
           && C.CreatedAs(t', u, a.name, home.value, a.config.value.shell, UnixSeconds(a.at), Of(a.password))
  {
    var o := CacheOptions(a);
    R.NewHandles(s, o, a.env);
    var (s1, r) := R.New(s, o, a.env);
    var mode := s1.caches[r.value].shadowMode;
    var t1 := TablesAcquired(s, t, o, a.env, a.at);
    GoPurgedInvariant(t, GoThreshold(a.at, o.expiration));
    u := C.LoginProfile(t1, LoginOf(a, mode));
  }

  /** An opening within the safe days never changes the offline verdict of that instant. */
  lemma OpeningKeepsVerdict(t: Tables, mode: int, days: int, name: string, password: string, now: int)
    requires Weak(t) && 1 <= days <= MAX_DAYS / 2
    ensures C.CanAuthenticate(GoPurged(t, GoThreshold(now, days)), mode, days, name, password, now) == Ok(())
       <==> C.CanAuthenticate(t, mode, days, name, password, now) == Ok(())
  {
    GoPurgedInvariant(t, GoThreshold(now, days));
    GoPurgeSafeUpToHalf(days);
    C.PurgedVerdict(t, GoPurged(t, GoThreshold(now, days)), GoThreshold(now, days), mode, days, name, password, now);
    if C.CanAuthenticate(t, mode, days, name, password, now) == Ok(()) {
      var u := C.FindUser(t, mode, name).value;
      assert Unexpired(now, t.passwd[u].lastOnlineAuth, days) ==> !GoRemoves(now, t.passwd[u].lastOnlineAuth, days);
    }
  }

  /** The purge of an unshared opening spares a refresh made at this instant. */
  predicate OpeningSpares(shared: bool, mode: int, days: int, now: int, at: int) {
    shared || !Runs.GoPurges(mode, days) || UnixSeconds(at) >= GoThreshold(now, days)
  }

  /** Entry i of the log lets this name and password in, through a cache acquired at `now`. */
  predicate Admits(log: seq<Runs.Entry>, i: int, name: string, password: string, shared: bool, mode: int, days: int, now: int) {
    && Runs.Counts(log, name, i) && log[i].password == password
    && Unexpired(now, UnixSeconds(log[i].at), days)
    && OpeningSpares(shared, mode, days, now, log[i].at)
  }

  /** The offline check on the tables as the opening leaves them. */
  lemma AcquiredVerdictIff(events: seq<Runs.Event>, shared: bool, mode: int, days: int,
                           name: string, password: string, now: int)
    ensures var w := Runs.Run(Runs.FRESH, events);
      C.CanAuthenticate(TablesAtOpen(shared, mode, days, w.tables, now), mode, days, name, password, now) == Ok(()) <==>
        mode >= READ_ONLY && days >= 0 && exists i :: Admits(w.log, i, name, password, shared, mode, days, now)
  {
    var w := Runs.Run(Runs.FRESH, events);
    if shared || !Runs.GoPurges(mode, days) {
      Runs.OfflineLoginIff(events, mode, days, name, password, now);
      assert forall i :: Admits(w.log, i, name, password, shared, mode, days, now) <==>
        Runs.Counts(w.log, name, i) && w.log[i].password == password && Unexpired(now, UnixSeconds(w.log[i].at), days);
    } else {
      var opening := Runs.GoOpen(mode, days, now);
      assert (events + [opening])[..|events|] == events;
      Runs.OfflineLoginIff(events + [opening], mode, days, name, password, now);
      var purge := Runs.PurgedBelow(GoThreshold(now, days));
      var longer := w.log + [purge];
      forall i
        ensures Admits(w.log, i, name, password, shared, mode, days, now) <==>
          Runs.Counts(longer, name, i) && longer[i].password == password && Unexpired(now, UnixSeconds(longer[i].at), days)
      {
        if 0 <= i < |w.log| {
          Runs.CountsExtends(w.log, purge, name, i);
        }
      }
    }
  }

  /**
   End to end. After every mixed run of the cache, with whatever caches are open and whatever days
   are configured, an attempt made without network succeeds exactly when the cache it gets can read
   shadow, the days are not negative, and the log of the run holds a counting, unexpired refresh with
   that password which the purge of the opening, if there is one, spares.
   */
  lemma OfflineAttemptIff(events: seq<Runs.Event>, s: R.State, a: Attempt)
    requires R.Inv(s) && a.config.Some? && R.New(s, CacheOptions(a), a.env).1.Ok?
    requires a.answer == NoClient || a.answer == OtherError
    ensures var w := Runs.Run(Runs.FRESH, events);
      var (o, shared) := (CacheOptions(a), CacheOptions(a) in s.entries);
      var (s1, r) := R.New(s, o, a.env);
      && r.value < |s1.caches|
      && var mode := s1.caches[r.value].shadowMode;
         (Outcome(s, w.tables, a).2 == Success <==>
           && mode >= READ_ONLY && o.expiration >= 0
           && exists i :: Admits(w.log, i, a.name, a.password, shared, mode, o.expiration, a.at))
  {
    var w := Runs.Run(Runs.FRESH, events);
    var o := CacheOptions(a);
    var (s1, r) := R.New(s, o, a.env);
    R.NewHandles(s, o, a.env);
    SuccessIff(s, w.tables, a);
    AcquiredVerdictIff(events, o in s.entries, s1.caches[r.value].shadowMode, o.expiration, a.name, a.password, a.at);
  }

  /** Up to 53375 days, and for an open cache, the purge of the opening plays no part. */
  lemma SafeOpeningAdmits(log: seq<Runs.Entry>, i: int, name: string, password: string, shared: bool, mode: int, days: int, now: int)
    requires days <= MAX_DAYS / 2 || shared
    ensures Admits(log, i, name, password, shared, mode, days, now) <==>
      Runs.Counts(log, name, i) && log[i].password == password && Unexpired(now, UnixSeconds(log[i].at), days)
  {
    if days > 0 && !shared && Runs.Counts(log, name, i) {
      GoPurgeSafeUpToHalf(days);
      assert Unexpired(now, UnixSeconds(log[i].at), days) ==> !GoRemoves(now, UnixSeconds(log[i].at), days);
    }
  }

  /**
   From 53376 to 106751 days a writable cache opened for the attempt is purged by a threshold that
   lies in the future, so only a refresh dated later than the attempt itself admits anybody.
   */
  lemma WrappedOpeningAdmits(log: seq<Runs.Entry>, i: int, name: string, password: string, days: int, now: int)
    requires MAX_DAYS / 2 < days <= MAX_DAYS
    ensures Admits(log, i, name, password, false, READ_WRITE, days, now) <==>
      Runs.Counts(log, name, i) && log[i].password == password && UnixSeconds(log[i].at) >= GoThreshold(now, days)
    ensures Admits(log, i, name, password, false, READ_WRITE, days, now) ==> log[i].at > now
  {
    WrappedPurgeRemovesFreshUser(days, now);
    ExpiryExactIff(days);
  }

  /** An attempt that opens a writable cache of its own with such days: nobody seen until now is let in. */
  lemma WrappedOpeningIff(events: seq<Runs.Event>, s: R.State, a: Attempt)
    requires R.Inv(s) && a.config.Some? && R.New(s, CacheOptions(a), a.env).1.Ok?
    requires a.answer == NoClient || a.answer == OtherError
    requires MAX_DAYS / 2 < CacheOptions(a).expiration <= MAX_DAYS && CacheOptions(a) !in s.entries
    requires R.New(s, CacheOptions(a), a.env).0.caches[R.New(s, CacheOptions(a), a.env).1.value].shadowMode == READ_WRITE
    ensures var w := Runs.Run(Runs.FRESH, events);
      var threshold := GoThreshold(a.at, CacheOptions(a).expiration);
      && threshold > UnixSeconds(a.at)
      && (Outcome(s, w.tables, a).2 == Success <==>
          exists i :: Runs.Counts(w.log, a.name, i) && w.log[i].password == a.password && UnixSeconds(w.log[i].at) >= threshold)
  {
    var w, days := Runs.Run(Runs.FRESH, events), CacheOptions(a).expiration;
    OfflineAttemptIff(events, s, a);
    WrappedPurgeRemovesFreshUser(days, a.at);
    forall i
      ensures Admits(w.log, i, a.name, a.password, false, READ_WRITE, days, a.at) <==>
        Runs.Counts(w.log, a.name, i) && w.log[i].password == a.password && UnixSeconds(w.log[i].at) >= GoThreshold(a.at, days)
    {
      WrappedOpeningAdmits(w.log, i, a.name, a.password, days, a.at);
    }
  }

  /** Up to 53375 days, or through an open cache, the log alone decides. */
  lemma SafeAttemptIff(events: seq<Runs.Event>, s: R.State, a: Attempt)
    requires R.Inv(s) && a.config.Some? && R.New(s, CacheOptions(a), a.env).1.Ok?
    requires a.answer == NoClient || a.answer == OtherError
    requires CacheOptions(a).expiration <= MAX_DAYS / 2 || CacheOptions(a) in s.entries
    ensures var w := Runs.Run(Runs.FRESH, events);
      var (s1, r) := R.New(s, CacheOptions(a), a.env);
      && r.value < |s1.caches|
      && (Outcome(s, w.tables, a).2 == Success <==>
          && s1.caches[r.value].shadowMode >= READ_ONLY && CacheOptions(a).expiration >= 0
          && exists i :: Runs.Counts(w.log, a.name, i) && w.log[i].password == a.password
                      && Unexpired(a.at, UnixSeconds(w.log[i].at), CacheOptions(a).expiration))
  {
    var w, o := Runs.Run(Runs.FRESH, events), CacheOptions(a);
    var (s1, r) := R.New(s, o, a.env);
    OfflineAttemptIff(events, s, a);
    var shared, mode := o in s.entries, s1.caches[r.value].shadowMode;
    forall i
      ensures Admits(w.log, i, a.name, a.password, shared, mode, o.expiration, a.at) <==>
        Runs.Counts(w.log, a.name, i) && w.log[i].password == a.password && Unexpired(a.at, UnixSeconds(w.log[i].at), o.expiration)
    {
      SafeOpeningAdmits(w.log, i, a.name, a.password, shared, mode, o.expiration, a.at);
    }
  }

  /** The offline check without network, the update after an accepted login. */
  method Decide(db: D.Database, a: Attempt, mode: int) returns (r: PamResult)
    requires a.config.Some? && Weak(db.View())
    requires Classify(a.answer) == NoNetwork || Uids.CanStop(db.View(), a.name)
    modifies db
    ensures Weak(db.View())
    ensures (db.View(), r) == Decided(old(db.View()), a, mode)
  {
    if Classify(a.answer) == NoNetwork {
      var checked := db.CanAuthenticate(mode, CacheOptions(a).expiration, a.name, a.password, a.at);
      r := if checked.Ok? then Success else AuthError;
    } else {
      var updated := db.Update(LoginOf(a, mode));
      r := if updated.Ok? then Success else AuthError;
    }
  }

  /** An attempt ends unless it has to create a user and, once the cache is open, the search for an id goes on for ever. */
  ghost predicate Ends(s: R.State, t: Tables, a: Attempt)
    requires R.Inv(s)
  {
    a.config.Some? && Classify(a.answer) == Allow && R.New(s, CacheOptions(a), a.env).1.Ok? ==>
      Uids.CanStop(TablesAcquired(s, t, CacheOptions(a), a.env, a.at), a.name)
  }

  /** It always ends when an id is free, or the user is known, before the opening. */
  lemma EndsFor(s: R.State, t: Tables, a: Attempt)
    requires R.Inv(s) && Weak(t) && (Uids.HasFreeId(t) || LoginTaken(t, a.name))
    ensures Ends(s, t, a)
  {
    Uids.StopsFor(t, a.name);
    if a.config.Some? {
      Uids.PurgeKeepsStop(t, GoThreshold(a.at, CacheOptions(a).expiration), a.name);
    }
  }

  /** Authenticate, with its effects on the registry and on the tables. */
  method Authenticate(registry: O.OpenedCaches, db: D.Database, a: Attempt) returns (r: PamResult)
    requires registry.Valid() && Weak(db.View()) && Ends(registry.View(), db.View(), a)
    modifies registry, db
    ensures registry.Valid() && Weak(db.View())
    ensures (registry.View(), db.View(), r) == Outcome(old(registry.View()), old(db.View()), a)
    ensures registry.handles == old(registry.handles)
  {
    if a.config.None? {
      return SystemError;
    }
    if Classify(a.answer) == Deny {
      return AuthError;
    }
    var acquired := Acquire(registry, db, CacheOptions(a), a.env, a.at);
    if acquired.Err? {
      return SystemError;
    }
    var id := acquired.value;
    r := Decide(db, a, registry.caches[id].shadowMode);
    registry.Close(id);
  }
}
