/**
 Whole runs of the cache: logins that may stop half-way, openings by the Go and
 the Rust implementation (each of which may purge), attribute changes and the
 discarding of a partial cache. The log records what was committed.
 */
module Runs {
  import opened Basics
  import opened Tables
  import opened Durations
  import opened Cache
  import Uids
  import Q = Queries

  /** A committed refresh, a committed purge, or the recreation of the files. */
  datatype Entry =
    | RefreshedBy(user: string, password: string, at: int)
    | PurgedBelow(threshold: int)
    | Discarded

  datatype World = World(tables: Tables, log: seq<Entry>)

  datatype Event =
    | OnlineLogin(login: Login)
    | GoOpen(mode: int, days: int, at: int)
    | RustOpen(rustMode: int, rustAt: int)
    | SetAttribute(name: string, attr: Attribute, value: string)
    | Reopen(passwdFile: bool, shadowFile: bool, root: bool)

  const FRESH: World := World(EMPTY, [])

  /** New purges a writable cache unless the expiration is 0. */
  predicate GoPurges(mode: int, days: int) {
    mode == READ_WRITE && days != 0
  }

  /** A missing file makes root recreate both; anybody else gets an error. */
  predicate Discards(e: Event) {
    e.Reopen? && !(e.passwdFile && e.shadowFile) && e.root
  }

  ghost function Step(w: World, e: Event): World {
    match e
    case OnlineLogin(l) =>
      var (t, r) := Update(w.tables, l);
      World(t, if r.Ok? then w.log + [RefreshedBy(l.name, l.password, l.at)] else w.log)
    case GoOpen(mode, days, at) =>
      if !GoPurges(mode, days) then w
      else World(GoPurged(w.tables, GoThreshold(at, days)), w.log + [PurgedBelow(GoThreshold(at, days))])
    case RustOpen(mode, at) =>
      if mode < READ_WRITE then w
      else World(RustPurged(w.tables, NssThreshold(at)), w.log + [PurgedBelow(NssThreshold(at))])
    case SetAttribute(name, attr, value) =>
      w.(tables := AttributeSet(w.tables, name, attr, value))
    case Reopen(_, _, _) =>
      if Discards(e) then World(EMPTY, w.log + [Discarded]) else w
  }

  ghost function Run(w: World, events: seq<Event>): World {
    if events == [] then w else Step(Run(w, events[..|events| - 1]), events[|events| - 1])
  }

  /** Survivors of a purge with this threshold. */
  predicate Survives(t: Tables, u: int, threshold: int) {
    u in t.passwd && t.passwd[u].lastOnlineAuth >= threshold
  }

  /**
   The openings in plain numbers. Go purges in mode 2 unless the days are 0; Rust purges from mode 2 on,
   at 180 days; a missing file makes root start with empty tables, and nobody else changes anything.
   */
  lemma OpeningEvents(w: World, mode: int, days: int, at: int, passwdFile: bool, shadowFile: bool, root: bool, u: int)
    ensures mode != 2 || days == 0 ==> Step(w, GoOpen(mode, days, at)) == w
    ensures mode == 2 && days != 0 && days <= 53375 ==>
      (u in Step(w, GoOpen(mode, days, at)).tables.passwd <==>
        Survives(w.tables, u, (at - 2 * (if days < 0 then 90 else days) * 86_400_000_000_000) / 1_000_000_000))
    ensures mode < 2 ==> Step(w, RustOpen(mode, at)) == w
    ensures mode >= 2 ==>
      (u in Step(w, RustOpen(mode, at)).tables.passwd <==>
        Survives(w.tables, u, (at - 180 * 86_400_000_000_000) / 1_000_000_000))
    ensures Step(w, Reopen(passwdFile, shadowFile, root)).tables ==
      if root && (!passwdFile || !shadowFile) then EMPTY else w.tables
  {
    ThresholdsInSeconds(at, days);
  }

  /** An attribute event writes one column of one login. */
  lemma AttributeEvent(w: World, name: string, attr: Attribute, value: string, u: int)
    requires u in w.tables.passwd
    ensures var (row, w') := (w.tables.passwd[u], Step(w, SetAttribute(name, attr, value)));
      && w'.log == w.log && u in w'.tables.passwd
      && w'.tables.passwd[u] ==
           if row.login != name then row
           else match attr
             case Gecos => row.(gecos := value)
             case Home => row.(home := value)
             case Shell => row.(shell := value)
  {
  }

  /** A run in two parts. */
  lemma {:induction false} RunConcat(w: World, a: seq<Event>, b: seq<Event>)
    ensures Run(w, a + b) == Run(Run(w, a), b)
    decreases |b|
  {
    if b == [] {
      assert a + b == a;
    } else {
      var n := |b| - 1;
      assert (a + b)[..|a + b| - 1] == a + b[..n];
      RunConcat(w, a, b[..n]);
    }
  }

  predicate GoOnly(events: seq<Event>) {
    forall i :: 0 <= i < |events| ==> !events[i].RustOpen?
  }

  lemma StepInvariant(w: World, e: Event)
    requires Weak(w.tables)
    ensures Weak(Step(w, e).tables)
    ensures Strong(w.tables) && !e.RustOpen? ==> Strong(Step(w, e).tables)
  {
    match e
    case OnlineLogin(l) => UpdateInvariant(w.tables, l);
    case GoOpen(mode, days, at) => GoPurgedInvariant(w.tables, GoThreshold(at, days));
    case RustOpen(mode, at) => RustPurgedInvariant(w.tables, NssThreshold(at));
    case SetAttribute(name, attr, value) => AttributeSetInvariant(w.tables, name, attr, value);
    case Reopen(_, _, _) =>
  }

  /** Mixed runs keep the weak invariant, whatever state satisfying it they start from. */
  lemma {:induction false} MixedRunInvariant(w: World, events: seq<Event>)
    requires Weak(w.tables)
    ensures Weak(Run(w, events).tables)
  {
    if events != [] {
      var n := |events| - 1;
      MixedRunInvariant(w, events[..n]);
      StepInvariant(Run(w, events[..n]), events[n]);
    }
  }

  /** Go-only runs keep the strong invariant, across discarding a partial cache too. */
  lemma {:induction false} GoRunInvariant(w: World, events: seq<Event>)
    requires Strong(w.tables) && GoOnly(events)
    ensures Strong(Run(w, events).tables)
  {
    if events != [] {
      var n := |events| - 1;
      GoRunInvariant(w, events[..n]);
      StepInvariant(Run(w, events[..n]), events[n]);
    }
  }

  /** After any Go-only run, also one that purged the user, an absent user gets an unused id. */
  lemma GoRunGivesUid(events: seq<Event>, name: string)
    requires GoOnly(events)
    requires !LoginTaken(Run(FRESH, events).tables, name) && Uids.HasFreeId(Run(FRESH, events).tables)
    ensures Uids.GenerateUid(Run(FRESH, events).tables, name).Ok?
    ensures Uids.GenerateUid(Run(FRESH, events).tables, name).value !in Uids.Taken(Run(FRESH, events).tables)
  {
    GoRunInvariant(FRESH, events);
    Uids.AbsentNameGetsUid(Run(FRESH, events).tables, name);
  }

  /** After any Go-only run a complete writable login succeeds and lets the user in offline. */
  lemma GoRunAllowsLogin(events: seq<Event>, l: Login)
    requires GoOnly(events) && Uids.HasFreeId(Run(FRESH, events).tables)
    requires l.mode == READ_WRITE && !l.interrupted
    requires LoginTaken(Run(FRESH, events).tables, l.name) || SoundPattern(l.pattern, l.name)
    ensures Update(Run(FRESH, events).tables, l).1 == Ok(())
  {
    GoRunInvariant(FRESH, events);
    LoginIff(Run(FRESH, events).tables, l);
  }

  // ------------------------------------------------------------ who may log in offline

  datatype Credential = Credential(password: string, at: int)

  /** The credentials still standing according to the log alone. */
  function Standing(log: seq<Entry>): map<string, Credential> {
    if log == [] then map[]
    else
      var before := Standing(log[..|log| - 1]);
      match log[|log| - 1]
      case RefreshedBy(user, password, at) => before[user := Credential(password, at)]
      case PurgedBelow(threshold) => map u | u in before && UnixSeconds(before[u].at) >= threshold :: before[u]
      case Discarded => map[]
  }

  /** Entry i is the user's refresh that counts: the latest, and neither purged nor discarded since. */
  predicate Counts(log: seq<Entry>, user: string, i: int) {
    && 0 <= i < |log| && log[i].RefreshedBy? && log[i].user == user
    && forall j :: i < j < |log| ==> Spares(log[j], user, log[i].at)
  }

  /** Whether a later entry leaves the refresh of this user at this instant in force. */
  predicate Spares(e: Entry, user: string, at: int) {
    match e
    case RefreshedBy(other, _, _) => other != user
    case PurgedBelow(threshold) => UnixSeconds(at) >= threshold
    case Discarded => false
  }

  lemma CountsExtends(log: seq<Entry>, e: Entry, user: string, i: int)
    requires 0 <= i < |log|
    ensures Counts(log + [e], user, i) <==> Counts(log, user, i) && Spares(e, user, log[i].at)
  {
    var longer := log + [e];
    if Counts(longer, user, i) {
      assert longer[|log|] == e;
      assert forall j :: i < j < |log| ==> longer[j] == log[j];
    }
  }

  /** The fold over the log and the direct reading of the log say the same. */
  lemma {:induction false} StandingIff(log: seq<Entry>, user: string, c: Credential)
    ensures (user in Standing(log) && Standing(log)[user] == c) <==>
      exists i :: Counts(log, user, i) && log[i] == RefreshedBy(user, c.password, c.at)
  {
    if log != [] {
      var n := |log| - 1;
      var before, e := log[..n], log[n];
      assert log == before + [e];
      StandingIff(before, user, c);
      forall i | 0 <= i < n
        ensures log[i] == before[i]
        ensures Counts(log, user, i) <==> Counts(before, user, i) && Spares(e, user, before[i].at)
      {
        CountsExtends(before, e, user, i);
      }
      if e.RefreshedBy? && e.user == user {
        assert Counts(log, user, n);
      } else if user in Standing(log) && Standing(log)[user] == c {
        var i :| Counts(before, user, i) && before[i] == RefreshedBy(user, c.password, c.at);
        assert Counts(log, user, i);
      }
    }
  }

  /** The tables carry exactly the standing credentials; half-created users carry none. */
  ghost predicate Agrees(t: Tables, standing: map<string, Credential>)
    requires SameUsers(t)
  {
    && (forall u :: u in t.passwd && t.shadow[u].Of? ==>
          var login := t.passwd[u].login;
          && login in standing
          && standing[login].password == t.shadow[u].password
          && UnixSeconds(standing[login].at) == t.passwd[u].lastOnlineAuth)
    && (forall name :: name in standing ==>
          exists u :: u in t.passwd && t.passwd[u].login == name && t.shadow[u].Of?)
  }

  lemma RefreshAgrees(t: Tables, standing: map<string, Credential>, uid: int, password: string, at: int)
    requires Weak(t) && Agrees(t, standing) && uid in t.passwd
    ensures var t' := Refreshed(t, uid, UnixSeconds(at), Of(password));
      SameUsers(t') && Agrees(t', standing[t.passwd[uid].login := Credential(password, at)])
  {
    var t' := Refreshed(t, uid, UnixSeconds(at), Of(password));
    var login := t.passwd[uid].login;
    var standing' := standing[login := Credential(password, at)];
    forall u | u in t'.passwd && t'.shadow[u].Of? && u != uid ensures t'.passwd[u].login != login {
      assert t.groups[u].name != t.groups[uid].name;
    }
    forall name | name in standing'
      ensures exists u :: u in t'.passwd && t'.passwd[u].login == name && t'.shadow[u].Of?
    {
      if name == login {
        assert t'.passwd[uid].login == name;
      } else {
        var u :| u in t.passwd && t.passwd[u].login == name && t.shadow[u].Of?;
        assert t'.passwd[u].login == name;
      }
    }
  }

  lemma InsertAgrees(t: Tables, standing: map<string, Credential>, n: NewUser)
    requires Weak(t) && Agrees(t, standing)
    ensures SameUsers(Inserted(t, n)) && Agrees(Inserted(t, n), standing)
  {
    var t' := Inserted(t, n);
    forall name | name in standing
      ensures exists u :: u in t'.passwd && t'.passwd[u].login == name && t'.shadow[u].Of?
    {
      var u :| u in t.passwd && t.passwd[u].login == name && t.shadow[u].Of?;
      assert t'.passwd[u].login == name;
    }
  }

  /** The second transaction, on tables that already hold the user. */
  lemma SecondHalfAgrees(t: Tables, log: seq<Entry>, l: Login, uid: int)
    requires Weak(t) && Agrees(t, Standing(log)) && uid in t.passwd && t.passwd[uid].login == l.name
    ensures var (t', r) := Refresh(t, l, uid);
      SameUsers(t') && Agrees(t', Standing(if r.Ok? then log + [RefreshedBy(l.name, l.password, l.at)] else log))
  {
    var longer := log + [RefreshedBy(l.name, l.password, l.at)];
    assert longer[..|longer| - 1] == log;
    RefreshAgrees(t, Standing(log), uid, l.password, l.at);
  }

  lemma LoginAgrees(w: World, l: Login)
    requires Weak(w.tables) && Agrees(w.tables, Standing(w.log))
    ensures var w' := Step(w, OnlineLogin(l)); SameUsers(w'.tables) && Agrees(w'.tables, Standing(w'.log))
  {
    var t := w.tables;
    match FindUser(t, l.mode, l.name)
    case Some(uid) =>
      SecondHalfAgrees(t, w.log, l, uid);
    case None =>
      if Create(t, l).Ok? {
        var n := Candidate(t, l).value;
        CandidateIsFree(t, l);
        InsertedInvariant(t, n);
        InsertAgrees(t, Standing(w.log), n);
        SecondHalfAgrees(Inserted(t, n), w.log, l, n.uid);
      }
  }

  /** Both purges take the stale users out of passwd and shadow, and that is all that matters here. */
  lemma PurgeAgrees(t: Tables, t': Tables, log: seq<Entry>, threshold: int)
    requires Weak(t) && Agrees(t, Standing(log))
    requires t'.passwd == t.passwd - Stale(t, threshold) && t'.shadow == t.shadow - Stale(t, threshold)
    ensures SameUsers(t') && Agrees(t', Standing(log + [PurgedBelow(threshold)]))
  {
    assert (log + [PurgedBelow(threshold)])[..|log|] == log;
    var standing := Standing(log);
    forall name | name in standing && UnixSeconds(standing[name].at) >= threshold
      ensures exists u :: u in t'.passwd && t'.passwd[u].login == name && t'.shadow[u].Of?
    {
      var u :| u in t.passwd && t.passwd[u].login == name && t.shadow[u].Of?;
      assert t'.passwd[u].login == name;
    }
  }

  lemma AttributeAgrees(t: Tables, standing: map<string, Credential>, login: string, attr: Attribute, value: string)
    requires Weak(t) && Agrees(t, standing)
    ensures var t' := AttributeSet(t, login, attr, value); SameUsers(t') && Agrees(t', standing)
  {
    var t' := AttributeSet(t, login, attr, value);
    assert t'.passwd.Keys == t.passwd.Keys;
    forall u | u in t.passwd
      ensures t'.passwd[u].login == t.passwd[u].login && t'.passwd[u].lastOnlineAuth == t.passwd[u].lastOnlineAuth
    {
    }
    SameCredentials(t, t', standing);
  }

  lemma SameCredentials(t: Tables, t': Tables, standing: map<string, Credential>)
    requires SameUsers(t) && Agrees(t, standing)
    requires t'.passwd.Keys == t.passwd.Keys && t'.shadow == t.shadow
    requires forall u :: u in t.passwd ==>
      t'.passwd[u].login == t.passwd[u].login && t'.passwd[u].lastOnlineAuth == t.passwd[u].lastOnlineAuth
    ensures SameUsers(t') && Agrees(t', standing)
  {
  }

  lemma StepAgrees(w: World, e: Event)
    requires Weak(w.tables) && Agrees(w.tables, Standing(w.log))
    ensures SameUsers(Step(w, e).tables) && Agrees(Step(w, e).tables, Standing(Step(w, e).log))
  {
    match e
    case OnlineLogin(l) => LoginAgrees(w, l);
    case GoOpen(mode, days, at) =>
      PurgeAgrees(w.tables, GoPurged(w.tables, GoThreshold(at, days)), w.log, GoThreshold(at, days));
    case RustOpen(mode, at) =>
      PurgeAgrees(w.tables, RustPurged(w.tables, NssThreshold(at)), w.log, NssThreshold(at));
    case SetAttribute(name, attr, value) => AttributeAgrees(w.tables, Standing(w.log), name, attr, value);
    case Reopen(_, _, _) =>
  }

  lemma {:induction false} RunAgrees(events: seq<Event>)
    ensures Weak(Run(FRESH, events).tables)
    ensures Agrees(Run(FRESH, events).tables, Standing(Run(FRESH, events).log))
  {
    MixedRunInvariant(FRESH, events);
    if events != [] {
      var n := |events| - 1;
      RunAgrees(events[..n]);
      StepAgrees(Run(FRESH, events[..n]), events[n]);
    }
  }

  /**
   Main theorem. After every mixed run, the offline check accepts a name and a password exactly
   when shadow is readable, the days are not negative, and the log holds a refresh of that name
   with that password that counts and is not expired.
   */
  lemma OfflineLoginIff(events: seq<Event>, mode: int, days: int, name: string, password: string, now: int)
    ensures var w := Run(FRESH, events);
      CanAuthenticate(w.tables, mode, days, name, password, now) == Ok(()) <==>
        && mode >= READ_ONLY && days >= 0
        && exists i :: Counts(w.log, name, i) && w.log[i].password == password
                    && Unexpired(now, UnixSeconds(w.log[i].at), days)
  {
    var w := Run(FRESH, events);
    RunAgrees(events);
    var standing := Standing(w.log);
    if mode >= READ_ONLY && days >= 0 {
      if CanAuthenticate(w.tables, mode, days, name, password, now) == Ok(()) {
        StandingIff(w.log, name, standing[name]);
        var i :| Counts(w.log, name, i) && w.log[i] == RefreshedBy(name, standing[name].password, standing[name].at);
        assert w.log[i].password == password;
      }
      forall i | Counts(w.log, name, i) && w.log[i].password == password
                 && Unexpired(now, UnixSeconds(w.log[i].at), days)
        ensures CanAuthenticate(w.tables, mode, days, name, password, now) == Ok(())
      {
        StandingIff(w.log, name, Credential(password, w.log[i].at));
        var u :| u in w.tables.passwd && w.tables.passwd[u].login == name && w.tables.shadow[u].Of?;
        FindUserIff(w.tables, mode, name, u);
      }
    }
  }

  /** Safety in calendar terms: the accepted password is that of a refresh at most `days` days ago. */
  lemma OfflineLoginIsRecent(events: seq<Event>, mode: int, days: int, name: string, password: string, now: int)
    returns (i: nat)
    requires CanAuthenticate(Run(FRESH, events).tables, mode, days, name, password, now) == Ok(())
    ensures var log := Run(FRESH, events).log;
      && Counts(log, name, i) && log[i].password == password
      && days >= 0 && (days == 0 || now <= log[i].at + days * DAY)
  {
    var log := Run(FRESH, events).log;
    OfflineLoginIff(events, mode, days, name, password, now);
    i :| Counts(log, name, i) && log[i].password == password && Unexpired(now, UnixSeconds(log[i].at), days);
    UnexpiredImpliesWithinDays(now, log[i].at, days);
  }

  /** A login of this name that reaches its second transaction. */
  predicate Completes(e: Event, name: string) {
    e.OnlineLogin? && e.login.name == name && e.login.mode == READ_WRITE && !e.login.interrupted
  }

  /** A name without a standing credential gets none without a completed login. */
  lemma {:induction false} NoCredential(w: World, later: seq<Event>, name: string)
    requires name !in Standing(w.log)
    requires forall i :: 0 <= i < |later| ==> !Completes(later[i], name)
    ensures name !in Standing(Run(w, later).log)
  {
    if later != [] {
      var n := |later| - 1;
      NoCredential(w, later[..n], name);
      NoCredentialStep(Run(w, later[..n]), later[n], name);
    }
  }

  lemma StandingGrows(log: seq<Entry>, e: Entry, name: string)
    requires name !in Standing(log) && !(e.RefreshedBy? && e.user == name)
    ensures name !in Standing(log + [e])
  {
    assert (log + [e])[..|log|] == log;
  }

  lemma NoCredentialStep(w: World, e: Event, name: string)
    requires name !in Standing(w.log) && !Completes(e, name)
    ensures name !in Standing(Step(w, e).log)
  {
    match e
    case OnlineLogin(l) =>
      RecordedIsComplete(w.tables, l);
      if l.name != name { StandingGrows(w.log, RefreshedBy(l.name, l.password, l.at), name); }
    case GoOpen(_, days, at) => StandingGrows(w.log, PurgedBelow(GoThreshold(at, days)), name);
    case RustOpen(_, at) => StandingGrows(w.log, PurgedBelow(NssThreshold(at)), name);
    case SetAttribute(_, _, _) =>
    case Reopen(_, _, _) => StandingGrows(w.log, Discarded, name);
  }

  /**
   A user whose first login stopped between its transactions is let in by no password, neither then
   nor after any continuation without a completed login of that name.
   */
  lemma HalfCreatedNeverPasses(events: seq<Event>, l: Login, later: seq<Event>, mode: int, days: int, password: string, now: int)
    requires l.interrupted && !LoginTaken(Run(FRESH, events).tables, l.name)
    requires forall i :: 0 <= i < |later| ==> !Completes(later[i], l.name)
    ensures CanAuthenticate(Run(FRESH, events + ([OnlineLogin(l)] + later)).tables, mode, days, l.name, password, now) != Ok(())
  {
    RunAgrees(events);
    RunConcat(FRESH, events, [OnlineLogin(l)] + later);
    NoCredential(Run(FRESH, events), [OnlineLogin(l)] + later, l.name);
    NoCredentialNoLogin(events + ([OnlineLogin(l)] + later), l.name, mode, days, password, now);
  }

  lemma NoCredentialNoLogin(events: seq<Event>, name: string, mode: int, days: int, password: string, now: int)
    requires name !in Standing(Run(FRESH, events).log)
    ensures CanAuthenticate(Run(FRESH, events).tables, mode, days, name, password, now) != Ok(())
  {
    var log := Run(FRESH, events).log;
    OfflineLoginIff(events, mode, days, name, password, now);
    forall i | Counts(log, name, i) ensures false {
      StandingIff(log, name, Credential(log[i].password, log[i].at));
    }
  }

  // ------------------------------------------------------------- the NSS purge and the offline check

  /** The purge of the NSS module never changes what the offline check answers at that instant. */
  ghost predicate NssKeepsVerdict(mode: int, days: int) {
    forall t, name, password, now :: Weak(t) ==>
      (CanAuthenticate(RustPurged(t, NssThreshold(now)), mode, days, name, password, now) == Ok(()) <==>
       CanAuthenticate(t, mode, days, name, password, now) == Ok(()))
  }

  lemma EmptyHasFreeId()
    ensures Weak(EMPTY) && Strong(EMPTY) && Uids.HasFreeId(EMPTY)
  {
    assert 0 !in Uids.Taken(EMPTY);
  }

  /** A complete writable login on fresh files. */
  lemma FirstLogin(l: Login)
    requires l.mode == READ_WRITE && !l.interrupted && SoundPattern(l.pattern, l.name)
    ensures var w := Run(FRESH, [OnlineLogin(l)]);
      && w == Step(FRESH, OnlineLogin(l)) && Weak(w.tables) && w.log == [RefreshedBy(l.name, l.password, l.at)]
      && exists u :: u in w.tables.passwd && w.tables.passwd[u].login == l.name
                  && w.tables.passwd[u].lastOnlineAuth == UnixSeconds(l.at)
  {
    var one := [OnlineLogin(l)];
    assert one[..0] == [];
    EmptyHasFreeId();
    LoginIff(EMPTY, l);
    var u := LoginRow(EMPTY, l);
    UpdateInvariant(EMPTY, l);
  }

  /** A run in which the NSS module removes a user whom PAM accepted at that very instant. */
  lemma NssPurgeRefuses(mode: int, days: int, l: Login, now: int)
    requires mode >= READ_ONLY && l.mode == READ_WRITE && !l.interrupted && SoundPattern(l.pattern, l.name)
    requires Unexpired(now, UnixSeconds(l.at), days) && NssRemoves(now, UnixSeconds(l.at))
    ensures var accepted := Run(FRESH, [OnlineLogin(l)]).tables;
      CanAuthenticate(accepted, mode, days, l.name, l.password, now) == Ok(())
    ensures var purged := Run(FRESH, [OnlineLogin(l), RustOpen(READ_WRITE, now)]).tables;
      CanAuthenticate(purged, mode, days, l.name, l.password, now) == Err(NoEnt)
  {
    var one, two := [OnlineLogin(l)], [OnlineLogin(l), RustOpen(READ_WRITE, now)];
    FirstLogin(l);
    assert Counts(Run(FRESH, one).log, l.name, 0);
    OfflineLoginIff(one, mode, days, l.name, l.password, now);
    assert two[..1] == one;
    PurgedIsUnknown(Run(FRESH, one).tables, mode, days, l.name, l.password, now);
  }

  lemma PurgedIsUnknown(t: Tables, mode: int, days: int, name: string, password: string, now: int)
    requires Weak(t) && mode >= READ_ONLY && days >= 0
    requires exists u :: u in t.passwd && t.passwd[u].login == name && t.passwd[u].lastOnlineAuth < NssThreshold(now)
    ensures CanAuthenticate(RustPurged(t, NssThreshold(now)), mode, days, name, password, now) == Err(NoEnt)
  {
    OnlyUserPurged(t, NssThreshold(now), name);
    RustPurgedInvariant(t, NssThreshold(now));
    FindUserIff(RustPurged(t, NssThreshold(now)), mode, name, 0);
  }

  lemma OnlyUserPurged(t: Tables, threshold: int, name: string)
    requires Weak(t) && exists u :: u in t.passwd && t.passwd[u].login == name && t.passwd[u].lastOnlineAuth < threshold
    ensures !LoginTaken(RustPurged(t, threshold), name)
  {
    var u :| u in t.passwd && t.passwd[u].login == name && t.passwd[u].lastOnlineAuth < threshold;
    if v :| v in RustPurged(t, threshold).passwd && t.passwd[v].login == name {
      UniqueLogins(t, u, v);
    }
  }

  lemma SafePurgeKeepsVerdict(t: Tables, mode: int, days: int, name: string, password: string, now: int)
    requires Weak(t) && NssPurgeIsSafe(days)
    ensures CanAuthenticate(RustPurged(t, NssThreshold(now)), mode, days, name, password, now) == Ok(()) <==>
            CanAuthenticate(t, mode, days, name, password, now) == Ok(())
  {
    RustPurgedInvariant(t, NssThreshold(now));
    PurgedVerdict(t, RustPurged(t, NssThreshold(now)), NssThreshold(now), mode, days, name, password, now);
    if CanAuthenticate(t, mode, days, name, password, now) == Ok(()) {
      var u := FindUser(t, mode, name).value;
      assert Unexpired(now, t.passwd[u].lastOnlineAuth, days) && !NssRemoves(now, t.passwd[u].lastOnlineAuth);
    }
  }

  lemma UnsafePurgeChangesVerdict(mode: int, days: int, now: int, last: int)
    requires mode >= READ_ONLY && Unexpired(now, last, days) && NssRemoves(now, last)
    ensures !NssKeepsVerdict(mode, days)
  {
    var l := Login(READ_WRITE, "", "", "", "", last * SECOND, false);
    NssPurgeRefuses(mode, days, l, now);
    var one := [OnlineLogin(l)];
    assert (one + [RustOpen(READ_WRITE, now)])[..1] == one;
    assert one + [RustOpen(READ_WRITE, now)] == [OnlineLogin(l), RustOpen(READ_WRITE, now)];
    MixedRunInvariant(FRESH, one);
    var t := Run(FRESH, one).tables;
    assert CanAuthenticate(t, mode, days, "", "", now) == Ok(());
    assert CanAuthenticate(RustPurged(t, NssThreshold(now)), mode, days, "", "", now) != Ok(());
  }

  /** On the tables, for all days: the NSS purge is harmless exactly when the two durations say so. */
  lemma NssKeepsVerdictIff(mode: int, days: int)
    requires mode >= READ_ONLY
    ensures NssKeepsVerdict(mode, days) <==> NssPurgeIsSafe(days)
  {
    if NssPurgeIsSafe(days) {
      forall t, name, password, now | Weak(t)
        ensures CanAuthenticate(RustPurged(t, NssThreshold(now)), mode, days, name, password, now) == Ok(()) <==>
                CanAuthenticate(t, mode, days, name, password, now) == Ok(())
      {
        SafePurgeKeepsVerdict(t, mode, days, name, password, now);
      }
    } else {
      var now: int, last: int :| Unexpired(now, last, days) && NssRemoves(now, last);
      UnsafePurgeChangesVerdict(mode, days, now, last);
    }
  }

  /** For days that fit: exactly for negative days and for 1 to 180. */
  lemma NssKeepsVerdictDays(mode: int, days: int)
    requires mode >= READ_ONLY && days <= MAX_DAYS
    ensures NssKeepsVerdict(mode, days) <==> days < 0 || 1 <= days <= 180
  {
    NssKeepsVerdictIff(mode, days);
    NssPurgeSafeDays(days);
  }

  // ----------------------------------------------------------- the leftovers of the Rust purge

  /** A user taken away by the Rust purge leaves a group behind. */
  lemma RustPurgeLeavesGroup(w: World, mode: int, at: int, u: int)
    requires Weak(w.tables) && u in w.tables.passwd
    requires u !in Step(w, RustOpen(mode, at)).tables.passwd
    ensures Leftover(Step(w, RustOpen(mode, at)).tables, w.tables.passwd[u].login)
  {
  }

  predicate SameLeftover(t: Tables, t': Tables, g: int) {
    g in t.groups && g !in t.passwd && g in t'.groups && g !in t'.passwd && t'.groups[g].name == t.groups[g].name
  }

  /** A leftover id is never given to a live user, and only discarding the cache removes it. */
  lemma LeftoverPersists(w: World, e: Event, g: int)
    requires Weak(w.tables) && !Discards(e)
    requires g in w.tables.groups && g !in w.tables.passwd
    ensures SameLeftover(w.tables, Step(w, e).tables, g)
  {
  }

  lemma {:induction false} LeftoverPersistsRun(w: World, events: seq<Event>, g: int)
    requires Weak(w.tables) && g in w.tables.groups && g !in w.tables.passwd
    requires forall i :: 0 <= i < |events| ==> !Discards(events[i])
    ensures SameLeftover(w.tables, Run(w, events).tables, g)
  {
    if events != [] {
      var n := |events| - 1;
      LeftoverPersistsRun(w, events[..n], g);
      MixedRunInvariant(w, events[..n]);
      LeftoverPersists(Run(w, events[..n]), events[n], g);
    }
  }

  /**
   Lock-out theorem. Once the Rust purge has removed a user, no continuation short of discarding
   the cache brings the user back: every later login of that name fails and changes nothing.
   */
  lemma RustPurgeLocksOut(w: World, mode: int, at: int, u: int, events: seq<Event>, l: Login)
    requires Weak(w.tables) && u in w.tables.passwd && u !in Step(w, RustOpen(mode, at)).tables.passwd
    requires forall i :: 0 <= i < |events| ==> !Discards(events[i])
    requires l.name == w.tables.passwd[u].login
    ensures var later := Run(Step(w, RustOpen(mode, at)), events).tables;
      && u !in later.passwd && !LoginTaken(later, l.name)
      && Update(later, l).0 == later && Update(later, l).1.Err?
  {
    var purged := Step(w, RustOpen(mode, at));
    StepInvariant(w, RustOpen(mode, at));
    RustPurgedGroups(w.tables, NssThreshold(at));
    LeftoverPersistsRun(purged, events, u);
    MixedRunInvariant(purged, events);
    LeftoverBlocksLogin(Run(purged, events).tables, l);
  }

  /** The NSS module takes the user of this name away. */
  ghost predicate RemovedByRust(w: World, e: Event, name: string) {
    e.RustOpen? && LoginTaken(w.tables, name) && !LoginTaken(Step(w, e).tables, name)
  }

  /** Both purges keep a user's row or remove the user. */
  lemma PurgedLeftover(t: Tables, threshold: int, name: string)
    requires Weak(t)
    ensures Leftover(GoPurged(t, threshold), name) <==> Leftover(t, name)
    ensures Leftover(RustPurged(t, threshold), name) <==>
      Leftover(t, name) || (LoginTaken(t, name) && !LoginTaken(RustPurged(t, threshold), name))
  {
    GoPurgedGroups(t, threshold);
    RustPurgedGroups(t, threshold);
    var go, rust := GoPurged(t, threshold), RustPurged(t, threshold);
    if g :| g in t.groups && t.groups[g].name == name && g !in t.passwd {
      assert g in go.groups && go.groups[g].name == name && g in rust.groups && rust.groups[g].name == name;
    }
    if u :| u in t.passwd && t.passwd[u].login == name {
      assert u in rust.groups && rust.groups[u].name == name;
      if u !in rust.passwd {
        OnlyUserPurged(t, threshold, name);
      } else {
        assert rust.passwd[u].login == name;
      }
    }
  }

  lemma LoginLeftover(t: Tables, l: Login, name: string)
    requires Weak(t)
    ensures Leftover(Update(t, l).0, name) <==> Leftover(t, name)
  {
    if FindUser(t, l.mode, l.name).None? && Create(t, l).Ok? {
      CandidateIsFree(t, l);
    }
    var t' := Update(t, l).0;
    if g :| g in t.groups && t.groups[g].name == name && g !in t.passwd {
      assert g in t'.groups && t'.groups[g].name == name && g !in t'.passwd;
    }
    if g :| g in t'.groups && t'.groups[g].name == name && g !in t'.passwd {
      assert g in t.groups && t.groups[g].name == name && g !in t.passwd;
    }
  }

  /** Leftovers come from the Rust purge alone and go with the files alone. */
  lemma LeftoverStep(w: World, e: Event, name: string)
    requires Weak(w.tables)
    ensures Leftover(Step(w, e).tables, name) <==>
      !Discards(e) && (Leftover(w.tables, name) || RemovedByRust(w, e, name))
  {
    match e
    case OnlineLogin(l) => LoginLeftover(w.tables, l, name);
    case GoOpen(mode, days, at) => PurgedLeftover(w.tables, GoThreshold(at, days), name);
    case RustOpen(mode, at) => PurgedLeftover(w.tables, NssThreshold(at), name);
    case SetAttribute(login, attr, value) =>
      assert AttributeSet(w.tables, login, attr, value).passwd.Keys == w.tables.passwd.Keys;
    case Reopen(_, _, _) =>
  }

  /** At its i-th event the run lost this user to the NSS module, and the files were kept ever since. */
  ghost predicate LostAt(events: seq<Event>, i: int, name: string) {
    && 0 <= i < |events| && RemovedByRust(Run(FRESH, events[..i]), events[i], name)
    && forall j :: i < j < |events| ==> !Discards(events[j])
  }

  lemma LostExtends(before: seq<Event>, e: Event, name: string)
    ensures (exists i :: LostAt(before + [e], i, name)) <==>
      !Discards(e) && ((exists i :: LostAt(before, i, name)) || RemovedByRust(Run(FRESH, before), e, name))
  {
    var events, n := before + [e], |before|;
    assert events[..n] == before;
    assert LostAt(events, n, name) <==> RemovedByRust(Run(FRESH, before), e, name);
    forall i | 0 <= i < n ensures LostAt(events, i, name) <==> LostAt(before, i, name) && !Discards(e) {
      assert before[..i] == events[..i] && before[i] == events[i];
      assert forall j :: i < j < n ==> events[j] == before[j];
      assert events[n] == e;
    }
  }

  lemma {:induction false} LeftoverIff(events: seq<Event>, name: string)
    ensures Leftover(Run(FRESH, events).tables, name) <==> exists i :: LostAt(events, i, name)
  {
    if events != [] {
      var n := |events| - 1;
      assert events == events[..n] + [events[n]];
      LeftoverIff(events[..n], name);
      MixedRunInvariant(FRESH, events[..n]);
      LeftoverStep(Run(FRESH, events[..n]), events[n], name);
      LostExtends(events[..n], events[n], name);
    }
  }

  /**
   The lock-out, exactly. After every mixed run a login is recorded if and only if shadow is writable,
   the login is not cut short, and the user is known, or was not lost to the NSS module since the files
   were created, an id is free and the pattern expands.
   */
  lemma LoginAfterRunIff(events: seq<Event>, l: Login)
    ensures var t := Run(FRESH, events).tables;
      Update(t, l).1 == Ok(()) <==>
        && l.mode == READ_WRITE && !l.interrupted
        && (LoginTaken(t, l.name) ||
            ((forall i :: !LostAt(events, i, l.name)) && Uids.HasFreeId(t) && SoundPattern(l.pattern, l.name)))
  {
    MixedRunInvariant(FRESH, events);
    LeftoverIff(events, l.name);
    LoginIff(Run(FRESH, events).tables, l);
  }

  // ------------------------------------------------------------- queries in reachable states

  /** After every mixed run, purging with Go or with Rust answers every later query alike. */
  lemma ReachablePurgesAnswerAlike(events: seq<Event>, threshold: int)
    ensures var t := Run(FRESH, events).tables;
      Q.SameAnswers(GoPurged(t, threshold), RustPurged(t, threshold))
  {
    MixedRunInvariant(FRESH, events);
    Q.PurgesAnswerAlike(Run(FRESH, events).tables, threshold);
  }

  /** After every mixed run, a user without comma is the only member of the group of its name, however asked. */
  lemma ReachableGroups(events: seq<Event>, u: int)
    requires u in Run(FRESH, events).tables.passwd
    ensures var t := Run(FRESH, events).tables;
      var login := t.passwd[u].login;
      && u in t.groups
      && var record := Q.GroupRecord(login, t.groups[u].password, u, Q.RecordOf(t, u).members);
         && Q.GroupByGid(t, u) == Q.GroupByName(t, login) == [record] && record in Q.AllGroups(t)
         && (record.members == [login] <==> ',' !in login)
  {
    var t := Run(FRESH, events).tables;
    MixedRunInvariant(FRESH, events);
    Q.GroupAnswers(t, u);
    Q.SingleMemberIff(t, u);
  }
}
