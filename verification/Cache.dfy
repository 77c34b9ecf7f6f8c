/** The user-level operations of a cache on the committed tables: offline check and online update. */
module Cache {
  import opened Basics
  import opened Tables
  import Durations
  import HomeDir
  import Uids

  datatype CacheError =
    | NoEnt
    | UidError(probe: Uids.ProbeError)
    | HomeError(home: HomeDir.HomeError)
    | ConstraintViolated
    | ShadowNotReadable
    | ShadowNotWritable
    | Interrupted
    | OfflineAuthDisabled
    | CredentialsExpired
    | PasswordMismatch

  /** passwd rows with this login, joined with shadow when shadow is attached. */
  function Holders(t: Tables, mode: int, login: string): set<int> {
    set u | u in t.passwd && t.passwd[u].login == login && (mode > NOT_AVAILABLE ==> u in t.shadow)
  }

  /** GetUserByName, down to the uid of the first row. */
  ghost function FindUser(t: Tables, mode: int, login: string): (r: Option<int>)
    ensures r.Some? ==> r.value in Holders(t, mode, login)
    ensures r.None? ==> forall u :: u !in Holders(t, mode, login)
  {
    if u :| u in Holders(t, mode, login) then Some(u) else None
  }

  /** In reachable states the lookup is by login alone and has at most one answer. */
  lemma FindUserIff(t: Tables, mode: int, login: string, u: int)
    requires Weak(t)
    ensures FindUser(t, mode, login) == Some(u) <==> u in t.passwd && t.passwd[u].login == login
    ensures FindUser(t, mode, login) == None <==> !LoginTaken(t, login)
  {
    if u in t.passwd && t.passwd[u].login == login {
      assert u in Holders(t, mode, login);
    }
    if LoginTaken(t, login) {
      var v :| v in t.passwd && t.passwd[v].login == login;
      assert v in Holders(t, mode, login);
    }
  }

  /** CanAuthenticate at instant `now`, for a cache opened with this shadow mode and these days. */
  ghost function CanAuthenticate(t: Tables, mode: int, days: int, name: string, password: string, now: int)
    : Result<(), CacheError>
  {
    if mode < READ_ONLY then Err(ShadowNotReadable)
    else if days < 0 then Err(OfflineAuthDisabled)
    else
      match FindUser(t, mode, name)
      case None => Err(NoEnt)
      case Some(u) =>
        if days > 0 && now > t.passwd[u].lastOnlineAuth * Durations.SECOND + Durations.ExpiryNanos(days) then
          Err(CredentialsExpired)
        else if t.shadow[u] != Of(password) then Err(PasswordMismatch)
        else Ok(())
  }

  /** One online login; `interrupted` stops it between its two transactions. */
  datatype Login = Login(mode: int, name: string, password: string, pattern: string, shell: string,
                         at: int, interrupted: bool)

  /** The row of a new user, or the error that keeps it from being created. */
  function Candidate(t: Tables, l: Login): Result<NewUser, CacheError> {
    match Uids.GenerateUid(t, l.name)
    case Err(e) => Err(UidError(e))
    case Ok(id) =>
      match HomeDir.Expand(l.pattern, l.name, Decimal(id))
      case Err(e) => Err(HomeError(e))
      case Ok(home) => Ok(NewUser(l.name, id, id, home, l.shell))
  }

  /** fmt.Sprintf("%d", n). */
  function Decimal(n: nat): string {
    var digit := [(n % 10 + '0' as int) as char];
    if n < 10 then digit else Decimal(n / 10) + digit
  }

  function DecimalValue(s: string): int {
    if s == "" then 0 else 10 * DecimalValue(s[..|s| - 1]) + (s[|s| - 1] as int - '0' as int)
  }

  /** The digits denote the number, without a leading zero, so there is one text for each id. */
  lemma {:induction false} DecimalRoundTrip(n: nat)
    ensures DecimalValue(Decimal(n)) == n
    ensures forall i :: 0 <= i < |Decimal(n)| ==> '0' <= Decimal(n)[i] <= '9'
    ensures Decimal(n) != "" && (n > 0 ==> Decimal(n)[0] != '0') && (n == 0 ==> Decimal(n) == "0")
  {
    var s := Decimal(n);
    if n >= 10 {
      DecimalRoundTrip(n / 10);
      assert s[..|s| - 1] == Decimal(n / 10);
    } else {
      assert s[..0] == "";
    }
  }

  /** The first transaction of a login, when the user is not in the cache. */
  function Create(t: Tables, l: Login): Result<(Tables, int), CacheError> {
    match Candidate(t, l)
    case Err(e) => Err(e)
    case Ok(n) =>
      if l.mode != READ_WRITE then Err(ShadowNotWritable)
      else if Conflict(t, n) then Err(ConstraintViolated)
      else Ok((Inserted(t, n), n.uid))
  }

  /** The second transaction of a login. */
  function Refresh(t: Tables, l: Login, uid: int): (Tables, Result<(), CacheError>) {
    if l.interrupted then (t, Err(Interrupted))
    else if l.mode != READ_WRITE then (t, Err(ShadowNotWritable))
    else (Refreshed(t, uid, Durations.UnixSeconds(l.at), Of(l.password)), Ok(()))
  }

  /** Update: both transactions. */
  ghost function Update(t: Tables, l: Login): (Tables, Result<(), CacheError>) {
    match FindUser(t, l.mode, l.name)
    case Some(uid) => Refresh(t, l, uid)
    case None =>
      match Create(t, l)
      case Err(e) => (t, Err(e))
      case Ok((t', uid)) => Refresh(t', l, uid)
  }

  lemma RecordedIsComplete(t: Tables, l: Login)
    ensures Update(t, l).1.Ok? ==> l.mode == READ_WRITE && !l.interrupted
  {
  }

  /** A generated id is a uint32 and belongs to nobody. */
  lemma CandidateIsFree(t: Tables, l: Login)
    requires Candidate(t, l).Ok?
    ensures var n := Candidate(t, l).value;
      n.name == l.name && n.uid == n.gid && 0 <= n.uid < MAX_IDS && n.uid !in Uids.Taken(t)
  {
    var n := Uids.ProbeWitness(t, l.name, Uids.Start(l.name), 0);
  }

  lemma UpdateInvariant(t: Tables, l: Login)
    requires Weak(t)
    ensures Weak(Update(t, l).0)
    ensures Strong(t) ==> Strong(Update(t, l).0)
  {
    var base, uid := t, 0;
    match FindUser(t, l.mode, l.name) {
      case Some(u) => uid := u;
      case None =>
        if Create(t, l).Ok? {
          CandidateIsFree(t, l);
          InsertedInvariant(t, Candidate(t, l).value);
          base, uid := Create(t, l).value.0, Create(t, l).value.1;
        }
    }
    RefreshedInvariant(base, uid, Durations.UnixSeconds(l.at), Of(l.password));
  }

  /** A group with this name is left whose user is gone. */
  predicate Leftover(t: Tables, name: string) {
    exists g :: g in t.groups && t.groups[g].name == name && g !in t.passwd
  }

  /** The name of a leftover group can neither be found nor created again. */
  lemma LeftoverBlocksLogin(t: Tables, l: Login)
    requires Weak(t) && Leftover(t, l.name)
    ensures Update(t, l).0 == t && Update(t, l).1.Err?
    ensures !LoginTaken(t, l.name)
  {
  }

  /** The expansion of the pattern cannot fail for this name. */
  ghost predicate SoundPattern(pattern: string, name: string) {
    forall i :: !HomeDir.BadAt(pattern, i, name)
  }

  lemma GroupNameIff(t: Tables, name: string)
    requires Weak(t)
    ensures GroupNameTaken(t, name) <==> LoginTaken(t, name) || Leftover(t, name)
  {
    if g :| g in t.groups && t.groups[g].name == name {
      assert g in t.passwd ==> t.passwd[g].login == name;
    }
    if u :| u in t.passwd && t.passwd[u].login == name {
      assert t.groups[u].name == name;
    }
  }

  /** When a first login can create its user. */
  lemma CreateIff(t: Tables, l: Login)
    requires Weak(t) && !LoginTaken(t, l.name)
    ensures Create(t, l).Ok? <==>
      l.mode == READ_WRITE && !Leftover(t, l.name) && Uids.HasFreeId(t) && SoundPattern(l.pattern, l.name)
  {
    GroupNameIff(t, l.name);
    if Candidate(t, l).Ok? {
      CandidateIsFree(t, l);
      assert Uids.HasFreeId(t);
      HomeDir.FailsIff(l.pattern, l.name, Decimal(Candidate(t, l).value.uid));
    }
    if Uids.HasFreeId(t) && !Leftover(t, l.name) {
      Uids.UnknownNameGetsUid(t, l.name);
      HomeDir.FailsIff(l.pattern, l.name, Decimal(Uids.GenerateUid(t, l.name).value));
    }
  }

  /**
   When an online login is recorded, exactly, in every state of a mixed run: shadow is writable, the
   login is not cut short, and the user is known, or nothing keeps it from being created: no leftover
   group of that name, a free id and a pattern that expands.
   */
  lemma LoginIff(t: Tables, l: Login)
    requires Weak(t)
    ensures Update(t, l).1 == Ok(()) <==>
      && l.mode == 2 && !l.interrupted
      && (LoginTaken(t, l.name) ||
          (!Leftover(t, l.name) && Uids.HasFreeId(t) && SoundPattern(l.pattern, l.name)))
  {
    FindUserIff(t, l.mode, l.name, 0);
    if !LoginTaken(t, l.name) {
      CreateIff(t, l);
    }
  }

  /** Where a login stops: between its transactions before the mode is looked at again. */
  lemma LoginErrors(t: Tables, l: Login)
    requires Weak(t)
    ensures LoginTaken(t, l.name) ==>
      && (Update(t, l).1 == Err(Interrupted) <==> l.interrupted)
      && (Update(t, l).1 == Err(ShadowNotWritable) <==> !l.interrupted && l.mode != 2)
    ensures !LoginTaken(t, l.name) ==>
      (Update(t, l).1 == Err(Interrupted) <==>
        l.interrupted && l.mode == 2 && !Leftover(t, l.name) && Uids.HasFreeId(t) && SoundPattern(l.pattern, l.name))
  {
    FindUserIff(t, l.mode, l.name, 0);
    if !LoginTaken(t, l.name) {
      CreateIff(t, l);
    }
  }

  /** The row and the hash a recorded login leaves. */
  lemma LoginRow(t: Tables, l: Login) returns (u: int)
    requires Weak(t) && Update(t, l).1 == Ok(())
    ensures var t' := Update(t, l).0;
      && u in t'.passwd && u in t'.shadow && t'.passwd[u].login == l.name
      && t'.passwd[u].lastOnlineAuth == Durations.UnixSeconds(l.at) && t'.shadow[u] == Of(l.password)
  {
    FindUserIff(t, l.mode, l.name, 0);
    match FindUser(t, l.mode, l.name)
    case Some(uid) => u := uid;
    case None =>
      CandidateIsFree(t, l);
      u := Create(t, l).value.1;
  }

  lemma RowVerdict(t: Tables, u: int, mode: int, days: int, name: string, password: string, now: int)
    requires Weak(t) && mode >= READ_ONLY && u in t.passwd && t.passwd[u].login == name && t.shadow[u] == Of(password)
    ensures CanAuthenticate(t, mode, days, name, password, now) == Ok(()) <==>
      Durations.Unexpired(now, t.passwd[u].lastOnlineAuth, days)
  {
    FindUserIff(t, mode, name, u);
  }

  /** After a recorded login, exactly when its password is accepted offline, for all days and instants. */
  lemma LoginVerdictIff(t: Tables, l: Login, mode: int, days: int, now: int)
    requires Weak(t) && Update(t, l).1 == Ok(()) && mode >= READ_ONLY
    ensures CanAuthenticate(Update(t, l).0, mode, days, l.name, l.password, now) == Ok(()) <==>
      Durations.Unexpired(now, Durations.UnixSeconds(l.at), days)
  {
    var u := LoginRow(t, l);
    UpdateInvariant(t, l);
    RowVerdict(Update(t, l).0, u, mode, days, l.name, l.password, now);
  }

  /** In particular at its own instant, for all days that are not negative and fit. */
  lemma LoginSucceeds(t: Tables, l: Login, mode: int, days: int)
    requires Weak(t) && Update(t, l).1 == Ok(())
    requires mode >= READ_ONLY && 0 <= days <= Durations.MAX_DAYS
    ensures CanAuthenticate(Update(t, l).0, mode, days, l.name, l.password, l.at) == Ok(())
  {
    LoginVerdictIff(t, l, mode, days, l.at);
    Durations.JustRefreshed(l.at, days);
  }

  /** But never, not even at its own instant, from 106752 to 213503 days: the offline period has wrapped. */
  lemma LoginRefused(t: Tables, l: Login, mode: int, days: int, now: int)
    requires Weak(t) && Update(t, l).1 == Ok(())
    requires mode >= READ_ONLY && Durations.MAX_DAYS < days <= 2 * Durations.MAX_DAYS + 1 && l.at <= now
    ensures CanAuthenticate(Update(t, l).0, mode, days, l.name, l.password, now) == Err(CredentialsExpired)
  {
    var u := LoginRow(t, l);
    UpdateInvariant(t, l);
    FindUserIff(Update(t, l).0, mode, l.name, u);
    Durations.ExpiryWrapsNegative(days, now, Durations.UnixSeconds(l.at));
  }

  /** The user's row is at or after the threshold. */
  predicate SeenSince(t: Tables, name: string, threshold: int) {
    exists u :: u in t.passwd && t.passwd[u].login == name && t.passwd[u].lastOnlineAuth >= threshold
  }

  /** Either purge changes the offline verdict for the users it removes and for nobody else. */
  lemma PurgedVerdict(t: Tables, t': Tables, threshold: int, mode: int, days: int, name: string, password: string, now: int)
    requires Weak(t) && Weak(t')
    requires t'.passwd == t.passwd - Stale(t, threshold) && t'.shadow == t.shadow - Stale(t, threshold)
    ensures CanAuthenticate(t', mode, days, name, password, now) == Ok(()) <==>
      CanAuthenticate(t, mode, days, name, password, now) == Ok(()) && SeenSince(t, name, threshold)
  {
    FindUserIff(t, mode, name, 0);
    FindUserIff(t', mode, name, 0);
    if u :| u in t.passwd && t.passwd[u].login == name {
      FindUserIff(t, mode, name, u);
      FindUserIff(t', mode, name, u);
      forall v | v in t.passwd && t.passwd[v].login == name ensures v == u {
        UniqueLogins(t, u, v);
      }
    }
  }

  /** The row, hash and group of a user just created, in the columns of the schema. */
  predicate CreatedAs(t: Tables, u: int, name: string, home: string, shell: string, seconds: int, hash: Hash) {
    && u in t.passwd && t.passwd[u] == PasswdRow(name, "x", u, "", home, shell, seconds)
    && u in t.shadow && t.shadow[u] == hash
    && u in t.groups && t.groups[u] == GroupRow(name, "x") && (u, u) in t.uidGid
  }

  /** What a completed login leaves: a new user's rows as configured, a known user's profile untouched. */
  lemma LoginProfile(t: Tables, l: Login) returns (u: int)
    requires Weak(t) && Update(t, l).1 == Ok(())
    ensures var t' := Update(t, l).0;
      if LoginTaken(t, l.name)
      then && u in t.passwd && t.passwd[u].login == l.name && u in t'.passwd && u in t'.shadow
           && t'.passwd[u] == t.passwd[u].(lastOnlineAuth := Durations.UnixSeconds(l.at))
           && t'.shadow[u] == Of(l.password) && t'.groups == t.groups && t'.uidGid == t.uidGid
      else && u !in Uids.Taken(t) && 0 <= u < MAX_IDS && HomeDir.Expand(l.pattern, l.name, Decimal(u)).Ok?
           && CreatedAs(t', u, l.name, HomeDir.Expand(l.pattern, l.name, Decimal(u)).value, l.shell,
                        Durations.UnixSeconds(l.at), Of(l.password))
  {
    FindUserIff(t, l.mode, l.name, 0);
    match FindUser(t, l.mode, l.name)
    case Some(v) =>
      FindUserIff(t, l.mode, l.name, v);
      u := v;
    case None =>
      CandidateIsFree(t, l);
      u := Create(t, l).value.1;
  }

  /** What a first login leaves that stops between its transactions: the year 1 and no hash. */
  lemma HalfCreatedRow(t: Tables, l: Login) returns (u: int)
    requires Weak(t) && !LoginTaken(t, l.name) && Update(t, l).1 == Err(Interrupted)
    ensures var t' := Update(t, l).0;
      && u !in Uids.Taken(t) && 0 <= u < MAX_IDS && HomeDir.Expand(l.pattern, l.name, Decimal(u)).Ok?
      && CreatedAs(t', u, l.name, HomeDir.Expand(l.pattern, l.name, Decimal(u)).value, l.shell, -62135596800, Empty)
  {
    FindUserIff(t, l.mode, l.name, 0);
    CandidateIsFree(t, l);
    u := Create(t, l).value.1;
  }

  /** A login touches no other user. */
  lemma LoginKeepsOthers(t: Tables, l: Login, u: int)
    requires Weak(t) && u in t.passwd && t.passwd[u].login != l.name
    ensures u in Update(t, l).0.passwd && Update(t, l).0.passwd[u] == t.passwd[u]
    ensures u in Update(t, l).0.shadow && Update(t, l).0.shadow[u] == t.shadow[u]
  {
  }

  /** Row u is the user's and its last online login is too old. */
  predicate Expired(t: Tables, u: int, name: string, now: int, days: int) {
    u in t.passwd && t.passwd[u].login == name && !Durations.Unexpired(now, t.passwd[u].lastOnlineAuth, days)
  }

  /** Row u is the user's, recent enough, and carries another hash. */
  predicate Mismatches(t: Tables, u: int, name: string, password: string, now: int, days: int) {
    && u in t.passwd && u in t.shadow && t.passwd[u].login == name
    && Durations.Unexpired(now, t.passwd[u].lastOnlineAuth, days) && t.shadow[u] != Of(password)
  }

  /** Every refusal and when it is reported: the access mode first, the expiry before the password. */
  lemma RefusalIff(t: Tables, mode: int, days: int, name: string, password: string, now: int)
    requires Weak(t)
    ensures var r := CanAuthenticate(t, mode, days, name, password, now);
      && (r == Err(ShadowNotReadable) <==> mode < 1)
      && (r == Err(OfflineAuthDisabled) <==> mode >= 1 && days < 0)
      && (r == Err(NoEnt) <==> mode >= 1 && days >= 0 && !LoginTaken(t, name))
      && (r == Err(CredentialsExpired) <==> mode >= 1 && days >= 0 && exists u :: Expired(t, u, name, now, days))
      && (r == Err(PasswordMismatch) <==>
            mode >= 1 && days >= 0 && exists u :: Mismatches(t, u, name, password, now, days))
      && (r.Err? ==> r.error in {ShadowNotReadable, OfflineAuthDisabled, NoEnt, CredentialsExpired, PasswordMismatch})
  {
    FindUserIff(t, mode, name, 0);
    if LoginTaken(t, name) {
      var u :| u in t.passwd && t.passwd[u].login == name;
      FindUserIff(t, mode, name, u);
      assert Expired(t, u, name, now, days) <==> !Durations.Unexpired(now, t.passwd[u].lastOnlineAuth, days);
      assert Mismatches(t, u, name, password, now, days) <==>
        Durations.Unexpired(now, t.passwd[u].lastOnlineAuth, days) && t.shadow[u] != Of(password);
    }
  }
}
