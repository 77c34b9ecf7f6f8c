/**
 The database object: each transaction changes the tables statement by statement and is rolled
 back when a statement fails. Every method is tied to the committed effect defined on values.
 */
module Database {
  import opened Basics
  import opened Tables
  import opened Durations
  import C = Cache
  import HomeDir
  import Uids
  import Q = Queries

  datatype InitError = NotRoot
  datatype AttributeError = InvalidAttribute | UnknownUser

  function ParseAttribute(attr: string): Option<Attribute> {
    if attr == "gecos" then Some(Gecos)
    else if attr == "home" then Some(Home)
    else if attr == "shell" then Some(Shell)
    else None
  }

  class Database {
    var passwd: map<int, PasswdRow>
    var groups: map<int, GroupRow>
    var uidGid: set<(int, int)>
    var shadow: map<int, Hash>

    ghost function View(): Tables
      reads this
    {
      Tables(passwd, groups, uidGid, shadow)
    }

    constructor ()
      ensures View() == EMPTY
    {
      passwd, groups, uidGid, shadow := map[], map[], {}, map[];
    }

    /** tx.Rollback to the tables at the beginning of the transaction. */
    method Rollback(before: Tables)
      modifies this
      ensures View() == before
    {
      passwd, groups, uidGid, shadow := before.passwd, before.groups, before.uidGid, before.shadow;
    }

    /** The create-or-discard part of initDB. */
    method InitDB(passwdFile: bool, shadowFile: bool, root: bool) returns (r: Result<(), InitError>)
      modifies this
      ensures passwdFile && shadowFile ==> r.Ok? && View() == old(View())
      ensures !(passwdFile && shadowFile) && root ==> r.Ok? && View() == EMPTY
      ensures !(passwdFile && shadowFile) && !root ==> r == Err(NotRoot) && View() == old(View())
    {
      var needsCreate := false;
      if !passwdFile { needsCreate := true; }
      if !shadowFile { needsCreate := true; }
      if needsCreate {
        if !root {
          return Err(NotRoot);
        }
        passwd, groups, uidGid := map[], map[], {};
        shadow := map[];
      }
      return Ok(());
    }

    /** insertUser: four inserts under one transaction. */
    method InsertUser(mode: int, n: NewUser) returns (r: Result<(), C.CacheError>)
      modifies this
      ensures mode != READ_WRITE ==> r == Err(C.ShadowNotWritable) && View() == old(View())
      ensures mode == READ_WRITE ==>
        && View() == Inserted(old(View()), n)
        && r == if Conflict(old(View()), n) then Err(C.ConstraintViolated) else Ok(())
      ensures r.Ok? ==>
        && passwd == old(passwd)[n.uid := PasswdRow(n.name, "x", n.gid, "", n.home, n.shell, -62135596800)]
        && groups == old(groups)[n.gid := GroupRow(n.name, "x")] && uidGid == old(uidGid) + {(n.uid, n.gid)}
        && shadow == old(shadow)[n.uid := Empty]
    {
      if mode != READ_WRITE {
        return Err(C.ShadowNotWritable);
      }
      var before := Tables(passwd, groups, uidGid, shadow);
      if n.uid in passwd || LoginTaken(before, n.name) {
        return Err(C.ConstraintViolated);
      }
      passwd := passwd[n.uid := FreshRow(n)];
      if n.uid in shadow {
        Rollback(before);
        return Err(C.ConstraintViolated);
      }
      shadow := shadow[n.uid := Empty];
      if n.gid in groups || GroupNameTaken(before, n.name) {
        Rollback(before);
        return Err(C.ConstraintViolated);
      }
      groups := groups[n.gid := GroupRow(n.name, "x")];
      if (n.uid, n.gid) in uidGid {
        Rollback(before);
        return Err(C.ConstraintViolated);
      }
      uidGid := uidGid + {(n.uid, n.gid)};
      return Ok(());
    }

    /** updateOnlineAuthAndPassword. */
    method UpdateOnlineAuthAndPassword(mode: int, uid: int, hash: Hash, now: int)
      returns (r: Result<(), C.CacheError>)
      modifies this
      ensures mode != READ_WRITE ==> r == Err(C.ShadowNotWritable) && View() == old(View())
      ensures mode == READ_WRITE ==> r == Ok(()) && View() == Refreshed(old(View()), uid, UnixSeconds(now), hash)
    {
      if mode != READ_WRITE {
        return Err(C.ShadowNotWritable);
      }
      if uid in passwd {
        passwd := passwd[uid := passwd[uid].(lastOnlineAuth := UnixSeconds(now))];
      }
      if uid in shadow {
        shadow := shadow[uid := hash];
      }
      return Ok(());
    }

    /** cleanUpDB: shadow, pivot, passwd, then the groups nobody is in. */
    method CleanUpDB(now: int, maxCacheEntryDuration: int)
      modifies this
      ensures View() == GoPurged(old(View()), UnixSeconds(now + Int64(-maxCacheEntryDuration)))
    {
      var threshold := UnixSeconds(now + Int64(-maxCacheEntryDuration));
      shadow := shadow - set u | u in passwd && passwd[u].lastOnlineAuth < threshold;
      uidGid := set p | p in uidGid && !(p.0 in passwd && passwd[p.0].lastOnlineAuth < threshold);
      passwd := map u | u in passwd && passwd[u].lastOnlineAuth >= threshold :: passwd[u];
      groups := NonEmptyGroups(groups, uidGid);
      ghost var purged := GoPurged(old(View()), threshold);
      assert uidGid == purged.uidGid;
      assert passwd == purged.passwd;
    }

    /** cleanup_expired_entries of the NSS module: the pivot table is not touched. */
    method CleanupExpiredEntries(now: int)
      modifies this
      ensures View() == RustPurged(old(View()), NssThreshold(now))
    {
      var threshold := NssThreshold(now);
      shadow := shadow - set u | u in passwd && passwd[u].lastOnlineAuth < threshold;
      passwd := map u | u in passwd && passwd[u].lastOnlineAuth >= threshold :: passwd[u];
      groups := NonEmptyGroups(groups, uidGid);
      assert passwd == RustPurged(old(View()), threshold).passwd;
    }

    /** UpdateUserAttribute. */
    method UpdateUserAttribute(login: string, attr: string, value: string) returns (r: Result<(), AttributeError>)
      modifies this
      ensures r == Err(InvalidAttribute) <==> attr !in {"gecos", "home", "shell"}
      ensures r == Err(UnknownUser) <==> attr in {"gecos", "home", "shell"} && !LoginTaken(old(View()), login)
      ensures r.Err? ==> View() == old(View())
      ensures r.Ok? ==>
        && groups == old(groups) && uidGid == old(uidGid) && shadow == old(shadow) && passwd.Keys == old(passwd).Keys
        && forall u :: u in passwd ==>
             passwd[u] == if old(passwd)[u].login != login then old(passwd)[u]
                          else if attr == "gecos" then old(passwd)[u].(gecos := value)
                          else if attr == "home" then old(passwd)[u].(home := value)
                          else old(passwd)[u].(shell := value)
      ensures r.Ok? ==> ParseAttribute(attr).Some?
      ensures r.Ok? ==> View() == AttributeSet(old(View()), login, ParseAttribute(attr).value, value)
    {
      var parsed := ParseAttribute(attr);
      if parsed.None? {
        return Err(InvalidAttribute);
      }
      if !LoginTaken(Tables(passwd, groups, uidGid, shadow), login) {
        return Err(UnknownUser);
      }
      passwd := map v | v in passwd ::
        if passwd[v].login == login then WithAttribute(passwd[v], parsed.value, value) else passwd[v];
      return Ok(());
    }

    /** GetUserByName, down to the uid. */
    method GetUserByName(mode: int, login: string) returns (r: Option<int>)
      requires Weak(View())
      ensures r == C.FindUser(View(), mode, login)
      ensures r == None <==> !LoginTaken(View(), login)
    {
      ghost var t := View();
      C.FindUserIff(t, mode, login, 0);
      if u :| u in passwd && passwd[u].login == login && (mode > NOT_AVAILABLE ==> u in shadow) {
        C.FindUserIff(t, mode, login, u);
        return Some(u);
      }
      assert forall u :: u !in C.Holders(t, mode, login);
      return None;
    }

    /** SELECT ... FROM passwd ORDER BY login. */
    method ListPasswd() returns (rows: seq<Q.PasswdEntry>)
      requires Weak(View())
      ensures rows == Q.AllPasswd(View())
    {
      rows := Q.OrderByLogin(Tables(passwd, groups, uidGid, shadow));
    }

    /** CanAuthenticate. */
    method CanAuthenticate(mode: int, days: int, name: string, password: string, now: int)
      returns (r: Result<(), C.CacheError>)
      requires Weak(View())
      ensures r == C.CanAuthenticate(View(), mode, days, name, password, now)
    {
      if mode < READ_ONLY {
        return Err(C.ShadowNotReadable);
      }
      if days < 0 {
        return Err(C.OfflineAuthDisabled);
      }
      var user := GetUserByName(mode, name);
      if user.None? {
        return Err(C.NoEnt);
      }
      if days > 0 && now > passwd[user.value].lastOnlineAuth * SECOND + ExpiryNanos(days) {
        return Err(C.CredentialsExpired);
      }
      if shadow[user.value] != Of(password) {
        return Err(C.PasswordMismatch);
      }
      return Ok(());
    }

    /** Update: look the user up or create it, then refresh it. */
    method Update(l: C.Login) returns (r: Result<(), C.CacheError>)
      requires Weak(View()) && Uids.CanStop(View(), l.name)
      modifies this
      ensures (View(), r) == C.Update(old(View()), l)
      ensures Weak(View())
    {
      C.UpdateInvariant(View(), l);
      var user := GetUserByName(l.mode, l.name);
      var uid := 0;
      if user.None? {
        var generated := Uids.Generate(Tables(passwd, groups, uidGid, shadow), l.name);
        if generated.Err? {
          return Err(C.UidError(generated.error));
        }
        uid := generated.value;
        var home := HomeDir.ParseHomeDir(l.pattern, l.name, C.Decimal(uid));
        if home.Err? {
          return Err(C.HomeError(home.error));
        }
        var inserted := InsertUser(l.mode, NewUser(l.name, uid, uid, home.value, l.shell));
        if inserted.Err? {
          return inserted;
        }
      } else {
        uid := user.value;
      }
      if l.interrupted {
        return Err(C.Interrupted);
      }
      r := UpdateOnlineAuthAndPassword(l.mode, uid, Of(l.password), l.at);
    }
  }
}
