/**
 The four tables shared by the Go and the Rust implementation, the committed
 effect of every transaction on them, and the two table invariants: the strong
 one that Go alone keeps, and the weak one that survives mixed use.
 */
module Tables {
  /** An ideal password hash: the empty string of a half-created user, or the hash of a password. */
  datatype Hash = Empty | Of(password: string)

  /** A row of passwd; the primary key uid is the key of the map. */
  datatype PasswdRow = PasswdRow(login: string, password: string, gid: int, gecos: string,
                                 home: string, shell: string, lastOnlineAuth: int)

  /** A row of groups; the primary key gid is the key of the map. */
  datatype GroupRow = GroupRow(name: string, password: string)

  datatype Tables = Tables(passwd: map<int, PasswdRow>, groups: map<int, GroupRow>,
                           uidGid: set<(int, int)>, shadow: map<int, Hash>)

  /** What insertUser is given; the time and the hash are the zero values of the record. */
  datatype NewUser = NewUser(name: string, uid: int, gid: int, home: string, shell: string)

  const EMPTY: Tables := Tables(map[], map[], {}, map[])

  /** Unix seconds of Go's zero time, stored for a user that never finished an online login. */
  const ZERO_TIME: int := -62135596800

  const MAX_IDS: int := 0x1_0000_0000

  predicate LoginTaken(t: Tables, login: string) {
    exists u :: u in t.passwd && t.passwd[u].login == login
  }

  predicate GroupNameTaken(t: Tables, name: string) {
    exists g :: g in t.groups && t.groups[g].name == name
  }

  /** Some UNIQUE or PRIMARY KEY constraint rejects one of the four inserts. */
  predicate Conflict(t: Tables, n: NewUser) {
    || n.uid in t.passwd || LoginTaken(t, n.name)
    || n.uid in t.shadow
    || n.gid in t.groups || GroupNameTaken(t, n.name)
    || (n.uid, n.gid) in t.uidGid
  }

  function FreshRow(n: NewUser): PasswdRow {
    PasswdRow(n.name, "x", n.gid, "", n.home, n.shell, ZERO_TIME)
  }

  /** insertUser, all or nothing. */
  function Inserted(t: Tables, n: NewUser): Tables {
    if Conflict(t, n) then t
    else Tables(t.passwd[n.uid := FreshRow(n)], t.groups[n.gid := GroupRow(n.name, "x")],
                t.uidGid + {(n.uid, n.gid)}, t.shadow[n.uid := Empty])
  }

  /** updateOnlineAuthAndPassword. */
  function Refreshed(t: Tables, uid: int, seconds: int, hash: Hash): Tables {
    t.(passwd := if uid in t.passwd then t.passwd[uid := t.passwd[uid].(lastOnlineAuth := seconds)] else t.passwd,
       shadow := if uid in t.shadow then t.shadow[uid := hash] else t.shadow)
  }

  /** SELECT uid FROM passwd WHERE last_online_auth < threshold. */
  function Stale(t: Tables, threshold: int): set<int> {
    set u | u in t.passwd && t.passwd[u].lastOnlineAuth < threshold
  }

  /** DELETE FROM groups WHERE gid NOT IN (SELECT DISTINCT gid FROM uid_gid). */
  function NonEmptyGroups(groups: map<int, GroupRow>, uidGid: set<(int, int)>): map<int, GroupRow> {
    map g | g in groups && (exists p :: p in uidGid && p.1 == g) :: groups[g]
  }

  /** cleanUpDB. */
  function GoPurged(t: Tables, threshold: int): Tables {
    var stale := Stale(t, threshold);
    var pivot := set p | p in t.uidGid && p.0 !in stale;
    Tables(t.passwd - stale, NonEmptyGroups(t.groups, pivot), pivot, t.shadow - stale)
  }

  /** cleanup_expired_entries: the pivot table is left alone. */
  function RustPurged(t: Tables, threshold: int): Tables {
    var stale := Stale(t, threshold);
    Tables(t.passwd - stale, NonEmptyGroups(t.groups, t.uidGid), t.uidGid, t.shadow - stale)
  }

  datatype Attribute = Gecos | Home | Shell

  function WithAttribute(row: PasswdRow, attr: Attribute, value: string): PasswdRow {
    match attr
    case Gecos => row.(gecos := value)
    case Home => row.(home := value)
    case Shell => row.(shell := value)
  }

  /** UPDATE passwd SET attr = value WHERE login = login. */
  function AttributeSet(t: Tables, login: string, attr: Attribute, value: string): Tables {
    t.(passwd := map u | u in t.passwd ::
      if t.passwd[u].login == login then WithAttribute(t.passwd[u], attr, value) else t.passwd[u])
  }

  // ---------------------------------------------------------------- invariants

  /** passwd and shadow describe the same users. */
  predicate SameUsers(t: Tables) {
    t.passwd.Keys == t.shadow.Keys
  }

  /** The pivot table is diagonal and names exactly the groups. */
  predicate Diagonal(t: Tables) {
    && (forall p :: p in t.uidGid ==> p.0 == p.1 && p.0 in t.groups)
    && (forall g :: g in t.groups ==> (g, g) in t.uidGid)
  }

  predicate UniqueNames(t: Tables) {
    forall g, h :: g in t.groups && h in t.groups && t.groups[g].name == t.groups[h].name ==> g == h
  }

  /** Every live user owns the group of the same id and name. */
  predicate OwnGroup(t: Tables) {
    forall u :: u in t.passwd ==>
      u in t.groups && t.groups[u].name == t.passwd[u].login && t.passwd[u].gid == u
  }

  predicate Uint32Ids(t: Tables) {
    forall g :: g in t.groups ==> 0 <= g < MAX_IDS
  }

  /** Kept by every mixture of Go and Rust steps. */
  predicate Weak(t: Tables) {
    SameUsers(t) && Diagonal(t) && UniqueNames(t) && OwnGroup(t) && Uint32Ids(t)
  }

  /** Kept as long as only Go writes: no group outlives its user. */
  predicate Strong(t: Tables) {
    Weak(t) && t.groups.Keys == t.passwd.Keys
  }

  lemma UniqueLogins(t: Tables, u: int, v: int)
    requires Weak(t) && u in t.passwd && v in t.passwd && t.passwd[u].login == t.passwd[v].login
    ensures u == v
  {
  }

  lemma InsertedInvariant(t: Tables, n: NewUser)
    requires Weak(t) && n.uid == n.gid && 0 <= n.uid < MAX_IDS
    ensures Weak(Inserted(t, n))
    ensures Strong(t) ==> Strong(Inserted(t, n))
  {
  }

  lemma RefreshedInvariant(t: Tables, uid: int, seconds: int, hash: Hash)
    requires Weak(t)
    ensures Weak(Refreshed(t, uid, seconds, hash))
    ensures Strong(t) ==> Strong(Refreshed(t, uid, seconds, hash))
  {
  }

  /** Under the weak invariant the Go purge removes exactly the groups of the users it removes. */
  lemma GoPurgedGroups(t: Tables, threshold: int)
    requires Weak(t)
    ensures GoPurged(t, threshold).groups == t.groups - Stale(t, threshold)
  {
    var t' := GoPurged(t, threshold);
    forall g | g in t.groups && g !in Stale(t, threshold) ensures g in t'.groups {
      assert (g, g) in t'.uidGid && (g, g).1 == g;
    }
  }

  /** Under the weak invariant the Rust purge removes no group at all. */
  lemma RustPurgedGroups(t: Tables, threshold: int)
    requires Weak(t)
    ensures RustPurged(t, threshold).groups == t.groups
  {
    forall g | g in t.groups ensures g in RustPurged(t, threshold).groups {
      assert (g, g) in t.uidGid && (g, g).1 == g;
    }
  }

  lemma GoPurgedInvariant(t: Tables, threshold: int)
    requires Weak(t)
    ensures Weak(GoPurged(t, threshold))
    ensures Strong(t) ==> Strong(GoPurged(t, threshold))
  {
    GoPurgedGroups(t, threshold);
  }

  lemma RustPurgedInvariant(t: Tables, threshold: int)
    requires Weak(t)
    ensures Weak(RustPurged(t, threshold))
  {
  }

  lemma AttributeSetInvariant(t: Tables, login: string, attr: Attribute, value: string)
    requires Weak(t)
    ensures Weak(AttributeSet(t, login, attr, value))
    ensures Strong(t) ==> Strong(AttributeSet(t, login, attr, value))
  {
  }

  /** QueryPasswdAttribute on the three writable columns. */
  function ReadAttribute(row: PasswdRow, attr: Attribute): string {
    match attr
    case Gecos => row.gecos
    case Home => row.home
    case Shell => row.shell
  }

  /** A read after a write: only that column of that login changes. */
  lemma WriteThenRead(t: Tables, login: string, a: Attribute, value: string, u: int, b: Attribute)
    requires u in t.passwd
    ensures var t' := AttributeSet(t, login, a, value);
      && u in t'.passwd
      && ReadAttribute(t'.passwd[u], b) ==
           (if a == b && t.passwd[u].login == login then value else ReadAttribute(t.passwd[u], b))
      && t'.passwd[u].(gecos := "", home := "", shell := "") == t.passwd[u].(gecos := "", home := "", shell := "")
  {
  }

  // -------------------------------------------------------------- purge algebra

  /** Survivors are exactly the users last seen at or after the threshold, with unchanged rows. */
  lemma PurgeSurvivors(t: Tables, threshold: int, u: int)
    ensures u in GoPurged(t, threshold).passwd <==> u in t.passwd && t.passwd[u].lastOnlineAuth >= threshold
    ensures u in GoPurged(t, threshold).passwd ==> GoPurged(t, threshold).passwd[u] == t.passwd[u]
    ensures SameUsers(t) && u in GoPurged(t, threshold).passwd ==>
      u in GoPurged(t, threshold).shadow && GoPurged(t, threshold).shadow[u] == t.shadow[u]
    ensures Weak(t) && u in GoPurged(t, threshold).passwd ==>
      u in GoPurged(t, threshold).groups && GoPurged(t, threshold).groups[u] == t.groups[u]
  {
  }

  function Max(a: int, b: int): int {
    if a < b then b else a
  }

  /** Two purges in a row are one purge at the later threshold, on all four tables of any state. */
  lemma GoPurgeTwice(t: Tables, t1: int, t2: int)
    ensures GoPurged(GoPurged(t, t1), t2) == GoPurged(t, Max(t1, t2))
  {
  }

  lemma RustPurgeTwice(t: Tables, t1: int, t2: int)
    ensures RustPurged(RustPurged(t, t1), t2) == RustPurged(t, Max(t1, t2))
  {
  }

  /** Go and Rust leave the same tables exactly when nobody is purged. */
  lemma PurgesDifferIff(t: Tables, threshold: int)
    requires Weak(t)
    ensures GoPurged(t, threshold) == RustPurged(t, threshold) <==>
      forall u :: u in t.passwd ==> t.passwd[u].lastOnlineAuth >= threshold
  {
  }
}
