/**
 The read queries. Both implementations send the same SQL; the Go side takes the first row,
 the Rust side insists on a single one.
 */
module Queries {
  import opened Basics
  import opened Tables
  import opened Strings

  datatype PasswdEntry = PasswdEntry(name: string, passwd: string, uid: int, gid: int, gecos: string,
                                     home: string, shell: string)
  datatype ShadowEntry = ShadowEntry(name: string, passwd: Hash)
  datatype GroupRecord = GroupRecord(name: string, passwd: string, gid: int, members: seq<string>)

  datatype RustError = DatabaseError | NoRecord

  // ------------------------------------------------------------------------ results

  /** The rows of a query without ORDER BY, in some order. */
  ghost function Rows<T(!new)>(s: set<T>): (rows: seq<T>)
    ensures |rows| == |s|
    ensures forall x :: x in rows <==> x in s
  {
    if s == {} then [] else var x :| x in s; [x] + Rows(s - {x})
  }

  /** QueryRow(...).Scan: the first row, or no entry. */
  function FirstRow<T>(rows: seq<T>): Option<T> {
    if rows == [] then None else Some(rows[0])
  }

  /** expect_one_row. */
  function ExpectOneRow<T>(rows: seq<T>): Result<T, RustError> {
    if |rows| > 1 then Err(DatabaseError)
    else if rows == [] then Err(NoRecord)
    else Ok(rows[|rows| - 1])
  }

  /** One row and only one is an answer; none and several are different errors. */
  lemma ExpectOneRowIff<T>(rows: seq<T>, x: T)
    ensures ExpectOneRow(rows) == Ok(x) <==> rows == [x]
    ensures ExpectOneRow(rows) == Err(NoRecord) <==> rows == []
    ensures ExpectOneRow(rows) == Err(DatabaseError) <==> |rows| > 1
  {
  }

  lemma SingleRow<T(!new)>(s: set<T>, x: T)
    requires s == {x}
    ensures Rows(s) == [x] && FirstRow(Rows(s)) == Some(x) && ExpectOneRow(Rows(s)) == Ok(x)
  {
  }

  // ------------------------------------------------------------------- passwd and shadow

  function EntryOf(passwd: map<int, PasswdRow>, u: int): PasswdEntry
    requires u in passwd
  {
    var r := passwd[u];
    PasswdEntry(r.login, r.password, u, r.gid, r.gecos, r.home, r.shell)
  }

  function EntriesNamed(t: Tables, name: string): set<PasswdEntry> {
    set u | u in t.passwd && t.passwd[u].login == name :: EntryOf(t.passwd, u)
  }

  function EntriesWithUid(t: Tables, uid: int): set<PasswdEntry> {
    set u | u in t.passwd && u == uid :: EntryOf(t.passwd, u)
  }

  function ShadowsNamed(t: Tables, name: string): set<ShadowEntry> {
    set u | u in t.passwd && u in t.shadow && t.passwd[u].login == name :: ShadowEntry(name, t.shadow[u])
  }

  ghost function PasswdByName(t: Tables, name: string): seq<PasswdEntry> {
    Rows(EntriesNamed(t, name))
  }

  ghost function PasswdByUid(t: Tables, uid: int): seq<PasswdEntry> {
    Rows(EntriesWithUid(t, uid))
  }

  ghost function ShadowByName(t: Tables, name: string): seq<ShadowEntry> {
    Rows(ShadowsNamed(t, name))
  }

  function Logins(passwd: map<int, PasswdRow>): set<string> {
    set u | u in passwd :: passwd[u].login
  }

  ghost function UidOf(passwd: map<int, PasswdRow>, login: string): (u: int)
    requires login in Logins(passwd)
    ensures u in passwd && passwd[u].login == login
  {
    var u :| u in passwd && passwd[u].login == login;
    u
  }

  /** SELECT ... FROM passwd ORDER BY login. */
  ghost function AllPasswd(t: Tables): seq<PasswdEntry> {
    var names := Ordered(Logins(t.passwd));
    seq(|names|, i requires 0 <= i < |names| =>
      assert names[i] in names; EntryOf(t.passwd, UidOf(t.passwd, names[i])))
  }

  /** SELECT ... FROM passwd p, shadow s WHERE p.uid = s.uid ORDER BY p.login. */
  ghost function AllShadow(t: Tables): seq<ShadowEntry> {
    var joined := map u | u in t.passwd && u in t.shadow :: t.passwd[u];
    var names := Ordered(Logins(joined));
    seq(|names|, i requires 0 <= i < |names| =>
      assert names[i] in names; ShadowEntry(names[i], t.shadow[UidOf(joined, names[i])]))
  }

  // --------------------------------------------------------------------------- groups

  /** Logins that the pivot table puts into group g. */
  function Members(t: Tables, g: int): set<string> {
    set u | u in t.passwd && (u, g) in t.uidGid :: t.passwd[u].login
  }

  /** Groups that the three-way join keeps. */
  function Inhabited(t: Tables): set<int> {
    set g | g in t.groups && Members(t, g) != {}
  }

  ghost function RecordOf(t: Tables, g: int): GroupRecord
    requires g in t.groups
  {
    GroupRecord(t.groups[g].name, t.groups[g].password, g, Split(Join(Ordered(Members(t, g)))))
  }

  ghost function RecordsNamed(t: Tables, name: string): set<GroupRecord> {
    set g | g in Inhabited(t) && t.groups[g].name == name :: RecordOf(t, g)
  }

  ghost function RecordsWithGid(t: Tables, gid: int): set<GroupRecord> {
    set g | g in Inhabited(t) && g == gid :: RecordOf(t, g)
  }

  ghost function GroupByName(t: Tables, name: string): seq<GroupRecord> {
    Rows(RecordsNamed(t, name))
  }

  ghost function GroupByGid(t: Tables, gid: int): seq<GroupRecord> {
    Rows(RecordsWithGid(t, gid))
  }

  function GroupNames(t: Tables): set<string> {
    set g | g in Inhabited(t) :: t.groups[g].name
  }

  ghost function GidOf(t: Tables, name: string): (g: int)
    requires name in GroupNames(t)
    ensures g in Inhabited(t) && t.groups[g].name == name
  {
    var g :| g in Inhabited(t) && t.groups[g].name == name;
    g
  }

  /** GROUP BY g.name ... ORDER BY name. */
  ghost function AllGroups(t: Tables): seq<GroupRecord> {
    var names := Ordered(GroupNames(t));
    seq(|names|, i requires 0 <= i < |names| => assert names[i] in names; RecordOf(t, GidOf(t, names[i])))
  }

  /** One row of the group query before its member text is split. */
  datatype JoinRow = JoinRow(name: string, passwd: string, gid: int, text: string)

  /** The pieces of the member text, pushed one by one. */
  method CollectMembers(text: string) returns (members: seq<string>)
    ensures members == Split(text) && Join(members) == text
  {
    JoinSplit(text);
    var pieces := Split(text);
    members := [];
    for k := 0 to |pieces|
      invariant members == pieces[..k]
    {
      members := members + [pieces[k]];
    }
    assert pieces[..|pieces|] == pieces;
  }

  /** rows_to_group_entries. */
  method RowsToGroupEntries(rows: seq<JoinRow>) returns (entries: seq<GroupRecord>)
    ensures |entries| == |rows|
    ensures forall i :: 0 <= i < |rows| ==>
      && entries[i].name == rows[i].name && entries[i].passwd == rows[i].passwd && entries[i].gid == rows[i].gid
      && entries[i].members == Split(rows[i].text) && Join(entries[i].members) == rows[i].text
  {
    entries := [];
    for i := 0 to |rows|
      invariant |entries| == i
      invariant forall j :: 0 <= j < i ==>
        && entries[j].name == rows[j].name && entries[j].passwd == rows[j].passwd && entries[j].gid == rows[j].gid
        && entries[j].members == Split(rows[j].text) && Join(entries[j].members) == rows[j].text
    {
      var members := CollectMembers(rows[i].text);
      entries := entries + [GroupRecord(rows[i].name, rows[i].passwd, rows[i].gid, members)];
    }
  }

  // ------------------------------------------------------------- Go and Rust answer alike

  ghost predicate SameRow<T>(rows: seq<T>) {
    match ExpectOneRow(rows)
    case Ok(x) => FirstRow(rows) == Some(x)
    case Err(e) => e == NoRecord && FirstRow(rows) == None
  }

  /** No query by key ever finds two rows, so the two ways of reading the answer agree. */
  lemma GoAndRustAgree(t: Tables, name: string, id: int)
    requires Weak(t)
    ensures SameRow(PasswdByName(t, name)) && SameRow(PasswdByUid(t, id)) && SameRow(ShadowByName(t, name))
    ensures SameRow(GroupByName(t, name)) && SameRow(GroupByGid(t, id))
  {
    AtMostOne(EntriesNamed(t, name));
    AtMostOne(EntriesWithUid(t, id));
    AtMostOne(ShadowsNamed(t, name));
    AtMostOne(RecordsNamed(t, name));
    AtMostOne(RecordsWithGid(t, id));
  }

  lemma AtMostOne<T(!new)>(s: set<T>)
    requires forall x, y :: x in s && y in s ==> x == y
    ensures SameRow(Rows(s))
  {
  }

  // --------------------------------------------------------- the two purges answer alike

  /** Every read query has the same answer on both tables. */
  ghost predicate SameAnswers(t: Tables, t': Tables) {
    && (forall name :: PasswdByName(t, name) == PasswdByName(t', name))
    && (forall uid :: PasswdByUid(t, uid) == PasswdByUid(t', uid))
    && (forall name :: ShadowByName(t, name) == ShadowByName(t', name))
    && (forall name :: GroupByName(t, name) == GroupByName(t', name))
    && (forall gid :: GroupByGid(t, gid) == GroupByGid(t', gid))
    && AllPasswd(t) == AllPasswd(t') && AllShadow(t) == AllShadow(t') && AllGroups(t) == AllGroups(t')
  }

  /** What the queries can see of a state that satisfies the invariant: users, hashes, own groups. */
  lemma MembersOf(t: Tables, g: int)
    requires Weak(t)
    ensures g in t.passwd ==> Members(t, g) == {t.passwd[g].login}
    ensures g !in t.passwd ==> Members(t, g) == {}
    ensures g in Inhabited(t) <==> g in t.passwd
  {
  }

  /** The group side of two states looks the same. */
  ghost predicate SameGroups(t: Tables, t': Tables) {
    && Inhabited(t) == Inhabited(t')
    && (forall g :: g in Inhabited(t) ==> t.groups[g].name == t'.groups[g].name)
    && (forall g :: g in Inhabited(t) ==> RecordOf(t, g) == RecordOf(t', g))
  }

  lemma OnlyUsersMatter(t: Tables, t': Tables)
    requires Weak(t) && Weak(t') && t.passwd == t'.passwd && t.shadow == t'.shadow
    requires forall u :: u in t.passwd ==> t.groups[u] == t'.groups[u]
    ensures SameAnswers(t, t')
  {
    forall g
      ensures g in Inhabited(t) <==> g in Inhabited(t')
      ensures g in Inhabited(t) ==> g in t.passwd && RecordOf(t, g) == RecordOf(t', g)
    {
      MembersOf(t, g);
      MembersOf(t', g);
    }
    assert SameGroups(t, t');
    SameGroupAnswers(t, t');
    SameGroupListing(t, t');
  }

  lemma SameGroupAnswers(t: Tables, t': Tables)
    requires SameGroups(t, t')
    ensures forall name :: GroupByName(t, name) == GroupByName(t', name)
    ensures forall gid :: GroupByGid(t, gid) == GroupByGid(t', gid)
  {
    forall name ensures GroupByName(t, name) == GroupByName(t', name) {
      assert RecordsNamed(t, name) == RecordsNamed(t', name);
    }
    forall gid ensures GroupByGid(t, gid) == GroupByGid(t', gid) {
      assert RecordsWithGid(t, gid) == RecordsWithGid(t', gid);
    }
  }

  lemma SameGroupNames(t: Tables, t': Tables)
    requires SameGroups(t, t')
    ensures GroupNames(t) == GroupNames(t')
  {
  }

  lemma SameGroupNamed(t: Tables, t': Tables, name: string)
    requires UniqueNames(t) && SameGroups(t, t') && name in GroupNames(t) && name in GroupNames(t')
    ensures RecordOf(t, GidOf(t, name)) == RecordOf(t', GidOf(t', name))
  {
  }

  lemma SameGroupListing(t: Tables, t': Tables)
    requires UniqueNames(t) && SameGroups(t, t')
    ensures AllGroups(t) == AllGroups(t')
  {
    SameGroupNames(t, t');
    var names := Ordered(GroupNames(t));
    assert |AllGroups(t)| == |names| == |AllGroups(t')|;
    forall i | 0 <= i < |names| ensures AllGroups(t)[i] == AllGroups(t')[i] {
      SameListed(t, t', names, i);
    }
  }

  lemma SameListed(t: Tables, t': Tables, names: seq<string>, i: nat)
    requires UniqueNames(t) && SameGroups(t, t') && i < |names|
    requires names == Ordered(GroupNames(t)) == Ordered(GroupNames(t'))
    ensures AllGroups(t)[i] == AllGroups(t')[i]
  {
    assert names[i] in names;
    SameGroupNamed(t, t', names[i]);
  }

  /**
   Refinement across languages: from every state of a mixed run, purging with Go or with Rust at
   one threshold gives the same answer to every query, although the tables differ.
   */
  lemma PurgesAnswerAlike(t: Tables, threshold: int)
    requires Weak(t)
    ensures SameAnswers(GoPurged(t, threshold), RustPurged(t, threshold))
  {
    GoPurgedInvariant(t, threshold);
    RustPurgedInvariant(t, threshold);
    GoPurgedGroups(t, threshold);
    RustPurgedGroups(t, threshold);
    OnlyUsersMatter(GoPurged(t, threshold), RustPurged(t, threshold));
  }

  // ------------------------------------------------------------------ what a query returns

  lemma {:induction false} OrderedSingleton(name: string)
    ensures Ordered({name}) == [name]
  {
  }

  /** A group is reported with its user as only member, unless the login holds a comma. */
  lemma SingleMemberIff(t: Tables, u: int)
    requires Weak(t) && u in t.passwd
    ensures RecordOf(t, u).name == t.passwd[u].login && RecordOf(t, u).gid == u
    ensures RecordOf(t, u).members == Split(t.passwd[u].login)
    ensures RecordOf(t, u).members == [t.passwd[u].login] <==> ',' !in t.passwd[u].login
  {
    MembersOf(t, u);
    OrderedSingleton(t.passwd[u].login);
    SplitSingletonIff(t.passwd[u].login);
  }

  /** By name and by uid, a live user is one entry carrying the columns of its row, and has one shadow entry. */
  lemma PasswdAnswers(t: Tables, u: int)
    requires Weak(t) && u in t.passwd
    ensures var row := t.passwd[u];
      && PasswdByUid(t, u) == PasswdByName(t, row.login)
           == [PasswdEntry(row.login, row.password, u, u, row.gecos, row.home, row.shell)]
      && ShadowByName(t, row.login) == [ShadowEntry(row.login, t.shadow[u])]
  {
    var login := t.passwd[u].login;
    assert EntryOf(t.passwd, u) in EntriesNamed(t, login) && EntryOf(t.passwd, u) in EntriesWithUid(t, u);
    assert ShadowEntry(login, t.shadow[u]) in ShadowsNamed(t, login);
    SingleRow(EntriesNamed(t, login), EntryOf(t.passwd, u));
    SingleRow(EntriesWithUid(t, u), EntryOf(t.passwd, u));
    SingleRow(ShadowsNamed(t, login), ShadowEntry(login, t.shadow[u]));
  }

  /** By name, by gid and in the listing, the group of a live user is one and the same record. */
  lemma GroupAnswers(t: Tables, u: int)
    requires Weak(t) && u in t.passwd
    ensures GroupByGid(t, u) == [RecordOf(t, u)]
    ensures GroupByName(t, t.passwd[u].login) == [RecordOf(t, u)]
    ensures RecordOf(t, u) in AllGroups(t)
  {
    MembersOf(t, u);
    SingleRow(RecordsWithGid(t, u), RecordOf(t, u));
    var name := t.passwd[u].login;
    assert RecordOf(t, u) in RecordsNamed(t, name);
    SingleRow(RecordsNamed(t, name), RecordOf(t, u));
    var names := Ordered(GroupNames(t));
    assert t.groups[u].name in GroupNames(t);
    assert name in names;
    var i :| 0 <= i < |names| && names[i] == name;
    assert AllGroups(t)[i] == RecordOf(t, GidOf(t, names[i]));
  }

  /** A group left over by the Rust purge is invisible. */
  lemma LeftoverInvisible(t: Tables, g: int)
    requires Weak(t) && g !in t.passwd
    ensures GroupByGid(t, g) == []
    ensures g in t.groups ==> GroupByName(t, t.groups[g].name) == []
    ensures forall i :: 0 <= i < |AllGroups(t)| ==> AllGroups(t)[i].gid != g
  {
  }

  /** Rows carrying the ordered names are the listing. */
  lemma ListingByName(t: Tables, rows: seq<PasswdEntry>, names: seq<string>)
    requires Weak(t) && names == Ordered(Logins(t.passwd)) && RowsNamed(t.passwd, rows, names)
    ensures rows == AllPasswd(t)
  {
    forall i | 0 <= i < |rows| ensures rows[i] == AllPasswd(t)[i] {
      assert names[i] in names;
      UniqueLogins(t, rows[i].uid, UidOf(t.passwd, names[i]));
    }
  }

  /** The i-th row is an entry of the table that carries the i-th name. */
  predicate RowsNamed(passwd: map<int, PasswdRow>, rows: seq<PasswdEntry>, names: seq<string>) {
    |rows| == |names| && forall i :: 0 <= i < |rows| ==>
      rows[i].uid in passwd && rows[i] == EntryOf(passwd, rows[i].uid) && rows[i].name == names[i]
  }

  /** The rows carrying these names, in the order of the names. */
  method RowsInOrder(passwd: map<int, PasswdRow>, names: seq<string>) returns (rows: seq<PasswdEntry>)
    requires forall i :: 0 <= i < |names| ==> names[i] in Logins(passwd)
    ensures RowsNamed(passwd, rows, names)
  {
    rows := [];
    for i := 0 to |names|
      invariant RowsNamed(passwd, rows, names[..i])
    {
      assert names[i] in Logins(passwd);
      var u :| u in passwd && passwd[u].login == names[i];
      rows := rows + [EntryOf(passwd, u)];
    }
    assert names[..|names|] == names;
  }

  /** SELECT ... FROM passwd ORDER BY login. */
  method OrderByLogin(t: Tables) returns (rows: seq<PasswdEntry>)
    requires Weak(t)
    ensures rows == AllPasswd(t)
  {
    var names := Sort(Logins(t.passwd));
    assert forall i :: 0 <= i < |names| ==> names[i] in names;
    rows := RowsInOrder(t.passwd, names);
    ListingByName(t, rows, names);
  }

  /** The listing shows every user exactly once, in login order. */
  lemma AllPasswdExact(t: Tables)
    requires Weak(t)
    ensures |AllPasswd(t)| == |t.passwd|
    ensures forall e :: e in AllPasswd(t) <==> exists u :: u in t.passwd && e == EntryOf(t.passwd, u)
    ensures forall i, j :: 0 <= i < j < |AllPasswd(t)| ==> Before(AllPasswd(t)[i].name, AllPasswd(t)[j].name)
  {
    var names := Ordered(Logins(t.passwd));
    var all := AllPasswd(t);
    OrderedAscends(Logins(t.passwd));
    forall i | 0 <= i < |names|
      ensures names[i] in Logins(t.passwd) && all[i].name == names[i]
      ensures all[i].uid in t.passwd && all[i] == EntryOf(t.passwd, all[i].uid)
    {
      assert names[i] in names;
    }
    forall u | u in t.passwd ensures EntryOf(t.passwd, u) in all {
      assert t.passwd[u].login in names;
      var i :| 0 <= i < |names| && names[i] == t.passwd[u].login;
      UniqueLogins(t, u, all[i].uid);
      assert all[i] == EntryOf(t.passwd, u);
    }
    forall e | e in all ensures exists u :: u in t.passwd && e == EntryOf(t.passwd, u) {
      var i :| 0 <= i < |all| && all[i] == e;
      assert e == EntryOf(t.passwd, e.uid);
    }
    SameCount(t.passwd, t.passwd.Keys);
    assert Logins(t.passwd) == LoginsOf(t.passwd, t.passwd.Keys);
  }

  function LoginsOf(passwd: map<int, PasswdRow>, uids: set<int>): set<string>
    requires uids <= passwd.Keys
  {
    set u | u in uids :: passwd[u].login
  }

  /** As many logins as rows, since no two rows share a login. */
  lemma {:induction false} SameCount(passwd: map<int, PasswdRow>, uids: set<int>)
    requires forall u, v :: u in passwd && v in passwd && passwd[u].login == passwd[v].login ==> u == v
    requires uids <= passwd.Keys
    ensures |LoginsOf(passwd, uids)| == |uids|
  {
    if uids != {} {
      var u := Rows(uids)[0];
      SameCount(passwd, uids - {u});
      assert LoginsOf(passwd, uids) == LoginsOf(passwd, uids - {u}) + {passwd[u].login};
    }
  }

  lemma InhabitedIsLive(t: Tables)
    requires Weak(t)
    ensures Inhabited(t) == t.passwd.Keys
  {
    forall g ensures g in Inhabited(t) <==> g in t.passwd {
      MembersOf(t, g);
    }
  }

  /** The groups listed carry the logins, */
  lemma GroupNamesAreLogins(t: Tables)
    requires OwnGroup(t) && Inhabited(t) == t.passwd.Keys
    ensures GroupNames(t) == Logins(t.passwd)
  {
    forall name ensures name in GroupNames(t) <==> name in Logins(t.passwd) {
      if u :| u in t.passwd && t.passwd[u].login == name {
        assert u in Inhabited(t) && t.groups[u].name == name;
      }
      if g :| g in Inhabited(t) && t.groups[g].name == name {
        assert g in t.passwd && t.passwd[g].login == name;
      }
    }
  }

  /** and the join with shadow loses nobody. */
  lemma JoinLosesNobody(t: Tables)
    requires SameUsers(t)
    ensures (map u | u in t.passwd && u in t.shadow :: t.passwd[u]) == t.passwd
  {
  }

  lemma LoginCount(t: Tables)
    requires Weak(t)
    ensures |Ordered(Logins(t.passwd))| == |t.passwd|
  {
    AllPasswdExact(t);
  }

  /** The i-th group and the i-th shadow entry belong to the user with the i-th login. */
  lemma ListedAt(t: Tables, i: nat) returns (u: int)
    requires Weak(t) && i < |Ordered(Logins(t.passwd))|
    ensures u in t.passwd && t.passwd[u].login == Ordered(Logins(t.passwd))[i]
    ensures |AllGroups(t)| == |AllShadow(t)| == |Ordered(Logins(t.passwd))|
    ensures AllGroups(t)[i] == RecordOf(t, u) && AllShadow(t)[i] == ShadowEntry(t.passwd[u].login, t.shadow[u])
  {
    InhabitedIsLive(t);
    GroupNamesAreLogins(t);
    JoinLosesNobody(t);
    var names := Ordered(Logins(t.passwd));
    assert names[i] in names;
    u := UidOf(t.passwd, names[i]);
    UniqueLogins(t, GidOf(t, names[i]), u);
  }

  lemma ListingLengths(t: Tables)
    requires Weak(t)
    ensures |AllGroups(t)| == |AllShadow(t)| == |t.passwd| == |Ordered(Logins(t.passwd))|
  {
    InhabitedIsLive(t);
    GroupNamesAreLogins(t);
    JoinLosesNobody(t);
    LoginCount(t);
  }

  lemma ListedAscend(t: Tables, i: nat, j: nat)
    requires Weak(t) && i < j < |Ordered(Logins(t.passwd))|
    ensures |AllGroups(t)| == |AllShadow(t)| == |Ordered(Logins(t.passwd))|
    ensures Before(AllGroups(t)[i].name, AllGroups(t)[j].name) && Before(AllShadow(t)[i].name, AllShadow(t)[j].name)
  {
    OrderedAscends(Logins(t.passwd));
    var u := ListedAt(t, i);
    var v := ListedAt(t, j);
  }

  lemma GroupListed(t: Tables, u: int)
    requires Weak(t) && u in t.passwd
    ensures RecordOf(t, u) in AllGroups(t)
  {
    GroupAnswers(t, u);
  }

  /** The group listing shows the group of every user exactly once, in name order, and nothing else. */
  lemma AllGroupsExact(t: Tables)
    requires Weak(t)
    ensures |AllGroups(t)| == |t.passwd|
    ensures forall r :: r in AllGroups(t) <==> exists u :: u in t.passwd && r == RecordOf(t, u)
    ensures forall i, j :: 0 <= i < j < |AllGroups(t)| ==> Before(AllGroups(t)[i].name, AllGroups(t)[j].name)
  {
    ListingLengths(t);
    forall i, j | 0 <= i < j < |AllGroups(t)| ensures Before(AllGroups(t)[i].name, AllGroups(t)[j].name) {
      ListedAscend(t, i, j);
    }
    forall r | r in AllGroups(t) ensures exists u :: u in t.passwd && r == RecordOf(t, u) {
      var i :| 0 <= i < |AllGroups(t)| && AllGroups(t)[i] == r;
      var u := ListedAt(t, i);
    }
    forall u | u in t.passwd ensures RecordOf(t, u) in AllGroups(t) {
      GroupListed(t, u);
    }
  }

  /** The shadow listing shows the hash of every user exactly once, in login order, and nothing else. */
  lemma AllShadowExact(t: Tables)
    requires Weak(t)
    ensures |AllShadow(t)| == |t.passwd|
    ensures forall e :: e in AllShadow(t) <==>
      exists u :: u in t.passwd && e == ShadowEntry(t.passwd[u].login, t.shadow[u])
    ensures forall i, j :: 0 <= i < j < |AllShadow(t)| ==> Before(AllShadow(t)[i].name, AllShadow(t)[j].name)
  {
    ListingLengths(t);
    forall i, j | 0 <= i < j < |AllShadow(t)| ensures Before(AllShadow(t)[i].name, AllShadow(t)[j].name) {
      ListedAscend(t, i, j);
    }
    forall e | e in AllShadow(t) ensures exists u :: u in t.passwd && e == ShadowEntry(t.passwd[u].login, t.shadow[u]) {
      var i :| 0 <= i < |AllShadow(t)| && AllShadow(t)[i] == e;
      var u := ListedAt(t, i);
    }
    forall u | u in t.passwd ensures ShadowEntry(t.passwd[u].login, t.shadow[u]) in AllShadow(t) {
      ShadowListed(t, u);
    }
  }

  lemma ShadowListed(t: Tables, u: int)
    requires Weak(t) && u in t.passwd
    ensures ShadowEntry(t.passwd[u].login, t.shadow[u]) in AllShadow(t)
  {
    var names := Ordered(Logins(t.passwd));
    assert t.passwd[u].login in names;
    var i :| 0 <= i < |names| && names[i] == t.passwd[u].login;
    var v := ListedAt(t, i);
    UniqueLogins(t, u, v);
  }
}
