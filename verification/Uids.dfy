/** User id generation: the 32-bit name hash and the cyclic probing for a free id. */
module Uids {
  import opened Basics
  import opened Tables
  import Strings

  const OFFSET: int := 100000

  type uint32 = x: int | 0 <= x < MAX_IDS

  // ------------------------------------------------------------------- the hash

  /** One loop step: uint32 multiplication, then the remainder by MaxUint32. */
  function HashStep(h: uint32, c: char): uint32 {
    (h * (c as int)) % MAX_IDS % MAX_UINT32
  }

  /** The accumulator after the whole name. */
  function NameHash(name: string): uint32 {
    if name == "" then 1 else HashStep(NameHash(name[..|name| - 1]), name[|name| - 1])
  }

  function Start(name: string): (id: uint32)
    ensures OFFSET <= id <= MAX_UINT32 - 1
  {
    NameHash(name) % (MAX_UINT32 - OFFSET) + OFFSET
  }

  /** The first loop of generateUIDForUser. */
  method ComputeStart(name: string) returns (id: uint32)
    ensures id == Start(name)
  {
    id := 1;
    for i := 0 to |name|
      invariant id == NameHash(name[..i])
    {
      assert name[..i + 1][..i] == name[..i];
      id := HashStep(id, name[i]);
    }
    assert name[..|name|] == name;
    id := id % (MAX_UINT32 - OFFSET) + OFFSET;
  }

  /** The plain product of the characters, never reduced. */
  function Product(name: string): nat {
    if name == "" then 1 else Product(name[..|name| - 1]) * (name[|name| - 1] as int)
  }

  /** Some running 32-bit product is MaxUint32, the one value the remainder changes. */
  predicate HitsMax(name: string) {
    name != "" && (HitsMax(name[..|name| - 1]) || Product(name) % MAX_IDS == MAX_UINT32)
  }

  lemma ModProduct(a: int, b: int)
    ensures (a % MAX_IDS * b) % MAX_IDS == (a * b) % MAX_IDS
  {
    var q := a / MAX_IDS;
    assert a == q * MAX_IDS + a % MAX_IDS;
    assert a * b == (q * b) * MAX_IDS + a % MAX_IDS * b by {
      assert a * b == (q * MAX_IDS + a % MAX_IDS) * b == q * MAX_IDS * b + a % MAX_IDS * b;
    }
    ModShift(a % MAX_IDS * b, q * b);
  }

  lemma ModShift(x: int, k: int)
    ensures (k * MAX_IDS + x) % MAX_IDS == x % MAX_IDS
  {
  }

  lemma HashStepOfProduct(h: uint32, p: nat, c: char)
    requires h == p % MAX_IDS
    ensures var next := p * (c as int) % MAX_IDS;
      HashStep(h, c) == if next == MAX_UINT32 then 0 else next
  {
    ModProduct(p, c as int);
  }

  /** Closed form of the loop: 0 is absorbing once MaxUint32 was hit, else the wrapped product. */
  lemma {:induction false} HashClosedForm(name: string)
    ensures NameHash(name) == if HitsMax(name) then 0 else Product(name) % MAX_IDS
  {
    if name == "" {
    } else {
      var init, c := name[..|name| - 1], name[|name| - 1];
      HashClosedForm(init);
      if HitsMax(init) {
        assert HashStep(0, c) == 0;
      } else {
        HashStepOfProduct(NameHash(init), Product(init), c);
      }
    }
  }

  lemma SwapFactors(a: int, b: int, c: int)
    ensures a * b * c == a * c * b
  {
    assert a * b * c == a * (b * c) == a * (c * b) == a * c * b;
  }

  lemma {:induction false} ProductRemove(name: string, i: nat)
    requires i < |name|
    ensures Product(name) == Product(name[..i] + name[i + 1..]) * (name[i] as int)
  {
    var n := |name| - 1;
    if i == n {
      assert name[..i] + name[i + 1..] == name[..n];
    } else {
      var rest := name[..i] + name[i + 1..];
      ProductRemove(name[..n], i);
      assert name[..n][..i] + name[..n][i + 1..] == rest[..n - 1];
      SwapFactors(Product(rest[..n - 1]), name[i] as int, name[n] as int);
    }
  }

  /** The product does not depend on the order of the characters. */
  lemma {:induction false} ProductRearranged(a: string, b: string)
    requires multiset(a) == multiset(b)
    ensures Product(a) == Product(b)
    decreases |a|
  {
    assert |a| == |multiset(a)| == |b|;
    if a != "" {
      var n := |a| - 1;
      var c := a[n];
      assert c in multiset(b);
      var i :| 0 <= i < |b| && b[i] == c;
      var rest := b[..i] + b[i + 1..];
      assert b == b[..i] + [c] + b[i + 1..];
      assert a == a[..n] + [c];
      assert multiset(a[..n]) == multiset(a) - multiset{c} == multiset(rest);
      ProductRearranged(a[..n], rest);
      ProductRemove(b, i);
    }
  }

  /** Exactly when two rearrangements of one name get the same starting id. */
  lemma RearrangedStartIff(a: string, b: string)
    requires multiset(a) == multiset(b)
    ensures Start(a) == Start(b) <==>
      HitsMax(a) == HitsMax(b) || Product(a) % MAX_IDS % (MAX_UINT32 - OFFSET) == 0
  {
    StartClosedForm(a);
    StartClosedForm(b);
    ProductRearranged(a, b);
  }

  lemma StartClosedForm(name: string)
    ensures Start(name) ==
      if HitsMax(name) then OFFSET else Product(name) % MAX_IDS % (MAX_UINT32 - OFFSET) + OFFSET
  {
    HashClosedForm(name);
  }

  lemma RearrangedStart(a: string, b: string)
    requires multiset(a) == multiset(b) && !HitsMax(a) && !HitsMax(b)
    ensures Start(a) == Start(b)
  {
    RearrangedStartIff(a, b);
  }

  lemma NameHashSnoc(name: string, c: char)
    ensures NameHash(name + [c]) == HashStep(NameHash(name), c)
  {
  }

  lemma HashOfThree(x: char, y: char, z: char)
    ensures NameHash([x, y, z]) == HashStep(HashStep(HashStep(1, x), y), z)
  {
    NameHashSnoc("", x);
    NameHashSnoc([x], y);
    NameHashSnoc([x, y], z);
    assert [x, y] + [z] == [x, y, z] && [x] + [y] == [x, y] && "" + [x] == [x];
  }

  lemma StartOfThree(x: char, y: char, z: char, h: uint32)
    requires HashStep(HashStep(HashStep(1, x), y), z) == h
    ensures Start([x, y, z]) == h % (MAX_UINT32 - OFFSET) + OFFSET
  {
    HashOfThree(x, y, z);
  }

  /** 65535 * 65537 is MaxUint32. */
  lemma HashesOfWitness(two: char, p: char, q: char)
    requires two as int == 2 && p as int == 65535 && q as int == 65537
    ensures HashStep(HashStep(HashStep(1, p), q), two) == 0
    ensures HashStep(HashStep(HashStep(1, two), p), q) == MAX_UINT32 - 1
  {
    assert HashStep(1, p) == 65535 && HashStep(65535, q) == 0 && HashStep(0, two) == 0;
    assert HashStep(1, two) == 2 && HashStep(2, p) == 131070 && HashStep(131070, q) == MAX_UINT32 - 1;
  }

  /** The proviso is needed: the product hits MaxUint32 before the factor 2, or not at all. */
  lemma RearrangedStartsMayDiffer(two: char, p: char, q: char)
    requires two as int == 2 && p as int == 65535 && q as int == 65537
    ensures multiset([p, q, two]) == multiset([two, p, q])
    ensures Start([p, q, two]) == 100000 && Start([two, p, q]) == 199999
  {
    HashesOfWitness(two, p, q);
    StartOfThree(p, q, two, 0);
    StartOfThree(two, p, q, MAX_UINT32 - 1);
  }

  // ------------------------------------------------------------------ the probing

  /** Ids already used as a passwd uid or as a group gid. */
  function Taken(t: Tables): set<int> {
    t.passwd.Keys + t.groups.Keys
  }

  /** The name found under an id by uidOrGidExists: the first row of the UNION, which sorts its rows. */
  function NameAt(t: Tables, id: int): Option<string> {
    if id in t.passwd && id in t.groups then
      var login, group := t.passwd[id].login, t.groups[id].name;
      Some(if Strings.Before(group, login) then group else login)
    else if id in t.passwd then Some(t.passwd[id].login)
    else if id in t.groups then Some(t.groups[id].name)
    else None
  }

  /** In reachable states the answer of the UNION leaves nothing out: the name is that of a user or of a group. */
  lemma UnionAnswer(t: Tables, id: int, name: string)
    requires Weak(t)
    ensures NameAt(t, id) == Some(name) <==>
      || (id in t.passwd && t.passwd[id].login == name)
      || (id in t.groups && t.groups[id].name == name)
    ensures NameAt(t, id) == None <==> id !in Taken(t)
  {
  }

  /** The id k increments after start, with the uint32 wrap-around. */
  function Advance(start: uint32, k: nat): uint32
    requires k <= MAX_IDS
  {
    if start + k < MAX_IDS then start + k else start + k - MAX_IDS
  }

  function Increment(uid: uint32): (next: uint32)
    ensures next == if uid == MAX_UINT32 then 0 else uid + 1
  {
    (uid + 1) % MAX_IDS
  }

  datatype ProbeError = AlreadyExists | NeverEnds

  /** The probing loop from its k-th step; after 2^32 steps it would repeat forever. */
  function ProbeFrom(t: Tables, name: string, start: uint32, k: nat): Result<uint32, ProbeError>
    decreases MAX_IDS - k, start
  {
    if k >= MAX_IDS then Err(NeverEnds)
    else
      match NameAt(t, Advance(start, k))
      case None => Ok(Advance(start, k))
      case Some(found) => if found == name then Err(AlreadyExists) else ProbeFrom(t, name, start, k + 1)
  }

  /** generateUIDForUser. */
  function GenerateUid(t: Tables, name: string): Result<uint32, ProbeError> {
    ProbeFrom(t, name, Start(name), 0)
  }

  ghost predicate HasFreeId(t: Tables) {
    exists id: int :: 0 <= id < MAX_IDS && id !in Taken(t)
  }

  /** The probing meets an id that is free or already carries the name: exactly then it ends. */
  ghost predicate CanStop(t: Tables, name: string) {
    exists id: int :: 0 <= id < MAX_IDS && NameAt(t, id) in {None, Some(name)}
  }

  /** The first n ids met by the probing are all taken, by somebody else. */
  ghost predicate TakenByOthers(t: Tables, name: string, start: uint32, n: nat)
    requires n <= MAX_IDS
  {
    forall j :: 0 <= j < n ==> NameAt(t, Advance(start, j)).Some? && NameAt(t, Advance(start, j)) != Some(name)
  }

  /** The n-th id is the first one that is free or already carries the name. */
  ghost predicate StopsAt(t: Tables, name: string, start: uint32, n: nat) {
    n < MAX_IDS && TakenByOthers(t, name, start, n) && NameAt(t, Advance(start, n)) in {None, Some(name)}
  }

  function AnswerAt(t: Tables, id: uint32): Result<uint32, ProbeError> {
    if NameAt(t, id).None? then Ok(id) else Err(AlreadyExists)
  }

  /** There is only one stopping point. */
  lemma StopsOnce(t: Tables, name: string, start: uint32, k: nat, n: nat)
    requires StopsAt(t, name, start, n) && k <= n && NameAt(t, Advance(start, k)) in {None, Some(name)}
    ensures k == n
  {
  }

  /** The probing answers at its stopping point, and runs for ever only without one. */
  lemma {:induction false} ProbeWitness(t: Tables, name: string, start: uint32, k: nat) returns (n: nat)
    requires k <= MAX_IDS && TakenByOthers(t, name, start, k)
    ensures ProbeFrom(t, name, start, k) != Err(NeverEnds) ==>
      StopsAt(t, name, start, n) && ProbeFrom(t, name, start, k) == AnswerAt(t, Advance(start, n))
    ensures ProbeFrom(t, name, start, k) == Err(NeverEnds) ==> TakenByOthers(t, name, start, MAX_IDS)
    decreases MAX_IDS - k
  {
    n := k;
    if k < MAX_IDS && NameAt(t, Advance(start, k)) !in {None, Some(name)} {
      n := ProbeWitness(t, name, start, k + 1);
    }
  }

  /** Every id is reached within one turn. */
  lemma Reach(start: uint32, id: uint32) returns (k: nat)
    ensures k < MAX_IDS && Advance(start, k) == id
  {
    k := if start <= id then id - start else id + MAX_IDS - start;
  }

  lemma AdvanceInjective(start: uint32, i: nat, j: nat)
    requires i < j < MAX_IDS
    ensures Advance(start, i) != Advance(start, j)
  {
  }

  /** Pigeonhole: n different taken ids are at most all of them. */
  lemma {:induction false} ProbesBounded(start: uint32, taken: set<int>, n: nat)
    requires n <= MAX_IDS
    requires forall j :: 0 <= j < n ==> Advance(start, j) in taken
    ensures n <= |taken|
    decreases n
  {
    if n > 0 {
      var last := Advance(start, n - 1);
      forall j | 0 <= j < n - 1 ensures Advance(start, j) in taken - {last} {
        AdvanceInjective(start, j, n - 1);
      }
      ProbesBounded(start, taken - {last}, n - 1);
    }
  }

  /**
   What the probing returns, in terms of the tables only: within |taken| + 1 probes it
   reaches the first id that is free or already carries the name.
   */
  lemma FirstFreeId(t: Tables, name: string, start: uint32) returns (n: nat)
    requires CanStop(t, name)
    ensures StopsAt(t, name, start, n) && n <= |Taken(t)|
    ensures ProbeFrom(t, name, start, 0) == AnswerAt(t, Advance(start, n))
    ensures ProbeFrom(t, name, start, 0).Ok? <==> Advance(start, n) !in Taken(t)
  {
    var first: nat := 0;
    n := ProbeWitness(t, name, start, first);
    assert ProbeFrom(t, name, start, first) != Err(NeverEnds) by {
      var id: int :| 0 <= id < MAX_IDS && NameAt(t, id) in {None, Some(name)};
      var k := Reach(start, id);
      assert NameAt(t, Advance(start, k)) in {None, Some(name)};
    }
    forall j | 0 <= j < n ensures Advance(start, j) in Taken(t) {
      assert NameAt(t, Advance(start, j)).Some?;
    }
    ProbesBounded(start, Taken(t), n);
  }

  /** generateUIDForUser runs for ever exactly when every id is taken and none carries the name. */
  lemma NeverEndsIff(t: Tables, name: string)
    ensures GenerateUid(t, name) == Err(NeverEnds) <==> !CanStop(t, name)
  {
    var first: nat := 0;
    if CanStop(t, name) {
      var n := FirstFreeId(t, name, Start(name));
    } else {
      var n := ProbeWitness(t, name, Start(name), first);
      assert ProbeFrom(t, name, Start(name), first) == Err(NeverEnds);
    }
  }

  /** No system id: the result is below the offset exactly when the probing has to wrap past zero. */
  lemma UidAboveOffsetIff(t: Tables, name: string, start: uint32)
    requires OFFSET <= start && ProbeFrom(t, name, start, 0).Ok?
    ensures ProbeFrom(t, name, start, 0).value >= OFFSET <==>
      || (exists id :: start <= id <= MAX_UINT32 && id !in Taken(t))
      || (forall id :: 0 <= id < OFFSET ==> id in Taken(t))
  {
    var first: nat := 0;
    var n := ProbeWitness(t, name, start, first);
    var uid := ProbeFrom(t, name, start, first).value;
    assert uid == Advance(start, n) && uid !in Taken(t);
    forall id | start <= id <= MAX_UINT32 && id !in Taken(t) ensures uid >= OFFSET {
      assert Advance(start, id - start) == id;
      assert NameAt(t, Advance(start, id - start)).None?;
      assert n <= id - start;
    }
    if uid >= OFFSET && uid < start {
      forall id | 0 <= id < OFFSET ensures id in Taken(t) {
        var k := id + MAX_IDS - start;
        assert Advance(start, k) == id;
        assert n == uid + MAX_IDS - start;
        assert NameAt(t, Advance(start, k)).Some?;
      }
    }
  }

  /** The second loop of generateUIDForUser. */
  method Probe(t: Tables, name: string, start: uint32) returns (r: Result<uint32, ProbeError>)
    requires CanStop(t, name)
    ensures r == ProbeFrom(t, name, start, 0)
    ensures r != Err(NeverEnds)
  {
    var uid := start;
    ghost var k: nat := 0;
    ghost var n := FirstFreeId(t, name, start);
    while NameAt(t, uid) != None && NameAt(t, uid) != Some(name)
      invariant k <= n < MAX_IDS
      invariant uid == Advance(start, k)
      decreases n - k
    {
      assert k != n;
      uid := Increment(uid);
      k := k + 1;
    }
    StopsOnce(t, name, start, k, n);
    r := AnswerAt(t, uid);
  }

  /** generateUIDForUser. */
  method Generate(t: Tables, name: string) returns (r: Result<uint32, ProbeError>)
    requires CanStop(t, name)
    ensures r == GenerateUid(t, name) && r != Err(NeverEnds)
  {
    var start := ComputeStart(name);
    r := Probe(t, name, start);
  }

  /** A purge only gives ids back. */
  lemma PurgeKeepsStop(t: Tables, threshold: int, name: string)
    requires Weak(t) && CanStop(t, name)
    ensures CanStop(GoPurged(t, threshold), name)
  {
    var id: int :| 0 <= id < MAX_IDS && NameAt(t, id) in {None, Some(name)};
    GoPurgedGroups(t, threshold);
    assert NameAt(GoPurged(t, threshold), id) in {None, Some(name)};
  }

  /** With a free id, or for a user already present, the probing ends. */
  lemma StopsFor(t: Tables, name: string)
    requires Weak(t) && (HasFreeId(t) || LoginTaken(t, name))
    ensures CanStop(t, name)
  {
    if LoginTaken(t, name) {
      var u :| u in t.passwd && t.passwd[u].login == name;
      assert NameAt(t, u) == Some(name);
    } else {
      var id: int :| 0 <= id < MAX_IDS && id !in Taken(t);
      assert NameAt(t, id) == None;
    }
  }

  /** A name that neither a user nor a group carries always gets an unused id. */
  lemma UnknownNameGetsUid(t: Tables, name: string)
    requires HasFreeId(t) && !LoginTaken(t, name) && !GroupNameTaken(t, name)
    ensures GenerateUid(t, name).Ok?
    ensures GenerateUid(t, name).value !in Taken(t)
  {
    var id: int :| 0 <= id < MAX_IDS && id !in Taken(t);
    assert NameAt(t, id) == None;
    var n := FirstFreeId(t, name, Start(name));
  }

  /** With every group owned by a live user, an absent name is never reported as existing. */
  lemma AbsentNameGetsUid(t: Tables, name: string)
    requires Strong(t) && !LoginTaken(t, name) && HasFreeId(t)
    ensures GenerateUid(t, name).Ok?
    ensures GenerateUid(t, name).value !in Taken(t)
  {
    UnknownNameGetsUid(t, name);
  }
}
