/** struct group and struct passwd, written into the caller's buffer and read back from it. */
module NssRecords {
  import opened Basics
  import opened CBuffers

  /** Range is ERANGE; SlicePanic is the slice expression failing on a buffer over one gibibyte. */
  datatype BufferError = Range | SlicePanic

  function ToUint32(x: nat): nat {
    x % (MAX_UINT32 + 1)
  }

  function Fits(size: nat, length: nat): Result<(), BufferError> {
    if length < size then Err(Range) else if length > MAX_BUFFER then Err(SlicePanic) else Ok(())
  }

  // ---------------------------------------------------------------------------- passwd

  datatype Passwd = Passwd(name: seq<byte>, passwd: seq<byte>, uid: nat, gid: nat, gecos: seq<byte>,
                           dir: seq<byte>, shell: seq<byte>)

  /** The C structure: addresses for the strings, plain numbers for the ids. */
  datatype CPasswd = CPasswd(name: nat, passwd: nat, uid: nat, gid: nat, gecos: nat, dir: nat, shell: nat)

  function PasswdStrings(p: Passwd): seq<seq<byte>> {
    [p.name, p.passwd, p.gecos, p.dir, p.shell]
  }

  /** Reading the five strings through the structure. */
  function ReadPasswd(memory: seq<byte>, base: nat, c: CPasswd): Option<Passwd>
    requires base <= c.name && base <= c.passwd && base <= c.gecos && base <= c.dir && base <= c.shell
  {
    match (CString(memory, c.name - base), CString(memory, c.passwd - base), CString(memory, c.gecos - base),
           CString(memory, c.dir - base), CString(memory, c.shell - base))
    case (Some(name), Some(passwd), Some(gecos), Some(dir), Some(shell)) =>
      Some(Passwd(name, passwd, c.uid, c.gid, gecos, dir, shell))
    case _ => None
  }

  /** What a C reader sees of a record: strings up to their first NUL, ids in 32 bits. */
  function SeenPasswd(p: Passwd): Passwd {
    Passwd(UpToNul(p.name), UpToNul(p.passwd), ToUint32(p.uid), ToUint32(p.gid), UpToNul(p.gecos),
           UpToNul(p.dir), UpToNul(p.shell))
  }

  /** Where the k-th string starts. */
  function StringAddress(strings: seq<seq<byte>>, base: nat, k: nat): nat
    requires k <= |strings|
  {
    base + |Packed(strings[..k])|
  }

  function PasswdPointers(p: Passwd, base: nat): CPasswd {
    var s := PasswdStrings(p);
    CPasswd(StringAddress(s, base, 0), StringAddress(s, base, 1), ToUint32(p.uid), ToUint32(p.gid),
            StringAddress(s, base, 2), StringAddress(s, base, 3), StringAddress(s, base, 4))
  }

  /** ToCpasswd. */
  method ToCpasswd(p: Passwd, data: array<byte>, base: nat) returns (r: Result<CPasswd, BufferError>)
    modifies data
    ensures match Fits(|Packed(PasswdStrings(p))|, data.Length)
      case Err(e) => r == Err(e) && data[..] == old(data[..])
      case Ok(_) =>
        && r == Ok(PasswdPointers(p, base))
        && data[..] == Packed(PasswdStrings(p)) + old(data[..])[|Packed(PasswdStrings(p))|..]
    ensures r == Err(Range) <==> data.Length < |p.name| + |p.passwd| + |p.gecos| + |p.dir| + |p.shell| + 5
    ensures r == Err(SlicePanic) <==> r != Err(Range) && data.Length > 0x4000_0000
    ensures r.Ok? ==> r.value.uid == p.uid % 0x1_0000_0000 && r.value.gid == p.gid % 0x1_0000_0000
  {
    PasswdSize(p);
    if data.Length < |p.name| + |p.passwd| + |p.gecos| + |p.dir| + |p.shell| + 5 {
      return Err(Range);
    }
    if data.Length > MAX_BUFFER {
      return Err(SlicePanic);
    }
    var b := new Buffer(data);
    var c := WriteFields(b, base, p);
    assert data[..] == data[..b.len] + data[b.len..];
    return Ok(c);
  }

  /** The five strings one after the other. */
  method WriteFields(b: Buffer, base: nat, p: Passwd) returns (c: CPasswd)
    requires b.Valid() && b.len == 0 && |Packed(PasswdStrings(p))| <= b.data.Length
    modifies b`len, b.data
    ensures b.Valid() && b.Contents() == Packed(PasswdStrings(p))
    ensures c == PasswdPointers(p, base)
  {
    ghost var strings := PasswdStrings(p);
    assert strings[..0] == [] && strings[..5] == strings;
    var name := WriteNext(b, base, p.name, strings, 0);
    var passwd := WriteNext(b, base, p.passwd, strings, 1);
    var gecos := WriteNext(b, base, p.gecos, strings, 2);
    var dir := WriteNext(b, base, p.dir, strings, 3);
    var shell := WriteNext(b, base, p.shell, strings, 4);
    c := CPasswd(name, passwd, ToUint32(p.uid), ToUint32(p.gid), gecos, dir, shell);
  }

  /** One string with its terminator, after those before it; the result is its address. */
  method WriteNext(b: Buffer, base: nat, s: seq<byte>, ghost strings: seq<seq<byte>>, ghost k: nat) returns (address: nat)
    requires k < |strings| && s == strings[k] && |Packed(strings)| <= b.data.Length
    requires b.Valid() && b.Contents() == Packed(strings[..k])
    modifies b`len, b.data
    ensures b.Valid() && b.Contents() == Packed(strings[..k + 1])
    ensures address == StringAddress(strings, base, k)
  {
    PackedPrefix(strings, k);
    address := base + b.len;
    b.WriteString(s);
  }

  lemma PasswdSize(p: Passwd)
    ensures |Packed(PasswdStrings(p))| == |p.name| + |p.passwd| + |p.gecos| + |p.dir| + |p.shell| + 5
  {
    PackedSize(PasswdStrings(p));
    SizeOfFive(p.name, p.passwd, p.gecos, p.dir, p.shell);
  }

  lemma SizeOfFive(a: seq<byte>, b: seq<byte>, c: seq<byte>, d: seq<byte>, e: seq<byte>)
    ensures MembersSize([a, b, c, d, e]) == |a| + |b| + |c| + |d| + |e| + 5
  {
    assert [e][1..] == [] && [d, e][1..] == [e] && [c, d, e][1..] == [d, e];
    assert [b, c, d, e][1..] == [c, d, e] && [a, b, c, d, e][1..] == [b, c, d, e];
    assert MembersSize([e]) == |e| + 1;
    assert MembersSize([d, e]) == |d| + 1 + MembersSize([e]);
    assert MembersSize([c, d, e]) == |c| + 1 + MembersSize([d, e]);
    assert MembersSize([b, c, d, e]) == |b| + 1 + MembersSize([c, d, e]);
  }

  /** Reading the written buffer through the structure gives the record back. */
  lemma PasswdReadBack(p: Passwd, base: nat, rest: seq<byte>)
    ensures ReadPasswd(Packed(PasswdStrings(p)) + rest, base, PasswdPointers(p, base)) == Some(SeenPasswd(p))
  {
    var strings := PasswdStrings(p);
    ReadPacked(strings, rest, 0);
    ReadPacked(strings, rest, 1);
    ReadPacked(strings, rest, 2);
    ReadPacked(strings, rest, 3);
    ReadPacked(strings, rest, 4);
  }

  /** The record comes back unchanged exactly when no string holds a NUL and the ids fit 32 bits. */
  lemma PasswdExactIff(p: Passwd)
    ensures SeenPasswd(p) == p <==>
      && (forall i :: 0 <= i < 5 ==> 0 !in PasswdStrings(p)[i]) && p.uid <= MAX_UINT32 && p.gid <= MAX_UINT32
  {
    forall i | 0 <= i < 5 ensures UpToNul(PasswdStrings(p)[i]) == PasswdStrings(p)[i] <==> 0 !in PasswdStrings(p)[i] {
      UpToNulIff(PasswdStrings(p)[i]);
    }
    assert PasswdStrings(p)[0] == p.name && PasswdStrings(p)[1] == p.passwd && PasswdStrings(p)[2] == p.gecos;
    assert PasswdStrings(p)[3] == p.dir && PasswdStrings(p)[4] == p.shell;
  }

  // ----------------------------------------------------------------------------- group

  datatype Group = Group(name: seq<byte>, passwd: seq<byte>, gid: nat, members: seq<seq<byte>>)

  datatype CGroup = CGroup(name: nat, passwd: nat, mem: nat, gid: nat)

  function GroupStrings(g: Group): seq<seq<byte>> {
    [g.name, g.passwd] + g.members
  }

  function MemberAddress(g: Group, base: nat, k: nat): nat
    requires k <= |g.members|
  {
    StringAddress(GroupStrings(g), base, 2 + k)
  }

  function MemberAddresses(g: Group, base: nat, n: nat): (a: seq<nat>)
    requires n <= |g.members|
    ensures |a| == n && forall k :: 0 <= k < n ==> a[k] == MemberAddress(g, base, k)
  {
    seq(n, k requires 0 <= k < n => MemberAddress(g, base, k))
  }

  /** The bytes of a record: the strings, the addresses of the members, a null pointer. */
  function GroupImage(g: Group, base: nat): seq<byte> {
    Packed(GroupStrings(g)) + Pointers(MemberAddresses(g, base, |g.members|)) + NULL_POINTER
  }

  function GroupPointers(g: Group, base: nat): CGroup {
    CGroup(base, base + |Packed([g.name])|, MemberAddress(g, base, |g.members|), ToUint32(g.gid))
  }

  function ReadGroup(memory: seq<byte>, base: nat, c: CGroup): Option<Group>
    requires base <= c.name && base <= c.passwd && base <= c.mem
  {
    match (CString(memory, c.name - base), CString(memory, c.passwd - base), ReadTable(memory, base, c.mem - base))
    case (Some(name), Some(passwd), Some(members)) => Some(Group(name, passwd, c.gid, members))
    case _ => None
  }

  function SeenMembers(members: seq<seq<byte>>): seq<seq<byte>> {
    seq(|members|, k requires 0 <= k < |members| => UpToNul(members[k]))
  }

  function SeenGroup(g: Group): Group {
    Group(UpToNul(g.name), UpToNul(g.passwd), ToUint32(g.gid), SeenMembers(g.members))
  }

  /** Sum of the member sizes with their terminators. */
  function MembersSize(members: seq<seq<byte>>): nat {
    if members == [] then 0 else |members[0]| + 1 + MembersSize(members[1..])
  }

  lemma {:induction false} PackedSize(members: seq<seq<byte>>)
    ensures |Packed(members)| == MembersSize(members)
  {
    if members != [] {
      PackedSize(members[1..]);
    }
  }

  lemma ImageSize(g: Group, base: nat)
    ensures |Packed(GroupStrings(g))| == |g.name| + |g.passwd| + 2 + MembersSize(g.members)
    ensures |GroupImage(g, base)| == |Packed(GroupStrings(g))| + POINTER_SIZE * (|g.members| + 1)
  {
    PackedSize(g.members);
  }

  /** The size computed before anything is written. */
  method ComputeSize(g: Group, ghost base: nat) returns (size: nat)
    ensures size == |GroupImage(g, base)|
  {
    var lenMembers := POINTER_SIZE * (|g.members| + 1);
    for i := 0 to |g.members|
      invariant lenMembers == POINTER_SIZE * (|g.members| + 1) + |Packed(g.members[..i])|
    {
      PackedSnoc(g.members[..i], g.members[i]);
      assert g.members[..i + 1] == g.members[..i] + [g.members[i]];
      lenMembers := lenMembers + |g.members[i]| + 1;
    }
    assert g.members[..|g.members|] == g.members;
    ImageSize(g, base);
    size := |g.name| + |g.passwd| + lenMembers + 2;
  }

  /** The members, each with its terminator; their addresses are collected on the way. */
  method WriteMembers(g: Group, base: nat, b: Buffer) returns (addresses: seq<nat>)
    requires b.Valid() && b.Contents() == Packed(GroupStrings(g)[..2])
    requires |Packed(GroupStrings(g))| <= b.data.Length
    modifies b`len, b.data
    ensures b.Valid() && b.Contents() == Packed(GroupStrings(g))
    ensures addresses == MemberAddresses(g, base, |g.members|)
  {
    ghost var strings := GroupStrings(g);
    addresses := [];
    for i := 0 to |g.members|
      invariant b.Valid()
      invariant b.Contents() == Packed(strings[..2 + i])
      invariant addresses == MemberAddresses(g, base, i)
    {
      PackedPrefix(strings, 2 + i);
      addresses := addresses + [base + b.len];
      b.WriteString(g.members[i]);
    }
    assert strings[..2 + |g.members|] == strings;
  }

  /** Name and password, then the members. */
  method WriteStrings(g: Group, base: nat, b: Buffer) returns (passwd: nat, addresses: seq<nat>)
    requires b.Valid() && b.len == 0 && |Packed(GroupStrings(g))| <= b.data.Length
    modifies b`len, b.data
    ensures b.Valid() && b.Contents() == Packed(GroupStrings(g))
    ensures passwd == base + |Packed([g.name])|
    ensures addresses == MemberAddresses(g, base, |g.members|)
  {
    ghost var strings := GroupStrings(g);
    PackedPrefix(strings, 0);
    PackedPrefix(strings, 1);
    assert strings[..0] == [] && strings[..1] == [g.name];
    b.WriteString(g.name);
    passwd := base + b.len;
    b.WriteString(g.passwd);
    addresses := WriteMembers(g, base, b);
  }

  /** Storing the next pointer over the zeros reserved for it. */
  lemma StoreStep(before: seq<byte>, addresses: seq<nat>, i: nat, zeros: seq<byte>)
    requires i < |addresses| && |zeros| == POINTER_SIZE * (|addresses| - i)
    ensures var contents := before + Pointers(addresses[..i]) + zeros;
      var bufp := |before| + POINTER_SIZE * i;
      contents[..bufp] + PointerBytes(addresses[i], POINTER_SIZE) + contents[bufp + POINTER_SIZE..]
        == before + Pointers(addresses[..i + 1]) + zeros[POINTER_SIZE..]
  {
    PointersSnoc(addresses[..i], addresses[i]);
    assert addresses[..i + 1] == addresses[..i] + [addresses[i]];
  }

  /** Room for the pointers, the stores through the advancing pointer, and the terminator. */
  method WriteTable(b: Buffer, addresses: seq<nat>)
    requires b.Valid() && b.len + POINTER_SIZE * (|addresses| + 1) <= b.data.Length
    modifies b`len, b.data
    ensures b.Valid() && b.Contents() == old(b.Contents()) + Pointers(addresses) + NULL_POINTER
  {
    ghost var before := b.Contents();
    var bufp := b.len;
    var zeros: seq<byte> := seq(POINTER_SIZE * |addresses|, _ => 0);
    b.Write(zeros);
    ghost var pending := zeros;
    for i := 0 to |addresses|
      invariant b.Valid() && b.len == |before| + POINTER_SIZE * |addresses|
      invariant bufp == |before| + POINTER_SIZE * i
      invariant |pending| == POINTER_SIZE * (|addresses| - i)
      invariant b.Contents() == before + Pointers(addresses[..i]) + pending
    {
      StoreStep(before, addresses, i, pending);
      b.StorePointer(bufp, addresses[i]);
      bufp := bufp + POINTER_SIZE;
      pending := pending[POINTER_SIZE..];
    }
    assert addresses[..|addresses|] == addresses;
    assert pending == [];
    b.Write(NULL_POINTER);
  }

  /** ToCgroup. */
  method ToCgroup(g: Group, data: array<byte>, base: nat) returns (r: Result<CGroup, BufferError>)
    modifies data
    ensures match Fits(|GroupImage(g, base)|, data.Length)
      case Err(e) => r == Err(e) && data[..] == old(data[..])
      case Ok(_) =>
        && r == Ok(GroupPointers(g, base))
        && data[..] == GroupImage(g, base) + old(data[..])[|GroupImage(g, base)|..]
    ensures r == Err(Range) <==>
      data.Length < |g.name| + |g.passwd| + 2 + MembersSize(g.members) + 8 * (|g.members| + 1)
    ensures r == Err(SlicePanic) <==> r != Err(Range) && data.Length > 0x4000_0000
    ensures r.Ok? ==> r.value.gid == g.gid % 0x1_0000_0000
  {
    var size := ComputeSize(g, base);
    ImageSize(g, base);
    if data.Length < size {
      return Err(Range);
    }
    if data.Length > MAX_BUFFER {
      return Err(SlicePanic);
    }
    var b := new Buffer(data);
    var passwd, addresses := WriteStrings(g, base, b);
    assert GroupStrings(g)[..2 + |g.members|] == GroupStrings(g);
    var mem := base + b.len;
    WriteTable(b, addresses);
    assert data[..] == data[..b.len] + data[b.len..];
    return Ok(CGroup(base, passwd, mem, ToUint32(g.gid)));
  }

  /** Each stored address leads to its member. */
  lemma MemberReadBack(g: Group, base: nat, tail: seq<byte>, k: nat)
    requires k < |g.members|
    ensures CString(Packed(GroupStrings(g)) + tail, MemberAddress(g, base, k) - base) == Some(UpToNul(g.members[k]))
    ensures base <= MemberAddress(g, base, k) < base + |Packed(GroupStrings(g))|
  {
    ReadPacked(GroupStrings(g), tail, 2 + k);
    PackedPrefix(GroupStrings(g), 2 + k);
  }

  lemma ImageParts(g: Group, base: nat, rest: seq<byte>)
    ensures GroupImage(g, base) + rest ==
      Packed(GroupStrings(g)) + (Pointers(MemberAddresses(g, base, |g.members|)) + NULL_POINTER + rest)
  {
  }

  lemma ImageTable(g: Group, base: nat, rest: seq<byte>)
    ensures TableAt(GroupImage(g, base) + rest, |Packed(GroupStrings(g))|, MemberAddresses(g, base, |g.members|))
  {
    var packed, pointers := Packed(GroupStrings(g)), Pointers(MemberAddresses(g, base, |g.members|));
    WrittenTable(packed, MemberAddresses(g, base, |g.members|), rest);
    assert packed + pointers + NULL_POINTER + rest == packed + pointers + (NULL_POINTER + rest);
  }

  lemma MembersReadBack(g: Group, base: nat, tail: seq<byte>)
    requires 0 < base && base + |Packed(GroupStrings(g))| <= TWO63
    ensures LeadsTo(Packed(GroupStrings(g)) + tail, base, MemberAddresses(g, base, |g.members|), SeenMembers(g.members))
  {
    forall k | 0 <= k < |g.members|
      ensures base <= MemberAddress(g, base, k) < base + |Packed(GroupStrings(g))|
      ensures CString(Packed(GroupStrings(g)) + tail, MemberAddress(g, base, k) - base) == Some(UpToNul(g.members[k]))
    {
      MemberReadBack(g, base, tail, k);
    }
  }

  lemma TableReadBack(g: Group, base: nat, rest: seq<byte>)
    requires 0 < base && base + |Packed(GroupStrings(g))| <= TWO63
    ensures ReadTable(GroupImage(g, base) + rest, base, |Packed(GroupStrings(g))|) == Some(SeenMembers(g.members))
  {
    ImageTable(g, base, rest);
    ImageParts(g, base, rest);
    MembersReadBack(g, base, Pointers(MemberAddresses(g, base, |g.members|)) + NULL_POINTER + rest);
    ReadWholeTable(GroupImage(g, base) + rest, base, |Packed(GroupStrings(g))|, MemberAddresses(g, base, |g.members|), SeenMembers(g.members));
  }

  lemma NamesReadBack(g: Group, base: nat, memory: seq<byte>, rest: seq<byte>)
    requires memory == GroupImage(g, base) + rest
    ensures CString(memory, 0) == Some(UpToNul(g.name))
    ensures CString(memory, |Packed([g.name])|) == Some(UpToNul(g.passwd))
  {
    var strings := GroupStrings(g);
    var tail := Pointers(MemberAddresses(g, base, |g.members|)) + NULL_POINTER + rest;
    ImageParts(g, base, rest);
    assert strings[..0] == [] && strings[..1] == [g.name];
    ReadPacked(strings, tail, 0);
    ReadPacked(strings, tail, 1);
  }

  /** Reading the written buffer gives name, password and members in order, ended by a null pointer. */
  lemma GroupReadBack(g: Group, base: nat, rest: seq<byte>)
    requires 0 < base && base + |GroupImage(g, base)| + |rest| <= TWO63
    ensures ReadGroup(GroupImage(g, base) + rest, base, GroupPointers(g, base)) == Some(SeenGroup(g))
  {
    assert GroupStrings(g)[..2 + |g.members|] == GroupStrings(g);
    NamesReadBack(g, base, GroupImage(g, base) + rest, rest);
    TableReadBack(g, base, rest);
  }

  /** The record comes back unchanged exactly when nothing in it holds a NUL and the gid fits 32 bits. */
  lemma GroupExactIff(g: Group)
    ensures SeenGroup(g) == g <==>
      && 0 !in g.name && 0 !in g.passwd && (forall k :: 0 <= k < |g.members| ==> 0 !in g.members[k])
      && g.gid <= MAX_UINT32
  {
    UpToNulIff(g.name);
    UpToNulIff(g.passwd);
    forall k | 0 <= k < |g.members|
      ensures SeenMembers(g.members)[k] == g.members[k] <==> 0 !in g.members[k]
    {
      UpToNulIff(g.members[k]);
    }
    if forall k :: 0 <= k < |g.members| ==> 0 !in g.members[k] {
      assert SeenMembers(g.members) == g.members;
    }
  }
}
