/**
 Packing records into the caller's buffer, after the getgrnam_r and getpwnam_r pages of
 POSIX.1-2017: strings end with NUL, pointers are addresses inside the buffer, and ERANGE is
 returned when the record does not fit. Pointers are eight bytes, least significant first.
 */
module CBuffers {
  import opened Basics

  type byte = x: int | 0 <= x < 256

  const POINTER_SIZE: nat := 8

  /** The largest buffer the conversion to a Go slice accepts. */
  const MAX_BUFFER: int := 0x4000_0000

  // --------------------------------------------------------------------------- strings

  function UpToNul(s: seq<byte>): seq<byte> {
    if s == [] || s[0] == 0 then [] else [s[0]] + UpToNul(s[1..])
  }

  /** A C string starting at position i, or None when no NUL comes before the end of the memory. */
  function CString(memory: seq<byte>, i: nat): Option<seq<byte>>
    decreases |memory| - i
  {
    if i >= |memory| then None
    else if memory[i] == 0 then Some([])
    else
      match CString(memory, i + 1)
      case None => None
      case Some(rest) => Some([memory[i]] + rest)
  }

  /** Strings one after the other, each followed by NUL. */
  function Packed(strings: seq<seq<byte>>): seq<byte> {
    if strings == [] then [] else strings[0] + [0] + Packed(strings[1..])
  }

  lemma {:induction false} PackedConcat(a: seq<seq<byte>>, b: seq<seq<byte>>)
    ensures Packed(a + b) == Packed(a) + Packed(b)
  {
    if a == [] {
      assert a + b == b;
    } else {
      assert (a + b)[1..] == a[1..] + b;
      PackedConcat(a[1..], b);
    }
  }

  lemma PackedSnoc(a: seq<seq<byte>>, s: seq<byte>)
    ensures Packed(a + [s]) == Packed(a) + s + [0]
  {
    PackedConcat(a, [s]);
    assert Packed([s]) == s + [0] + Packed([s][1..]) == s + [0];
  }

  /** One more string of a list: what it adds, and that it stays within the whole. */
  lemma PackedPrefix(strings: seq<seq<byte>>, k: nat)
    requires k < |strings|
    ensures Packed(strings[..k + 1]) == Packed(strings[..k]) + strings[k] + [0]
    ensures |Packed(strings[..k + 1])| <= |Packed(strings)|
  {
    assert strings[..k + 1] == strings[..k] + [strings[k]];
    PackedSnoc(strings[..k], strings[k]);
    assert strings == strings[..k + 1] + strings[k + 1..];
    PackedConcat(strings[..k + 1], strings[k + 1..]);
  }

  lemma {:induction false} CStringWithin(before: seq<byte>, s: seq<byte>, after: seq<byte>)
    ensures CString(before + s + [0] + after, |before|) == Some(UpToNul(s))
    decreases |s|
  {
    if s != [] && s[0] != 0 {
      var memory := before + s + [0] + after;
      CStringWithin(before + [s[0]], s[1..], after);
      assert before + [s[0]] + s[1..] + [0] + after == memory;
      assert CString(memory, |before| + 1) == Some(UpToNul(s[1..]));
    }
  }

  /** Every packed string is read back from its offset, up to its first NUL. */
  lemma ReadPacked(strings: seq<seq<byte>>, after: seq<byte>, k: nat)
    requires k < |strings|
    ensures CString(Packed(strings) + after, |Packed(strings[..k])|) == Some(UpToNul(strings[k]))
  {
    var before, s, rest := Packed(strings[..k]), strings[k], Packed(strings[k + 1..]);
    assert strings == strings[..k] + [s] + strings[k + 1..];
    PackedConcat(strings[..k] + [s], strings[k + 1..]);
    PackedSnoc(strings[..k], s);
    assert Packed(strings) + after == before + s + [0] + (rest + after);
    CStringWithin(before, s, rest + after);
  }

  /** The whole string comes back exactly when it holds no NUL. */
  lemma {:induction false} UpToNulIff(s: seq<byte>)
    ensures UpToNul(s) == s <==> 0 !in s
  {
    if s != [] {
      UpToNulIff(s[1..]);
      assert s == [s[0]] + s[1..];
      if s[0] != 0 {
        assert UpToNul(s)[1..] == UpToNul(s[1..]);
      }
    }
  }

  // -------------------------------------------------------------------------- pointers

  function PointerBytes(address: nat, n: nat): (b: seq<byte>)
    ensures |b| == n
    decreases n, address
  {
    if n == 0 then [] else [address % 256] + PointerBytes(address / 256, n - 1)
  }

  function Address(b: seq<byte>): nat {
    if b == [] then 0 else b[0] + 256 * Address(b[1..])
  }

  function Power256(n: nat): nat {
    if n == 0 then 1 else 256 * Power256(n - 1)
  }

  lemma {:induction false} PointerRoundTrip(address: nat, n: nat)
    requires address < Power256(n)
    ensures Address(PointerBytes(address, n)) == address
  {
    if n > 0 {
      PointerRoundTrip(address / 256, n - 1);
      assert PointerBytes(address, n)[1..] == PointerBytes(address / 256, n - 1);
    }
  }

  /** Least significant byte first. */
  lemma PointerOrder(low: nat, high: nat)
    requires low < 256 && high < 256
    ensures PointerBytes(low + 256 * high, 8) == [low, high, 0, 0, 0, 0, 0, 0]
  {
    assert PointerBytes(0, 6) == [0, 0, 0, 0, 0, 0];
    assert PointerBytes(high, 7) == [high] + PointerBytes(0, 6);
  }

  lemma PointerFits(address: nat)
    requires address < TWO63
    ensures Address(PointerBytes(address, POINTER_SIZE)) == address
  {
    assert Power256(1) == 256 && Power256(2) == 0x1_0000;
    assert Power256(4) == 256 * Power256(3) == 0x1_0000_0000;
    assert Power256(6) == 256 * Power256(5) == 0x1_0000_0000_0000;
    assert Power256(8) == 256 * Power256(7) == 2 * TWO63;
    PointerRoundTrip(address, POINTER_SIZE);
  }

  const NULL_POINTER: seq<byte> := [0, 0, 0, 0, 0, 0, 0, 0]

  function Pointers(addresses: seq<nat>): (b: seq<byte>)
    ensures |b| == POINTER_SIZE * |addresses|
  {
    if addresses == [] then [] else PointerBytes(addresses[0], POINTER_SIZE) + Pointers(addresses[1..])
  }

  lemma {:induction false} PointersSnoc(a: seq<nat>, address: nat)
    ensures Pointers(a + [address]) == Pointers(a) + PointerBytes(address, POINTER_SIZE)
  {
    if a == [] {
      assert a + [address] == [address];
      assert Pointers([address]) == PointerBytes(address, POINTER_SIZE) + Pointers([]);
    } else {
      assert (a + [address])[1..] == a[1..] + [address];
      PointersSnoc(a[1..], address);
    }
  }

  /** A null-terminated table of strings at position pos of a memory that starts at address base. */
  function ReadTable(memory: seq<byte>, base: nat, pos: nat): Option<seq<seq<byte>>>
    decreases |memory| - pos
  {
    if pos + POINTER_SIZE > |memory| then None
    else
      var address := Address(memory[pos..pos + POINTER_SIZE]);
      if address == 0 then Some([])
      else if address < base then None
      else
        match (CString(memory, address - base), ReadTable(memory, base, pos + POINTER_SIZE))
        case (Some(s), Some(rest)) => Some([s] + rest)
        case _ => None
  }

  function Slot(memory: seq<byte>, pos: nat): seq<byte>
    requires pos + POINTER_SIZE <= |memory|
  {
    memory[pos..pos + POINTER_SIZE]
  }

  lemma ReadTableStep(memory: seq<byte>, base: nat, pos: nat, address: nat, s: seq<byte>, rest: seq<seq<byte>>)
    requires pos + POINTER_SIZE <= |memory| && 0 < base <= address < TWO63
    requires Slot(memory, pos) == PointerBytes(address, POINTER_SIZE)
    requires CString(memory, address - base) == Some(s)
    requires ReadTable(memory, base, pos + POINTER_SIZE) == Some(rest)
    ensures ReadTable(memory, base, pos) == Some([s] + rest)
  {
    PointerFits(address);
  }

  lemma ReadTableEnd(memory: seq<byte>, base: nat, pos: nat)
    requires pos + POINTER_SIZE <= |memory| && Slot(memory, pos) == NULL_POINTER
    ensures ReadTable(memory, base, pos) == Some([])
  {
  }

  /** A null-terminated table of these addresses lies at pos. */
  predicate TableAt(memory: seq<byte>, pos: nat, addresses: seq<nat>)
    decreases |addresses|
  {
    && pos + POINTER_SIZE <= |memory|
    && if addresses == [] then Slot(memory, pos) == NULL_POINTER
       else Slot(memory, pos) == PointerBytes(addresses[0], POINTER_SIZE)
            && TableAt(memory, pos + POINTER_SIZE, addresses[1..])
  }

  lemma SlotWithin(before: seq<byte>, slot: seq<byte>, after: seq<byte>)
    requires |slot| == POINTER_SIZE
    ensures Slot(before + slot + after, |before|) == slot
  {
  }

  lemma {:induction false} WrittenTable(before: seq<byte>, addresses: seq<nat>, after: seq<byte>)
    ensures TableAt(before + Pointers(addresses) + (NULL_POINTER + after), |before|, addresses)
    decreases |addresses|
  {
    var memory := before + Pointers(addresses) + (NULL_POINTER + after);
    if addresses == [] {
      assert memory == before + NULL_POINTER + after;
      SlotWithin(before, NULL_POINTER, after);
    } else {
      var first, rest := PointerBytes(addresses[0], POINTER_SIZE), Pointers(addresses[1..]) + (NULL_POINTER + after);
      assert memory == before + first + rest;
      SlotWithin(before, first, rest);
      WrittenTable(before + first, addresses[1..], after);
      assert before + first + Pointers(addresses[1..]) + (NULL_POINTER + after) == before + first + rest;
    }
  }

  /** The addresses lead to the strings. */
  predicate LeadsTo(memory: seq<byte>, base: nat, addresses: seq<nat>, strings: seq<seq<byte>>) {
    |addresses| == |strings| && forall i :: 0 <= i < |addresses| ==> Leads(memory, base, addresses[i], strings[i])
  }

  predicate Leads(memory: seq<byte>, base: nat, address: nat, s: seq<byte>) {
    0 < base <= address < TWO63 && CString(memory, address - base) == Some(s)
  }

  /** Such a table gives the strings its addresses lead to. */
  lemma {:induction false} ReadWholeTable(memory: seq<byte>, base: nat, pos: nat, addresses: seq<nat>, strings: seq<seq<byte>>)
    requires TableAt(memory, pos, addresses) && LeadsTo(memory, base, addresses, strings)
    ensures ReadTable(memory, base, pos) == Some(strings)
    decreases |addresses|
  {
    if addresses == [] {
      ReadTableEnd(memory, base, pos);
    } else {
      assert Leads(memory, base, addresses[0], strings[0]);
      ReadWholeTable(memory, base, pos + POINTER_SIZE, addresses[1..], strings[1..]);
      ReadTableStep(memory, base, pos, addresses[0], strings[0], strings[1..]);
      assert strings == [strings[0]] + strings[1..];
    }
  }

  // ------------------------------------------------------------------------- the writer

  /** The memory with these bytes at this position. */
  function Splice(memory: seq<byte>, at: nat, s: seq<byte>): seq<byte>
    requires at + |s| <= |memory|
  {
    memory[..at] + s + memory[at + |s|..]
  }

  lemma SpliceByIndex(before: seq<byte>, after: seq<byte>, at: nat, s: seq<byte>)
    requires |before| == |after| && at + |s| <= |before|
    requires forall k :: 0 <= k < at ==> after[k] == before[k]
    requires forall k :: at <= k < at + |s| ==> after[k] == s[k - at]
    requires forall k :: at + |s| <= k < |before| ==> after[k] == before[k]
    ensures after == Splice(before, at, s)
  {
  }

  /** The part below a limit that the bytes respect, and the part from there on. */
  lemma SpliceParts(memory: seq<byte>, at: nat, s: seq<byte>, limit: nat)
    requires at + |s| <= limit <= |memory|
    ensures Splice(memory, at, s)[..limit] == memory[..at] + s + memory[at + |s|..limit]
    ensures Splice(memory, at, s)[limit..] == memory[limit..]
  {
  }

  lemma SlicesOfSlices(memory: seq<byte>, a: nat, b: nat, limit: nat)
    requires a <= b <= limit <= |memory|
    ensures memory[..limit][..a] == memory[..a] && memory[..limit][b..] == memory[b..limit]
    ensures memory[a..][limit - a..] == memory[limit..]
  {
  }

  lemma WholeSlices(data: array<byte>, n: nat)
    requires n <= data.Length
    ensures data[..][..n] == data[..n] && data[..][n..] == data[n..]
  {
  }

  /** bytes.Buffer over the caller's memory, reset to length zero; it never needs to grow. */
  class Buffer {
    const data: array<byte>
    ghost const original: seq<byte>
    var len: nat

    /** What was not written yet still holds the bytes found at the beginning. */
    ghost predicate Valid()
      reads this, data
    {
      len <= data.Length == |original| && data[len..] == original[len..]
    }

    ghost function Contents(): seq<byte>
      reads this, data
      requires Valid()
    {
      data[..len]
    }

    constructor (data: array<byte>)
      ensures Valid() && this.data == data && len == 0 && original == data[..]
    {
      this.data := data;
      this.original := data[..];
      len := 0;
    }

    /** Byte by byte, nothing else changes. */
    method Put(at: nat, s: seq<byte>)
      requires at + |s| <= data.Length
      modifies data
      ensures data[..] == Splice(old(data[..]), at, s)
    {
      for i := 0 to |s|
        invariant forall k :: 0 <= k < at ==> data[k] == old(data[k])
        invariant forall k :: at <= k < at + i ==> data[k] == s[k - at]
        invariant forall k :: at + i <= k < data.Length ==> data[k] == old(data[k])
      {
        data[at + i] := s[i];
      }
      SpliceByIndex(old(data[..]), data[..], at, s);
    }

    method Write(s: seq<byte>)
      requires Valid() && len + |s| <= data.Length
      modifies this`len, data
      ensures Valid() && len == old(len) + |s| && Contents() == old(Contents()) + s
    {
      ghost var memory := data[..];
      Put(len, s);
      SpliceParts(memory, len, s, len + |s|);
      SlicesOfSlices(original, len, len, len + |s|);
      SlicesOfSlices(memory, len, len, len + |s|);
      WholeSlices(data, len + |s|);
      len := len + |s|;
    }

    /** A string and its terminator. */
    method WriteString(s: seq<byte>)
      requires Valid() && len + |s| + 1 <= data.Length
      modifies this`len, data
      ensures Valid() && len == old(len) + |s| + 1 && Contents() == old(Contents()) + s + [0]
    {
      Write(s);
      Write([0]);
    }

    /** A direct store of a pointer over bytes already written. */
    method StorePointer(at: nat, address: nat)
      requires Valid() && at + POINTER_SIZE <= len
      modifies data
      ensures Valid()
      ensures Contents() == old(Contents())[..at] + PointerBytes(address, POINTER_SIZE) + old(Contents())[at + POINTER_SIZE..]
    {
      ghost var memory := data[..];
      Put(at, PointerBytes(address, POINTER_SIZE));
      SpliceParts(memory, at, PointerBytes(address, POINTER_SIZE), len);
      SlicesOfSlices(memory, at, at + POINTER_SIZE, len);
      WholeSlices(data, len);
    }
  }
}
