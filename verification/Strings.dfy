/**
 Text helpers of the queries: the binary collation used by ORDER BY, the
 ordered listing of a set of names, and the comma-separated member lists that
 group_concat builds and the callers split again.
 */
module Strings {

  /** Strict order of the BINARY collation, on Unicode scalar values. */
  predicate Before(a: string, b: string) {
    b != "" && (a == "" || a[0] < b[0] || (a[0] == b[0] && Before(a[1..], b[1..])))
  }

  /** Up to position k the names agree; there the first one ends or has the smaller character. */
  predicate DiffersAt(a: string, b: string, k: int) {
    0 <= k <= |a| && k < |b| && a[..k] == b[..k] && (k == |a| || a[k] < b[k])
  }

  /** The order is the lexicographic one, by the first difference. */
  lemma {:induction false} BeforeIff(a: string, b: string)
    ensures Before(a, b) <==>
      exists k :: 0 <= k <= |a| && k < |b| && a[..k] == b[..k] && (k == |a| || a[k] < b[k])
  {
    BeforeDiffers(a, b);
    if Before(a, b) {
      var k :| DiffersAt(a, b, k);
      assert a[..k] == b[..k];
    } else {
      forall k | 0 <= k <= |a| && k < |b| && a[..k] == b[..k] && (k == |a| || a[k] < b[k]) ensures false {
        assert DiffersAt(a, b, k);
      }
    }
  }

  lemma HeadsAgree(a: string, b: string, k: nat)
    requires 0 < k <= |a| && k <= |b| && a[..k] == b[..k]
    ensures a[0] == b[0]
  {
    assert a[..k][0] == b[..k][0];
  }

  lemma {:induction false} BeforeDiffers(a: string, b: string)
    ensures Before(a, b) <==> exists k :: DiffersAt(a, b, k)
  {
    if a == "" || b == "" || a[0] != b[0] {
      assert Before(a, b) ==> DiffersAt(a, b, 0);
      forall k | DiffersAt(a, b, k) ensures k == 0 {
        if k > 0 { HeadsAgree(a, b, k); }
      }
    } else {
      BeforeDiffers(a[1..], b[1..]);
      if k :| DiffersAt(a[1..], b[1..], k) {
        assert a[..k + 1] == [a[0]] + a[1..][..k] && b[..k + 1] == [b[0]] + b[1..][..k];
        assert DiffersAt(a, b, k + 1);
      }
      if k :| DiffersAt(a, b, k) {
        assert k > 0;
        assert a[1..][..k - 1] == a[..k][1..] && b[1..][..k - 1] == b[..k][1..];
        assert DiffersAt(a[1..], b[1..], k - 1);
      }
    }
  }

  lemma {:induction false} BeforeTotal(a: string, b: string)
    ensures a == b || Before(a, b) || Before(b, a)
  {
    if a != "" && b != "" && a[0] == b[0] {
      BeforeTotal(a[1..], b[1..]);
      assert a == [a[0]] + a[1..] && b == [b[0]] + b[1..];
    }
  }

  lemma {:induction false} BeforeTransitive(a: string, b: string, c: string)
    requires Before(a, b) && Before(b, c)
    ensures Before(a, c)
  {
    if a != "" && a[0] == b[0] == c[0] {
      BeforeTransitive(a[1..], b[1..], c[1..]);
    }
  }

  lemma {:induction false} BeforeAsymmetric(a: string, b: string)
    requires Before(a, b)
    ensures !Before(b, a) && a != b
  {
    if a != "" && a[0] == b[0] {
      BeforeAsymmetric(a[1..], b[1..]);
    }
  }

  ghost predicate IsFirst(m: string, names: set<string>) {
    m in names && forall x :: x in names && x != m ==> Before(m, x)
  }

  lemma {:induction false} FirstExists(names: set<string>)
    requires names != {}
    ensures exists m :: IsFirst(m, names)
  {
    var x :| x in names;
    var rest := names - {x};
    if rest == {} {
      assert names == {x};
      assert IsFirst(x, names);
    } else {
      FirstExists(rest);
      var m :| IsFirst(m, rest);
      BeforeTotal(x, m);
      if Before(x, m) {
        forall y | y in names && y != x ensures Before(x, y) {
          if y != m { BeforeTransitive(x, m, y); }
        }
        assert IsFirst(x, names);
      } else {
        assert IsFirst(m, names);
      }
    }
  }

  lemma FirstUnique(a: string, b: string, names: set<string>)
    requires IsFirst(a, names) && IsFirst(b, names)
    ensures a == b
  {
    if a != b {
      BeforeAsymmetric(a, b);
    }
  }

  ghost function First(names: set<string>): (m: string)
    requires names != {}
    ensures IsFirst(m, names)
  {
    FirstExists(names);
    var m :| IsFirst(m, names);
    m
  }

  /** The names of a set in collation order. */
  ghost function Ordered(names: set<string>): (s: seq<string>)
    ensures |s| == |names|
    ensures forall x :: x in s <==> x in names
  {
    if names == {} then [] else [First(names)] + Ordered(names - {First(names)})
  }

  lemma OrderedStep(names: set<string>, name: string)
    requires IsFirst(name, names)
    ensures Ordered(names) == [name] + Ordered(names - {name})
  {
    FirstUnique(name, First(names), names);
  }

  /** A candidate stays ahead of the names seen, or gives way to a new one that is ahead of them all. */
  lemma KeepFirst(seen: set<string>, name: string, x: string)
    requires IsFirst(name, seen)
    ensures IsFirst(if Before(x, name) then x else name, seen + {x})
  {
    BeforeTotal(name, x);
    if Before(x, name) {
      forall y | y in seen && y != x ensures Before(x, y) {
        if y != name { BeforeTransitive(x, name, y); }
      }
    }
  }

  /** The first of a set of names, found by comparing. */
  method FindFirst(names: set<string>) returns (name: string)
    requires names != {}
    ensures IsFirst(name, names)
  {
    name :| name in names;
    var rest := names - {name};
    assert names - rest == {name};
    while rest != {}
      invariant rest <= names && IsFirst(name, names - rest)
      decreases rest
    {
      var x :| x in rest;
      KeepFirst(names - rest, name, x);
      assert names - (rest - {x}) == names - rest + {x};
      if Before(x, name) {
        name := x;
      }
      rest := rest - {x};
    }
    assert names - rest == names;
  }

  lemma OrderedMoves(s: seq<string>, pending: set<string>, name: string)
    requires IsFirst(name, pending)
    ensures s + Ordered(pending) == s + [name] + Ordered(pending - {name})
  {
    OrderedStep(pending, name);
  }

  /** Takes the first of the remaining names until none is left. */
  method Sort(names: set<string>) returns (s: seq<string>)
    ensures s == Ordered(names)
  {
    var pending := names;
    s := [];
    while pending != {}
      invariant Ordered(names) == s + Ordered(pending)
      decreases |pending|
    {
      var name := FindFirst(pending);
      OrderedMoves(s, pending, name);
      s := s + [name];
      pending := pending - {name};
    }
  }

  ghost predicate Ascending(s: seq<string>) {
    forall i, j :: 0 <= i < j < |s| ==> Before(s[i], s[j])
  }

  lemma {:induction false} OrderedAscends(names: set<string>)
    ensures Ascending(Ordered(names))
  {
    if names != {} {
      var m, rest := First(names), Ordered(names - {First(names)});
      OrderedAscends(names - {m});
      forall j | 0 <= j < |rest| ensures Before(m, rest[j]) {
        assert rest[j] in rest;
      }
    }
  }

  function Elements(s: seq<string>): set<string> {
    set x | x in s
  }

  /** Ascending lists are determined by their contents, so ORDER BY has one answer. */
  lemma {:induction false} AscendingIsOrdered(s: seq<string>)
    requires Ascending(s)
    ensures s == Ordered(Elements(s))
  {
    if s != [] {
      assert s[0] in Elements(s);
      var names, m := Elements(s), First(Elements(s));
      if m != s[0] {
        var i :| 0 <= i < |s| && s[i] == m;
        BeforeAsymmetric(s[0], s[i]);
      }
      assert names - {m} == Elements(s[1..]) by {
        forall x | x in s[1..] ensures x != m {
          var i :| 1 <= i < |s| && s[i] == x;
          BeforeAsymmetric(s[0], s[i]);
        }
      }
      AscendingIsOrdered(s[1..]);
    }
  }

  /** group_concat(..., ',') over the given order. */
  function Join(parts: seq<string>): string {
    if parts == [] then ""
    else if |parts| == 1 then parts[0]
    else parts[0] + "," + Join(parts[1..])
  }

  /** strings.Split(s, ",") and str::split(','). */
  function Split(s: string): (parts: seq<string>)
    ensures |parts| >= 1
  {
    if s == "" then [""]
    else
      var rest := Split(s[1..]);
      if s[0] == ',' then [""] + rest
      else [[s[0]] + rest[0]] + rest[1..]
  }

  lemma {:induction false} SplitCommaFree(s: string)
    requires ',' !in s
    ensures Split(s) == [s]
  {
    if s != "" {
      SplitCommaFree(s[1..]);
      assert s == [s[0]] + s[1..];
    }
  }

  lemma {:induction false} SplitAfterComma(head: string, tail: string)
    requires ',' !in head
    ensures Split(head + "," + tail) == [head] + Split(tail)
  {
    var s := head + "," + tail;
    if head == "" {
      assert s[1..] == tail;
    } else {
      assert s[1..] == head[1..] + "," + tail;
      SplitAfterComma(head[1..], tail);
      assert head == [head[0]] + head[1..];
    }
  }

  /** Splitting a joined list gives the list back. */
  lemma {:induction false} SplitJoin(parts: seq<string>)
    requires parts != []
    requires forall i :: 0 <= i < |parts| ==> ',' !in parts[i]
    ensures Split(Join(parts)) == parts
  {
    if |parts| == 1 {
      SplitCommaFree(parts[0]);
    } else {
      SplitJoin(parts[1..]);
      SplitAfterComma(parts[0], Join(parts[1..]));
    }
  }

  /** Every text is the join of its pieces, and the pieces hold no comma. */
  lemma {:induction false} JoinSplit(s: string)
    ensures Join(Split(s)) == s
    ensures forall i :: 0 <= i < |Split(s)| ==> ',' !in Split(s)[i]
  {
    if s != "" {
      JoinSplit(s[1..]);
      var rest := Split(s[1..]);
      assert s == [s[0]] + s[1..];
      if s[0] == ',' {
        assert Split(s)[1..] == rest;
      } else if |rest| > 1 {
        assert Split(s)[1..] == rest[1..];
        assert Join(rest) == rest[0] + "," + Join(rest[1..]);
      }
    }
  }

  /** A single name comes back as itself exactly when it holds no comma. */
  lemma SplitSingletonIff(s: string)
    ensures Split(s) == [s] <==> ',' !in s
  {
    JoinSplit(s);
    if ',' !in s {
      SplitCommaFree(s);
    }
  }
}
