/** Home directory patterns: the one-flag scanner and its token-based meaning. */
module HomeDir {
  import opened Basics

  /** EmptyUsername is the out-of-range panic of taking the first byte of "". */
  datatype HomeError = BadModifier(c: char) | EmptyUsername

  type Expansion = Result<string, HomeError>

  /** string(username[0]): the first UTF-8 byte of the name, read as a code point. */
  function FirstByte(username: string): (s: string)
    requires username != ""
    ensures username[0] < '\U{80}' ==> s == [username[0]]
  {
    var c := username[0] as int;
    if c < 0x80 then [c as char]
    else if c < 0x800 then [(0xC0 + c / 0x40) as char]
    else if c < 0x1_0000 then [(0xE0 + c / 0x1000) as char]
    else [(0xF0 + c / 0x4_0000) as char]
  }

  /** strings.Cut(s, "@"): the parts around the first separator. */
  function CutAt(s: string): (parts: (string, string))
    ensures '@' !in parts.0
    ensures s == if '@' in s then parts.0 + "@" + parts.1 else parts.0
    ensures '@' !in s ==> parts.1 == ""
  {
    if s == "" then ("", "")
    else if s[0] == '@' then ("", s[1..])
    else
      var (user, domain) := CutAt(s[1..]);
      ([s[0]] + user, domain)
  }

  /** parseHomeDirPattern. */
  function Value(c: char, username: string, uid: string): Expansion {
    match c
    case 'f' => Ok(username)
    case 'U' => Ok(uid)
    case 'l' => if username == "" then Err(EmptyUsername) else Ok(FirstByte(username))
    case 'u' => Ok(CutAt(username).0)
    case 'd' => Ok(CutAt(username).1)
    case _ => Err(BadModifier(c))
  }

  datatype Token = Literal(c: char) | Modifier(c: char)

  /** A pattern read from the left; a final lone % stands for nothing. */
  function Tokens(pattern: string): seq<Token> {
    if pattern == "" then []
    else if pattern[0] != '%' then [Literal(pattern[0])] + Tokens(pattern[1..])
    else if |pattern| == 1 then []
    else if pattern[1] == '%' then [Literal('%')] + Tokens(pattern[2..])
    else [Modifier(pattern[1])] + Tokens(pattern[2..])
  }

  function Meaning(t: Token, username: string, uid: string): Expansion {
    match t
    case Literal(c) => Ok([c])
    case Modifier(c) => Value(c, username, uid)
  }

  /** Left-to-right sequencing; the first failure wins. */
  function Then(first: Expansion, second: Expansion): Expansion {
    if first.Err? then first else if second.Err? then second else Ok(first.value + second.value)
  }

  lemma ThenMonoid(a: Expansion, b: Expansion, c: Expansion)
    ensures Then(Then(a, b), c) == Then(a, Then(b, c))
    ensures Then(Ok(""), a) == a == Then(a, Ok(""))
  {
    if a.Ok? {
      assert "" + a.value == a.value == a.value + "";
      if b.Ok? && c.Ok? {
        assert a.value + b.value + c.value == a.value + (b.value + c.value);
      }
    }
  }

  function Render(tokens: seq<Token>, username: string, uid: string): Expansion {
    if tokens == [] then Ok("")
    else Then(Meaning(tokens[0], username, uid), Render(tokens[1..], username, uid))
  }

  function Expand(pattern: string, username: string, uid: string): Expansion {
    Render(Tokens(pattern), username, uid)
  }

  /** What the scanner still has to produce: a pending % belongs to the rest. */
  function Remaining(pending: bool, rest: string, username: string, uid: string): Expansion {
    Expand(if pending then "%" + rest else rest, username, uid)
  }

  lemma ScanStep(pending: bool, rest: string, username: string, uid: string)
    requires rest != ""
    ensures
      Remaining(pending, rest, username, uid) ==
      if rest[0] == '%' && !pending then Remaining(true, rest[1..], username, uid)
      else Then(if pending && rest[0] != '%' then Value(rest[0], username, uid) else Ok([rest[0]]),
                Remaining(false, rest[1..], username, uid))
  {
    assert !pending && rest[0] == '%' ==> "%" + rest[1..] == rest;
    assert ("%" + rest)[2..] == rest[1..];
  }

  /** parseHomeDir: the loop with one flag computes the token-based meaning. */
  method ParseHomeDir(pattern: string, username: string, uid: string) returns (home: Expansion)
    ensures home == Expand(pattern, username, uid)
  {
    var afterModifier, path := false, "";
    var i := 0;
    ThenMonoid(Expand(pattern, username, uid), Ok(""), Ok(""));
    assert pattern[0..] == pattern;
    while i < |pattern|
      invariant 0 <= i <= |pattern|
      invariant Expand(pattern, username, uid)
             == Then(Ok(path), Remaining(afterModifier, pattern[i..], username, uid))
    {
      ScanStep(afterModifier, pattern[i..], username, uid);
      assert pattern[i..][1..] == pattern[i + 1..];
      var c := pattern[i];
      i := i + 1;
      if c == '%' && !afterModifier {
        afterModifier := true;
        continue;
      } else if c == '%' && afterModifier {
        afterModifier := false;
      }
      var s := [c];
      if afterModifier {
        var value := Value(c, username, uid);
        if value.Err? {
          return value;
        }
        s := value.value;
      }
      ThenMonoid(Ok(path), Ok(s), Remaining(false, pattern[i..], username, uid));
      afterModifier := false;
      path := path + s;
    }
    assert Expand(pattern, username, uid) == Then(Ok(path), Ok(""));
    ThenMonoid(Ok(path), Ok(""), Ok(""));
    home := Ok(path);
  }

  /** Length of the run of % that ends just before position i. */
  function RunBefore(p: string, i: nat): nat
    requires i <= |p|
  {
    if i == 0 || p[i - 1] != '%' then 0 else 1 + RunBefore(p, i - 1)
  }

  /** An odd run leaves its last % unescaped. */
  predicate Dangling(p: string) {
    RunBefore(p, |p|) % 2 == 1
  }

  /** Position i holds a character that an unescaped % cannot be followed by. */
  predicate BadAt(p: string, i: int, username: string) {
    && 0 <= i < |p|
    && p[i] != '%'
    && RunBefore(p, i) % 2 == 1
    && (p[i] !in "fUlud" || (p[i] == 'l' && username == ""))
  }

  /** How many characters the first token of a pattern takes. */
  function Width(p: string): (k: nat)
    requires p != ""
    ensures 1 <= k <= 2 && (k == 2 ==> p[0] == '%') && (k == 1 && |p| > 1 ==> p[0] != '%')
    ensures k <= |p|
  {
    if p[0] != '%' || |p| == 1 then 1 else 2
  }

  /** Removing a whole leading token keeps the parity of every later run. */
  lemma {:induction false} RunAfterToken(p: string, i: nat)
    requires p != "" && p != "%" && Width(p) + i <= |p|
    ensures RunBefore(p, Width(p) + i) % 2 == RunBefore(p[Width(p)..], i) % 2
  {
    if i > 0 {
      RunAfterToken(p, i - 1);
    } else if Width(p) == 2 && p[1] == '%' {
      assert RunBefore(p, 1) == 1 + RunBefore(p, 0) == 1;
      assert RunBefore(p, 2) == 1 + RunBefore(p, 1);
    }
  }

  lemma ExpandToken(p: string, username: string, uid: string)
    requires p != "" && p != "%"
    ensures var t := Tokens(p);
      && t != [] && Tokens(p[Width(p)..]) == t[1..]
      && t[0] == (if Width(p) == 1 || p[1] == '%' then Literal(p[0]) else Modifier(p[1]))
      && Expand(p, username, uid) == Then(Meaning(t[0], username, uid), Expand(p[Width(p)..], username, uid))
  {
  }

  /** Expansion fails exactly when some unescaped % is followed by a wrong character. */
  lemma {:induction false} FailsIff(p: string, username: string, uid: string)
    ensures Expand(p, username, uid).Err? <==> exists i :: BadAt(p, i, username)
    decreases |p|
  {
    if p == "" {
    } else if p == "%" {
      assert !BadAt(p, 0, username);
    } else {
      var k := Width(p);
      ExpandToken(p, username, uid);
      FailsIff(p[k..], username, uid);
      forall i | k <= i < |p| ensures BadAt(p, i, username) <==> BadAt(p[k..], i - k, username) {
        RunAfterToken(p, i - k);
      }
      if Expand(p, username, uid).Err? {
        if Expand(p[k..], username, uid).Err? {
          var j :| BadAt(p[k..], j, username);
          assert BadAt(p, j + k, username);
        } else {
          assert RunBefore(p, 1) == 1 + RunBefore(p, 0);
          assert BadAt(p, 1, username);
        }
      }
      if i :| BadAt(p, i, username) {
        if i >= k {
          assert BadAt(p[k..], i - k, username);
        } else {
          assert i == 1;
          assert p[1] != '%';
        }
      }
    }
  }

  /** Without a dangling % on the left, expansion distributes over concatenation. */
  lemma {:induction false} ExpandConcat(a: string, b: string, username: string, uid: string)
    requires !Dangling(a)
    ensures Expand(a + b, username, uid) == Then(Expand(a, username, uid), Expand(b, username, uid))
    decreases |a|
  {
    if a == "" {
      assert a + b == b;
      ThenMonoid(Expand(b, username, uid), Ok(""), Ok(""));
    } else {
      assert a != "%" by { assert RunBefore("%", 1) == 1 + RunBefore("%", 0); }
      var k := Width(a);
      RunAfterToken(a, |a| - k);
      assert Width(a + b) == k && (a + b)[k..] == a[k..] + b;
      ExpandToken(a, username, uid);
      ExpandToken(a + b, username, uid);
      ExpandConcat(a[k..], b, username, uid);
      ThenMonoid(Meaning(Tokens(a)[0], username, uid), Expand(a[k..], username, uid), Expand(b, username, uid));
    }
  }

  /** A dangling % swallows the first character of what follows. */
  lemma {:induction false} ExpandDangling(a: string, b: string, username: string, uid: string)
    requires Dangling(a)
    ensures Expand(a + b, username, uid) == Then(Expand(a, username, uid), Expand("%" + b, username, uid))
    decreases |a|
  {
    assert a != "";
    if a != "%" {
      var k := Width(a);
      RunAfterToken(a, |a| - k);
      assert Width(a + b) == k && (a + b)[k..] == a[k..] + b;
      ExpandToken(a, username, uid);
      ExpandToken(a + b, username, uid);
      ExpandDangling(a[k..], b, username, uid);
      ThenMonoid(Meaning(Tokens(a)[0], username, uid), Expand(a[k..], username, uid), Expand("%" + b, username, uid));
    } else {
      assert Tokens(a) == [];
      ThenMonoid(Expand("%" + b, username, uid), Ok(""), Ok(""));
    }
  }

  ghost predicate Distributes(a: string, username: string, uid: string) {
    forall b: string ::
      Expand(a + b, username, uid) == Then(Expand(a, username, uid), Expand(b, username, uid))
  }

  /** Distribution over every right part holds exactly for failing or non-dangling left parts. */
  lemma DistributesIff(a: string, username: string, uid: string)
    ensures Distributes(a, username, uid) <==> Expand(a, username, uid).Err? || !Dangling(a)
  {
    forall b: string
      ensures !Dangling(a) || Expand(a, username, uid).Err? ==>
        Expand(a + b, username, uid) == Then(Expand(a, username, uid), Expand(b, username, uid))
    {
      if Dangling(a) {
        ExpandDangling(a, b, username, uid);
      } else {
        ExpandConcat(a, b, username, uid);
      }
    }
    if Dangling(a) && Expand(a, username, uid).Ok? {
      ExpandDangling(a, "%", username, uid);
      EscapeRoundTrip("%", username, uid);
      assert Escape("%") == "%%" + Escape("%"[1..]) == "%" + "%";
      var path := Expand(a, username, uid).value;
      assert Expand(a + "%", username, uid) == Ok(path + "%");
      assert Then(Ok(path), Expand("%", username, uid)) == Ok(path + "");
    }
  }

  /** Every % of a literal path doubled. */
  function Escape(path: string): string {
    if path == "" then ""
    else (if path[0] == '%' then "%%" else [path[0]]) + Escape(path[1..])
  }

  /** Escaping any path and expanding it gives the path back. */
  lemma {:induction false} EscapeRoundTrip(path: string, username: string, uid: string)
    ensures Expand(Escape(path), username, uid) == Ok(path)
  {
    if path != "" {
      var e := Escape(path);
      EscapeRoundTrip(path[1..], username, uid);
      assert e[Width(e)..] == Escape(path[1..]);
      ExpandToken(e, username, uid);
      assert path == [path[0]] + path[1..];
    }
  }

  /** %l is the first letter of the name only for ASCII letters and for U+00C3, its own lead byte. */
  lemma FirstLetterIff(username: string)
    requires username != ""
    ensures FirstByte(username) == [username[0]] <==> username[0] < '\U{80}' || username[0] == '\U{C3}'
  {
  }

  /** Beyond ASCII, %l is the lead byte of the UTF-8 encoding: with the right continuation it decodes to the letter. */
  lemma LeadByteDecodes(username: string)
    requires username != ""
    ensures |FirstByte(username)| == 1
    ensures var (c, b) := (username[0] as int, FirstByte(username)[0] as int);
      && (c < 0x80 ==> b == c)
      && (0x80 <= c < 0x800 ==> 0xC0 <= b < 0xE0 && 0 <= c - (b - 0xC0) * 0x40 < 0x40)
      && (0x800 <= c < 0x1_0000 ==> 0xE0 <= b < 0xF0 && 0 <= c - (b - 0xE0) * 0x1000 < 0x1000)
      && (0x1_0000 <= c ==> 0xF0 <= b < 0xF8 && 0 <= c - (b - 0xF0) * 0x4_0000 < 0x4_0000)
  {
  }

  /** A pattern of one modifier means that modifier's value. */
  lemma LoneModifier(c: char, username: string, uid: string)
    requires c != '%'
    ensures Expand(['%', c], username, uid) == Value(c, username, uid)
  {
    ExpandToken(['%', c], username, uid);
    ThenMonoid(Value(c, username, uid), Ok(""), Ok(""));
  }

  lemma AroundLiteral(a: string, c: char, b: string, username: string, uid: string, x: string, y: string)
    requires !Dangling(a) && c != '%' && Expand(a, username, uid) == Ok(x) && Expand(b, username, uid) == Ok(y)
    ensures Expand(a + [c] + b, username, uid) == Ok(x + [c] + y)
  {
    ExpandLiteral(c, b, username, uid);
    ExpandConcat(a, [c] + b, username, uid);
    assert a + [c] + b == a + ([c] + b) && x + [c] + y == x + ([c] + y);
  }

  /** %u@%d puts the parts around the first @ together again. */
  lemma UserAtDomain(username: string, uid: string)
    ensures Expand("%u@%d", username, uid) == Ok(CutAt(username).0 + "@" + CutAt(username).1)
  {
    LoneModifier('u', username, uid);
    LoneModifier('d', username, uid);
    NotDangling('u');
    AroundLiteral(['%', 'u'], '@', ['%', 'd'], username, uid, CutAt(username).0, CutAt(username).1);
    assert "%u@%d" == ['%', 'u'] + ['@'] + ['%', 'd'];
  }

  lemma NotDangling(c: char)
    requires c != '%'
    ensures !Dangling(['%', c])
  {
  }

  lemma ExpandLiteral(c: char, rest: string, username: string, uid: string)
    requires c != '%'
    ensures Expand([c] + rest, username, uid) == Then(Ok([c]), Expand(rest, username, uid))
  {
    assert ([c] + rest)[1..] == rest && ([c] + rest)[0] == c;
    ExpandToken([c] + rest, username, uid);
  }

  lemma RebuildsIff(username: string)
    ensures CutAt(username).0 + "@" + CutAt(username).1 == username <==> '@' in username
  {
    assert (CutAt(username).0 + "@" + CutAt(username).1)[|CutAt(username).0|] == '@';
  }

  /** The modifiers, told apart: %f is the name, %U the id, %u and %d the parts around the first @. */
  lemma ModifierMeanings(username: string, uid: string)
    ensures Expand("%f", username, uid) == Ok(username)
    ensures Expand("%U", username, uid) == Ok(uid)
    ensures Expand("%u", username, uid) == Ok(CutAt(username).0)
    ensures Expand("%d", username, uid) == Ok(CutAt(username).1)
    ensures username != "" ==> Expand("%l", username, uid) == Ok(FirstByte(username))
  {
    LoneModifier('f', username, uid);
    LoneModifier('U', username, uid);
    LoneModifier('l', username, uid);
    LoneModifier('u', username, uid);
    LoneModifier('d', username, uid);
  }

  /** %u@%d is the name if and only if the name has a domain. */
  lemma UserAtDomainIff(username: string, uid: string)
    ensures Expand("%u@%d", username, uid) == Ok(username) <==> '@' in username
  {
    UserAtDomain(username, uid);
    RebuildsIff(username);
  }
}
