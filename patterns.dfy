/** The two regular expressions of the address code, applied with Python's
    `re.match`, which anchors a pattern at the start of the text only:
      address  `([0-9]{1,3}\.){3}[0-9]{1,3}`
      CIDR     `([0-9]{1,3}\.){3}[0-9]{1,3}/[0-9]{2}`
    Digits and the separators `.` and `/` are disjoint, so every group before a
    separator must take the whole run of digits in front of it, and matching is
    deterministic. */
module Patterns {
  import opened Wrappers
  import opened PyText

  /** Length of the run of digits at the start of `s`. */
  function DigitRun(s: string): (n: nat)
    ensures n <= |s|
    ensures forall k :: 0 <= k < n ==> IsDigit(s[k])
    ensures n == |s| || !IsDigit(s[n])
    decreases |s|
  {
    if |s| > 0 && IsDigit(s[0]) then 1 + DigitRun(s[1..]) else 0
  }

  /** One `[0-9]{1,3}\.` group at the start of `s`; the text after it. */
  function DotGroup(s: string): (r: Option<string>)
    ensures r.Some? ==> |r.value| < |s|
  {
    var n := DigitRun(s);
    if 1 <= n <= 3 && n < |s| && s[n] == '.' then Some(s[n + 1..]) else None
  }

  /** `([0-9]{1,3}\.){3}` at the start of `s`; the text after it. */
  function ThreeGroups(s: string): Option<string>
  {
    match DotGroup(s)
    case None => None
    case Some(s1) =>
      match DotGroup(s1)
      case None => None
      case Some(s2) => DotGroup(s2)
  }

  /** `re.match` of the address pattern succeeds. */
  predicate MatchesIp(s: string)
  {
    match ThreeGroups(s)
    case None => false
    case Some(t) => DigitRun(t) >= 1
  }

  /** `re.match` of the CIDR pattern succeeds. */
  predicate MatchesCidr(s: string)
  {
    match ThreeGroups(s)
    case None => false
    case Some(t) => CidrTailShape(t)
  }

  /** A decimal field of one to three digits, as `[0-9]{1,3}` accepts. */
  predicate Numeral3(a: string) { 1 <= |a| <= 3 && AllDigits(a) }

  lemma {:induction false} RunOfNumeral(a: string, t: string)
    requires AllDigits(a)
    requires |t| == 0 || !IsDigit(t[0])
    ensures DigitRun(a + t) == |a|
    decreases |a|
  {
    if |a| > 0 {
      assert (a + t)[1..] == a[1..] + t;
      RunOfNumeral(a[1..], t);
    } else {
      assert a + t == t;
    }
  }

  lemma DotGroupOf(a: string, rest: string)
    requires Numeral3(a)
    ensures DotGroup(a + "." + rest) == Some(rest)
  {
    var s := a + "." + rest;
    assert s == a + ("." + rest);
    RunOfNumeral(a, "." + rest);
    assert s[|a| + 1..] == rest;
  }

  lemma DotGroupParts(s: string) returns (a: string)
    requires DotGroup(s).Some?
    ensures Numeral3(a) && s == a + "." + DotGroup(s).value
  {
    var n := DigitRun(s);
    a := s[..n];
    assert s == a + "." + s[n + 1..];
  }

  /** The address pattern matches exactly the texts that begin with three
      numerals of one to three digits, each followed by a dot, and then a digit:
      this direction shows such a text is matched. */
  lemma MatchesIpIntro(a: string, b: string, c: string, d: string, rest: string)
    requires Numeral3(a) && Numeral3(b) && Numeral3(c) && Numeral3(d)
    ensures MatchesIp(PyText.Join([a, b, c, d + rest], '.'))
  {
    var s3 := d + rest;
    ThreeGroupsOf(a, b, c, s3);
    assert IsDigit(s3[0]);
  }

  /** Three numerals, each followed by a dot, are what `ThreeGroups` consumes. */
  lemma ThreeGroupsOf(a: string, b: string, c: string, t: string)
    requires Numeral3(a) && Numeral3(b) && Numeral3(c)
    ensures ThreeGroups(Join([a, b, c, t], '.')) == Some(t)
  {
    JoinFour(a, b, c, t, '.');
    DotGroupOf(c, t);
    DotGroupOf(b, c + "." + t);
    DotGroupOf(a, b + "." + (c + "." + t));
  }

  /** ... and this direction shows every matched text has that shape. */
  lemma MatchesIpElim(s: string) returns (a: string, b: string, c: string, d: string, rest: string)
    requires MatchesIp(s)
    ensures Numeral3(a) && Numeral3(b) && Numeral3(c) && Numeral3(d)
    ensures s == Join([a, b, c, d + rest], '.')
  {
    var s1 := DotGroup(s).value;
    var s2 := DotGroup(s1).value;
    var s3 := DotGroup(s2).value;
    a := DotGroupParts(s);
    b := DotGroupParts(s1);
    c := DotGroupParts(s2);
    d, rest := s3[..1], s3[1..];
    assert s3 == d + rest;
    JoinFour(a, b, c, s3, '.');
  }

  /** The CIDR pattern matches exactly the texts that begin with a dotted quad
      of one-to-three-digit numerals, a slash and two digits. */
  lemma MatchesCidrIntro(a: string, b: string, c: string, d: string, m: string, rest: string)
    requires Numeral3(a) && Numeral3(b) && Numeral3(c) && Numeral3(d)
    requires |m| == 2 && AllDigits(m)
    ensures MatchesCidr(Join([a, b, c, d + "/" + m + rest], '.'))
  {
    var s3 := d + ("/" + m + rest);
    assert [a, b, c, d + "/" + m + rest] == [a, b, c, s3] by {
      assert d + "/" + m + rest == s3;
    }
    var s := Join([a, b, c, s3], '.');
    assert ThreeGroups(s) == Some(s3) by { ThreeGroupsOf(a, b, c, s3); }
    assert CidrTailShape(s3) by { CidrTailOf(d, m, rest); }
    assert MatchesCidr(s);
  }

  /** What `MatchesCidr` asks of the text after the three dotted groups. */
  predicate CidrTailShape(t: string)
  {
    var n := DigitRun(t);
    1 <= n <= 3 && n + 2 < |t| && t[n] == '/' && IsDigit(t[n + 1]) && IsDigit(t[n + 2])
  }

  lemma CidrTailOf(d: string, m: string, rest: string)
    requires Numeral3(d) && |m| == 2 && AllDigits(m)
    ensures CidrTailShape(d + ("/" + m + rest))
  {
    var t := d + ("/" + m + rest);
    assert "/" + m + rest == ['/', m[0], m[1]] + rest;
    assert t == d + ['/', m[0], m[1]] + rest;
    RunOfNumeral(d, "/" + m + rest);
    var n := |d|;
    assert t[n] == '/' && t[n + 1] == m[0] && t[n + 2] == m[1];
  }

  lemma MatchesCidrElim(s: string) returns (a: string, b: string, c: string, d: string, m: string, rest: string)
    requires MatchesCidr(s)
    ensures Numeral3(a) && Numeral3(b) && Numeral3(c) && Numeral3(d)
    ensures |m| == 2 && AllDigits(m)
    ensures s == Join([a, b, c, d + "/" + m + rest], '.')
  {
    var s1 := DotGroup(s).value;
    var s2 := DotGroup(s1).value;
    var s3 := DotGroup(s2).value;
    a := DotGroupParts(s);
    b := DotGroupParts(s1);
    c := DotGroupParts(s2);
    d, m, rest := CidrTail(s3);
    JoinFour(a, b, c, s3, '.');
  }

  /** The part of a CIDR match after the three dotted groups. */
  lemma CidrTail(t: string) returns (d: string, m: string, rest: string)
    requires CidrTailShape(t)
    ensures Numeral3(d) && |m| == 2 && AllDigits(m)
    ensures t == d + "/" + m + rest
  {
    var n := DigitRun(t);
    d, m, rest := t[..n], t[n + 1..n + 3], t[n + 3..];
    assert t == t[..n] + [t[n]] + t[n + 1..n + 3] + t[n + 3..];
    assert [t[n]] == "/";
  }

  /** `sep.join` of four parts, written out. */
  lemma JoinFour(a: string, b: string, c: string, d: string, sep: char)
    ensures Join([a, b, c, d], sep) == a + [sep] + (b + [sep] + (c + [sep] + d))
  {
    assert [a, b, c, d][1..] == [b, c, d];
    assert [b, c, d][1..] == [c, d];
    assert [c, d][1..] == [d];
    assert Join([d], sep) == d;
    assert Join([c, d], sep) == c + [sep] + d;
    assert Join([b, c, d], sep) == b + [sep] + (c + [sep] + d);
  }

  lemma NumeralHasNo(a: string, sep: char)
    requires AllDigits(a) && !IsDigit(sep)
    ensures sep !in a
  {
  }

  lemma ThreeNumeralsSplit(a: string, b: string, c: string, t: string, sep: char)
    requires AllDigits(a) && AllDigits(b) && AllDigits(c) && !IsDigit(sep)
    ensures Split(a + [sep] + (b + [sep] + (c + [sep] + t)), sep) == [a, b, c] + Split(t, sep)
  {
    NumeralHasNo(a, sep);
    NumeralHasNo(b, sep);
    NumeralHasNo(c, sep);
    var x3 := c + [sep] + t;
    var x2 := b + [sep] + x3;
    SplitAround(c, sep, t);
    SplitAround(b, sep, x3);
    SplitAround(a, sep, x2);
    var rt := Split(t, sep);
    assert Split(x3, sep) == [c] + rt;
    assert Split(x2, sep) == [b] + ([c] + rt);
    assert Split(a + [sep] + x2, sep) == [a] + ([b] + ([c] + rt));
    ConsThree(a, b, c, rt);
  }

  lemma ConsThree(a: string, b: string, c: string, r: seq<string>)
    ensures [a] + ([b] + ([c] + r)) == [a, b, c] + r
  {
  }

  /** A text the CIDR pattern accepts, split at its slashes and dots: the part
      before the first slash is a dotted quad of four numerals, and the part
      after it starts with the two mask digits. */
  lemma CidrFields(s: string) returns (a: string, b: string, c: string, d: string, m: string, rest: string)
    requires MatchesCidr(s)
    ensures Numeral3(a) && Numeral3(b) && Numeral3(c) && Numeral3(d)
    ensures |m| == 2 && AllDigits(m)
    ensures Split(s, '/') == [Join([a, b, c, d], '.')] + Split(m + rest, '/')
    ensures Split(Join([a, b, c, d], '.'), '.') == [a, b, c, d]
  {
    a, b, c, d, m, rest := MatchesCidrElim(s);
    var q := Join([a, b, c, d], '.');
    var tail := m + rest;
    assert s == q + "/" + tail by {
      Regroup(d, "/", m, rest);
      JoinFourAppend(a, b, c, d, "/" + tail, '.');
    }
    QuadHasNo(a, b, c, d, '/');
    assert Split(s, '/') == [q] + Split(tail, '/') by {
      SplitAround(q, '/', tail);
    }
    QuadSplit(a, b, c, d);
  }

  /** A dotted quad of numerals holds no other non-digit than its dots. */
  lemma QuadHasNo(a: string, b: string, c: string, d: string, ch: char)
    requires AllDigits(a) && AllDigits(b) && AllDigits(c) && AllDigits(d)
    requires !IsDigit(ch) && ch != '.'
    ensures ch !in Join([a, b, c, d], '.')
  {
    NumeralHasNo(a, ch);
    NumeralHasNo(b, ch);
    NumeralHasNo(c, ch);
    NumeralHasNo(d, ch);
    JoinFour(a, b, c, d, '.');
    NotInJoined(c, '.', d, ch);
    NotInJoined(b, '.', c + "." + d, ch);
    NotInJoined(a, '.', b + "." + (c + "." + d), ch);
  }

  /** A dotted quad of numerals splits at its dots into the numerals. */
  lemma QuadSplit(a: string, b: string, c: string, d: string)
    requires AllDigits(a) && AllDigits(b) && AllDigits(c) && AllDigits(d)
    ensures Split(Join([a, b, c, d], '.'), '.') == [a, b, c, d]
  {
    JoinFour(a, b, c, d, '.');
    ThreeNumeralsSplit(a, b, c, d, '.');
    NumeralHasNo(d, '.');
    assert [a, b, c] + [d] == [a, b, c, d];
  }

  lemma Regroup(w: string, x: string, y: string, z: string)
    ensures w + x + y + z == w + (x + (y + z))
  {
  }

  lemma NotInJoined(x: string, sep: char, y: string, ch: char)
    requires ch !in x && ch !in y && ch != sep
    ensures ch !in x + [sep] + y
  {
  }

  lemma JoinFourAppend(a: string, b: string, c: string, d: string, t: string, sep: char)
    ensures Join([a, b, c, d + t], sep) == Join([a, b, c, d], sep) + t
  {
    JoinFour(a, b, c, d + t, sep);
    JoinFour(a, b, c, d, sep);
    var x := c + [sep] + d;
    assert c + [sep] + (d + t) == x + t;
    var y := b + [sep] + x;
    assert b + [sep] + (x + t) == y + t;
    assert a + [sep] + (y + t) == (a + [sep] + y) + t;
  }

  /** Both patterns need their separators. */
  lemma PatternsNeedSeparators(s: string)
    ensures MatchesCidr(s) ==> '/' in s
    ensures MatchesIp(s) ==> '.' in s
  {
    if MatchesCidr(s) {
      var a, b, c, d, m, rest := MatchesCidrElim(s);
      JoinFour(a, b, c, d + "/" + m + rest, '.');
      assert s[|a| + |b| + |c| + |d| + 3] == '/';
    }
    if MatchesIp(s) {
      var a, b, c, d, rest := MatchesIpElim(s);
      JoinFour(a, b, c, d + rest, '.');
      assert s[|a|] == '.';
    }
  }
}
