/** The Python string built-ins the address code relies on: `str.split`,
    `str.join`, `str(n)` and `int(text)`, over ASCII text. */
module PyText {
  import opened Wrappers

  predicate IsDigit(c: char) { '0' <= c <= '9' }

  predicate AllDigits(s: string) { forall i :: 0 <= i < |s| ==> IsDigit(s[i]) }

  /** The characters Python's `str.strip()` and `int()` skip around a numeral. */
  predicate IsSpace(c: char) {
    c == ' ' || c == '\t' || c == '\n' || c == '\r' || c == '\U{B}' || c == '\U{C}'
  }

  function DigitValue(c: char): (d: nat)
    requires IsDigit(c)
    ensures d < 10
  {
    c as int - '0' as int
  }

  function DigitChar(d: nat): (c: char)
    requires d < 10
    ensures IsDigit(c) && DigitValue(c) == d
  {
    ('0' as int + d) as char
  }

  /** The value of a decimal numeral, most significant digit first. */
  function DecimalValue(s: string): nat
    requires AllDigits(s)
    decreases |s|
  {
    if s == [] then 0 else 10 * DecimalValue(s[..|s| - 1]) + DigitValue(s[|s| - 1])
  }

  /** `str(n)` for a non-negative integer: the shortest decimal numeral of `n`. */
  function NatToDecimal(n: nat): (r: string)
    ensures 1 <= |r| && AllDigits(r)
    ensures |r| > 1 ==> r[0] != '0'
    ensures DecimalValue(r) == n
    ensures n < 10 <==> |r| == 1
    decreases n
  {
    if n < 10 then [DigitChar(n)]
    else
      var q := NatToDecimal(n / 10);
      var r := q + [DigitChar(n % 10)];
      assert r[..|r| - 1] == q;
      assert DecimalValue(r) == 10 * (n / 10) + n % 10;
      r
  }

  /** `str` prints at most three digits for a value below 1000. */
  lemma DecimalLength(n: nat)
    ensures n < 100 ==> |NatToDecimal(n)| <= 2
    ensures n < 1000 ==> |NatToDecimal(n)| <= 3
  {
    if 10 <= n < 1000 {
      assert n / 10 < 100;
      if n / 10 >= 10 {
        assert n / 10 / 10 < 10;
      }
    }
  }

  /** `str(i)` for any integer. */
  function IntToDecimal(i: int): (r: string)
    ensures i >= 0 ==> r == NatToDecimal(i)
    ensures i < 0 ==> r == "-" + NatToDecimal(-i)
  {
    if i < 0 then "-" + NatToDecimal(-i) else NatToDecimal(i)
  }

  /** A numeral as `str` prints it: digits without a superfluous leading zero. */
  predicate IsCanonicalNumeral(s: string)
  {
    1 <= |s| && AllDigits(s) && (|s| > 1 ==> s[0] != '0')
  }

  /** A numeral without a superfluous leading zero is exactly what `str` prints
      for its value. */
  lemma {:induction false} CanonicalNumeral(s: string)
    requires 1 <= |s| && AllDigits(s) && (|s| > 1 ==> s[0] != '0')
    ensures NatToDecimal(DecimalValue(s)) == s
    decreases |s|
  {
    if |s| > 1 {
      var init := s[..|s| - 1];
      LeadingDigitPositive(init);
      CanonicalNumeral(init);
      var v := DecimalValue(s);
      assert v / 10 == DecimalValue(init) && v % 10 == DigitValue(s[|s| - 1]);
      assert NatToDecimal(v) == NatToDecimal(v / 10) + [DigitChar(v % 10)];
    }
  }

  lemma {:induction false} LeadingDigitPositive(s: string)
    requires 1 <= |s| && AllDigits(s) && s[0] != '0'
    ensures DecimalValue(s) >= 1
    decreases |s|
  {
    if |s| > 1 {
      LeadingDigitPositive(s[..|s| - 1]);
    }
  }

  /** Python's `str.split(sep)`: every occurrence of `sep` separates two fields,
      so there is always one field more than there are separators. */
  function Split(s: string, sep: char): (r: seq<string>)
    ensures |r| >= 1
    ensures sep !in s ==> r == [s]
    decreases |s|
  {
    if s == [] then [""]
    else
      var rest := Split(s[1..], sep);
      assert sep !in s ==> sep !in s[1..] && [s[0]] + s[1..] == s;
      if s[0] == sep then [""] + rest
      else [[s[0]] + rest[0]] + rest[1..]
  }

  /** A two-element list, written out. */
  lemma TwoItems<T>(xs: seq<T>)
    requires |xs| == 2
    ensures xs == [xs[0], xs[1]]
  {
  }

  /** A four-element list, written out. */
  lemma FourItems<T>(xs: seq<T>)
    requires |xs| == 4
    ensures xs == [xs[0], xs[1], xs[2], xs[3]]
  {
  }

  /** `sep.join(parts)`. */
  function Join(parts: seq<string>, sep: char): string
    decreases |parts|
  {
    if parts == [] then ""
    else if |parts| == 1 then parts[0]
    else parts[0] + [sep] + Join(parts[1..], sep)
  }

  /** One unfolding of `Split` on a leading character. */
  lemma SplitCons(c: char, t: string, sep: char)
    ensures Split([c] + t, sep) ==
      if c == sep then [""] + Split(t, sep)
      else [[c] + Split(t, sep)[0]] + Split(t, sep)[1..]
  {
    assert ([c] + t)[0] == c && ([c] + t)[1..] == t;
  }

  /** Splitting distributes over a separator. */
  lemma {:induction false} SplitAround(a: string, sep: char, b: string)
    ensures Split(a + [sep] + b, sep) == Split(a, sep) + Split(b, sep)
    decreases |a|
  {
    if a == [] {
      assert a + [sep] + b == [sep] + b;
      SplitCons(sep, b, sep);
    } else {
      var t := a[1..];
      assert a == [a[0]] + t;
      assert a + [sep] + b == [a[0]] + (t + [sep] + b);
      SplitAround(t, sep, b);
      SplitCons(a[0], t + [sep] + b, sep);
      SplitCons(a[0], t, sep);
      FieldsAppend(a[0], sep, Split(t, sep), Split(b, sep));
    }
  }

  /** The list algebra behind `SplitAround`: gluing a leading character onto
      the first field commutes with appending further fields. */
  lemma FieldsAppend(c: char, sep: char, ra: seq<string>, rb: seq<string>)
    requires |ra| >= 1
    ensures c != sep ==>
      [[c] + (ra + rb)[0]] + (ra + rb)[1..] == ([[c] + ra[0]] + ra[1..]) + rb
    ensures [""] + (ra + rb) == ([""] + ra) + rb
  {
    assert (ra + rb)[0] == ra[0];
    assert (ra + rb)[1..] == ra[1..] + rb;
  }

  /** `str.split` undoes `str.join` when no part holds the separator. */
  lemma {:induction false} SplitJoin(parts: seq<string>, sep: char)
    requires |parts| >= 1
    requires forall i :: 0 <= i < |parts| ==> sep !in parts[i]
    ensures Split(Join(parts, sep), sep) == parts
    decreases |parts|
  {
    if |parts| > 1 {
      SplitJoin(parts[1..], sep);
      SplitAround(parts[0], sep, Join(parts[1..], sep));
    }
  }

  function StripLeft(s: string): (r: string)
    ensures |r| <= |s|
    decreases |s|
  {
    if |s| > 0 && IsSpace(s[0]) then StripLeft(s[1..]) else s
  }

  function StripRight(s: string): (r: string)
    ensures |r| <= |s|
    decreases |s|
  {
    if |s| > 0 && IsSpace(s[|s| - 1]) then StripRight(s[..|s| - 1]) else s
  }

  /** Python's `int(text)` on a `str`: surrounding white space is skipped, one
      optional sign, then one or more ASCII digits; anything else raises
      ValueError, modelled as `None`. */
  function PyInt(t: string): (r: Option<int>)
    ensures r.Some? && |t| > 0 && IsDigit(t[0]) ==> r.value >= 0
  {
    var u := StripRight(StripLeft(t));
    StripKeepsDigitHead(t);
    if |u| >= 2 && (u[0] == '+' || u[0] == '-') && AllDigits(u[1..]) then
      var v: int := DecimalValue(u[1..]);
      Some(if u[0] == '-' then -v else v)
    else if |u| >= 1 && AllDigits(u) then Some(DecimalValue(u))
    else None
  }

  lemma StripKeepsDigitHead(t: string)
    ensures |t| > 0 && IsDigit(t[0]) && |StripRight(StripLeft(t))| > 0 ==> IsDigit(StripRight(StripLeft(t))[0])
  {
    if |t| > 0 && IsDigit(t[0]) {
      assert StripLeft(t) == t;
      StripRightKeepsHead(t);
    }
  }

  lemma {:induction false} StripRightKeepsHead(s: string)
    ensures |StripRight(s)| > 0 ==> StripRight(s) == s[..|StripRight(s)|]
    decreases |s|
  {
    if |s| > 0 && IsSpace(s[|s| - 1]) {
      StripRightKeepsHead(s[..|s| - 1]);
    }
  }

  /** `int` reads back what `str` prints. */
  lemma PyIntOfDecimal(n: nat)
    ensures PyInt(NatToDecimal(n)) == Some(n)
  {
    var s := NatToDecimal(n);
    assert StripLeft(s) == s;
    assert StripRight(s) == s;
  }

  /** Python 3's `list(map(int, fields))`: every field converted, or ValueError. */
  function PyIntAll(fields: seq<string>): (r: Option<seq<int>>)
    ensures r.Some? <==> forall i :: 0 <= i < |fields| ==> PyInt(fields[i]).Some?
    ensures r.Some? ==> |r.value| == |fields|
    ensures r.Some? ==> forall i :: 0 <= i < |fields| ==> PyInt(fields[i]) == Some(r.value[i])
    decreases |fields|
  {
    if fields == [] then Some([])
    else
      var head := PyInt(fields[0]);
      var tail := PyIntAll(fields[1..]);
      assert forall i :: 1 <= i < |fields| ==> fields[i] == fields[1..][i - 1];
      if head.Some? && tail.Some? then Some([head.value] + tail.value) else None
  }

  /** `list(map(int, fields))` succeeds with the values of the fields. */
  lemma PyIntAllOf(fields: seq<string>, vs: seq<int>)
    requires |fields| == |vs|
    requires forall i :: 0 <= i < |fields| ==> PyInt(fields[i]) == Some(vs[i])
    ensures PyIntAll(fields) == Some(vs)
  {
    var r := PyIntAll(fields);
    assert r.Some?;
    assert r.value == vs;
  }

  lemma PyIntAllFour(a: string, b: string, c: string, d: string, va: int, vb: int, vc: int, vd: int)
    requires PyInt(a) == Some(va) && PyInt(b) == Some(vb)
    requires PyInt(c) == Some(vc) && PyInt(d) == Some(vd)
    ensures PyIntAll([a, b, c, d]) == Some([va, vb, vc, vd])
  {
    var fs, vs := [a, b, c, d], [va, vb, vc, vd];
    forall i | 0 <= i < 4 ensures PyInt(fs[i]) == Some(vs[i]) {
      if i == 0 {} else if i == 1 {} else if i == 2 {} else {}
    }
    PyIntAllOf(fs, vs);
  }

  /** `int` of a plain numeral is its decimal value. */
  lemma PyIntOfDigits(s: string)
    requires 1 <= |s| && AllDigits(s)
    ensures PyInt(s) == Some(DecimalValue(s))
  {
    assert StripLeft(s) == s;
    assert StripRight(s) == s;
  }

  /** `str.join` undoes `str.split`. */
  lemma {:induction false} JoinSplit(s: string, sep: char)
    ensures Join(Split(s, sep), sep) == s
    decreases |s|
  {
    if s != [] {
      JoinSplit(s[1..], sep);
      SplitCons(s[0], s[1..], sep);
      JoinCons(s[0], Split(s[1..], sep), sep);
      assert [s[0]] + s[1..] == s;
    }
  }

  /** `Join` of the fields `SplitCons` builds from a leading character. */
  lemma JoinCons(c: char, rest: seq<string>, sep: char)
    requires |rest| >= 1
    ensures c != sep ==> Join([[c] + rest[0]] + rest[1..], sep) == [c] + Join(rest, sep)
    ensures Join([""] + rest, sep) == [sep] + Join(rest, sep)
  {
    var r := [[c] + rest[0]] + rest[1..];
    if |rest| > 1 {
      assert r[1..] == rest[1..];
      assert Join(r, sep) == r[0] + [sep] + Join(rest[1..], sep);
    }
    assert ([""] + rest)[1..] == rest;
  }

  lemma {:induction false} StripKeeps(t: string, ch: char)
    requires !IsSpace(ch) && ch in t
    ensures ch in StripLeft(t) && ch in StripRight(t)
    decreases |t|
  {
    if IsSpace(t[0]) {
      assert ch in t[1..];
      StripKeeps(t[1..], ch);
    }
    if IsSpace(t[|t| - 1]) {
      assert ch in t[..|t| - 1];
      StripKeeps(t[..|t| - 1], ch);
    }
  }

  /** A text `int` accepts holds only white space, signs and digits. */
  lemma PyIntChars(t: string, ch: char)
    requires PyInt(t).Some?
    requires !IsSpace(ch) && !IsDigit(ch) && ch != '+' && ch != '-'
    ensures ch !in t
  {
    if ch in t {
      StripKeeps(t, ch);
      StripKeeps(StripLeft(t), ch);
      assert false;
    }
  }

  /** A character in none of the parts, and not the separator, is not in
      the joined text. */
  lemma {:induction false} NotInJoin(parts: seq<string>, sep: char, ch: char)
    requires ch != sep
    requires forall i :: 0 <= i < |parts| ==> ch !in parts[i]
    ensures ch !in Join(parts, sep)
    decreases |parts|
  {
    if |parts| > 1 {
      NotInJoin(parts[1..], sep, ch);
    }
  }

  /** The first field of a split starts with the text's first character
      when that is not the separator. */
  lemma SplitHead(s: string, sep: char)
    requires |s| > 0 && s[0] != sep
    ensures |Split(s, sep)[0]| > 0 && Split(s, sep)[0][0] == s[0]
  {
  }

  /** Joining two parts puts the separator between them. */
  lemma JoinTwo(a: string, b: string, sep: char)
    ensures Join([a, b], sep) == a + [sep] + b
  {
    assert [a, b][1..] == [b];
  }
}
