/** The older, top-level `iputils` module, the one the longest-prefix example
    script imports. It shares the patterns and the bit layout of the package
    version but checks less: no octet range check, no check on the prefix
    length, no clearing of host bits, and an address prints back as the very
    text it was built from. Failed `assert`s and the errors `int` and
    `index(True)` raise are all `None` here. */
module LegacyIpUtils {
  import opened Wrappers
  import opened PyText
  import opened Patterns
  import opened Bits
  import IpUtils

  /** `IP`: the text it was built from (`ip`) and its bits (`bits`). */
  datatype Ip = Ip(ip: string, bits: seq<bool>)

  /** `CIDRBlock`: the address before the slash, kept as written, and the
      prefix length `mask`. */
  datatype CidrBlock = CidrBlock(ip: Ip, mask: nat)

  /** What `ip_parser` returns. */
  datatype Parsed = Address(ip: Ip) | Block(block: CidrBlock)

  /** `binary_repr(v, width=8)` gives exactly eight bits for -128..255:
      the value itself, or its two's complement when negative. */
  predicate FieldsInRange(vs: seq<int>)
  {
    forall i :: 0 <= i < |vs| ==> -128 <= vs[i] <= 255
  }

  /** The constructor is modelled on texts whose fields, when `int` reads
      them all, all fit in eight bits. */
  predicate FieldsFit(addr: string)
  {
    var vs := PyIntAll(Split(addr, '.'));
    vs.Some? ==> FieldsInRange(vs.value)
  }

  /** The octet whose eight bits `binary_repr(v, width=8)` writes: the one
      value in 0..255 congruent to `v` modulo 256. */
  function FieldOctet(v: int): (o: int)
    requires -128 <= v <= 255
    ensures 0 <= o <= 255 && o % 256 == v % 256
    ensures 0 <= v ==> o == v
  {
    if v < 0 then v + 256 else v
  }

  /** The octet of every field. */
  function FieldOctets(vs: seq<int>): (os: seq<int>)
    requires FieldsInRange(vs)
    ensures |os| == |vs| && AllOctets(os)
    ensures forall i :: 0 <= i < |vs| ==> os[i] == FieldOctet(vs[i])
  {
    seq(|vs|, i requires 0 <= i < |vs| => FieldOctet(vs[i]))
  }

  /** What `IP(addr)` accepts: the address pattern at the start (the
      `assert`) and every dot-separated field readable by `int`. */
  predicate Accepts(addr: string)
  {
    MatchesIp(addr) && PyIntAll(Split(addr, '.')).Some?
  }

  /** The bits of an accepted text: every field, in order, as eight bits. */
  function AddressBits(addr: string): (b: seq<bool>)
    requires Accepts(addr) && FieldsFit(addr)
    ensures |b| == 8 * |Split(addr, '.')|
  {
    OctetsToBits(FieldOctets(PyIntAll(Split(addr, '.')).value))
  }

  /** The constructor's loop: starting from an empty bit vector, extend it by
      each octet's eight bits in turn. */
  method ExtendOctets(vs: seq<int>) returns (bits: seq<bool>)
    requires FieldsInRange(vs)
    ensures bits == OctetsToBits(FieldOctets(vs))
  {
    ghost var os := FieldOctets(vs);
    bits := [];
    var i := 0;
    while i < |vs|
      invariant 0 <= i <= |vs|
      invariant bits == OctetsToBits(os[..i])
    {
      OctetsPrefixNext(os, i);
      bits := bits + OctetBits(FieldOctet(vs[i]));
      i := i + 1;
    }
    assert os[..|vs|] == os;
  }

  /** `IP(addr)`: checks the pattern, reads every field with `int`, then
      extends the bit vector by one octet per field. */
  method NewIp(addr: string) returns (r: Option<Ip>)
    requires FieldsFit(addr)
    ensures r.Some? <==> Accepts(addr)
    ensures r.Some? ==> r.value.ip == addr && r.value.bits == AddressBits(addr)
  {
    if !MatchesIp(addr) {
      return None;
    }
    var octets := PyIntAll(Split(addr, '.'));
    if octets.None? {
      return None;
    }
    var bits := ExtendOctets(octets.value);
    return Some(Ip(addr, bits));
  }

  /** `IP.tostring`: the text the address was built from. */
  function ToString(ip: Ip): string
  {
    ip.ip
  }

  /** `IP.tobits` (and `CIDRBlock.tobits` on the block's address): one `'0'`
      or `'1'` per bit, which `bitarray` reads back as the bits. */
  function ToBits(ip: Ip): (r: string)
    ensures |r| == |ip.bits| && IsBitString(r) && FromBitString(r) == ip.bits
  {
    BitStringRoundTrip(ip.bits, []);
    ToBitString(ip.bits)
  }

  /** `IP.lpm(block)`: `^` raises ValueError on bit vectors of different
      lengths and `index(True)` raises when they are equal; otherwise the
      block's prefix length when the first difference is at or past it, 0
      before it. */
  function Lpm(ip: Ip, block: CidrBlock): Option<nat>
  {
    if |ip.bits| != |block.ip.bits| then None
    else match FirstTrue(Xor(ip.bits, block.ip.bits))
      case None => None
      case Some(k) => Some(if k >= block.mask then block.mask else 0)
  }

  /** What `CIDRBlock(addr)` accepts: the CIDR pattern at the start (the
      `assert`), an address before the first slash, and an integer after it. */
  predicate CidrAccepts(addr: string)
  {
    var parts := Split(addr, '/');
    && MatchesCidr(addr)
    && |parts| >= 2
    && Accepts(parts[0])
    && PyInt(parts[1]).Some?
  }

  /** Text the CIDR pattern accepts has an address before its first slash,
      and the text after that slash starts with a digit, so `int` never reads
      it as negative. */
  lemma CidrParts(addr: string)
    requires MatchesCidr(addr)
    ensures |Split(addr, '/')| >= 2
    ensures Accepts(Split(addr, '/')[0])
    ensures PyInt(Split(addr, '/')[1]).Some? ==> PyInt(Split(addr, '/')[1]).value >= 0
  {
    var a, b, c, d, m, rest := CidrFields(addr);
    var q := Join([a, b, c, d], '.');
    assert MatchesIp(q) by {
      MatchesIpIntro(a, b, c, d, "");
      IpUtils.NoRest(a, b, c, d);
    }
    assert PyIntAll([a, b, c, d]).Some? by {
      PyIntOfDigits(a);
      PyIntOfDigits(b);
      PyIntOfDigits(c);
      PyIntOfDigits(d);
      PyIntAllFour(a, b, c, d, DecimalValue(a), DecimalValue(b), DecimalValue(c), DecimalValue(d));
    }
    SplitHead(m + rest, '/');
    assert Split(addr, '/')[1] == Split(m + rest, '/')[0];
  }

  /** `CIDRBlock(addr)`: the address part goes through `IP` unchanged and
      the prefix length is whatever `int` reads after the slash. */
  method NewCidr(addr: string) returns (r: Option<CidrBlock>)
    requires MatchesCidr(addr) ==> FieldsFit(Split(addr, '/')[0])
    ensures r.Some? <==> CidrAccepts(addr)
    ensures r.Some? ==>
              && r.value.ip.ip == Split(addr, '/')[0]
              && r.value.ip.bits == AddressBits(Split(addr, '/')[0])
              && r.value.mask == PyInt(Split(addr, '/')[1]).value
  {
    if !MatchesCidr(addr) {
      return None;
    }
    CidrParts(addr);
    var parts := Split(addr, '/');
    var ip := NewIp(parts[0]);
    if ip.None? {
      return None;
    }
    var mask := PyInt(parts[1]);
    if mask.None? {
      return None;
    }
    return Some(CidrBlock(ip.value, mask.value));
  }

  /** `CIDRBlock.tostring`. */
  function CidrToString(block: CidrBlock): string
  {
    ToString(block.ip) + "/" + NatToDecimal(block.mask)
  }

  /** Python's `s[:n]` for `n >= 0`. */
  function Prefix(s: string, n: nat): (r: string)
    ensures |r| == if n <= |s| then n else |s|
    ensures r <= s
  {
    if n <= |s| then s[..n] else s
  }

  /** `CIDRBlock.matches(ip)`: the first `mask` characters of the two bit
      strings agree. */
  predicate Matches(block: CidrBlock, ip: Ip)
  {
    Prefix(ToBits(block.ip), block.mask) == Prefix(ToBits(ip), block.mask)
  }

  /** `ip_parser`: the CIDR pattern selects `CIDRBlock`, else the address
      pattern selects `IP`, else TypeError. */
  method IpParser(addr: string) returns (r: Option<Parsed>)
    requires MatchesCidr(addr) ==> FieldsFit(Split(addr, '/')[0])
    requires !MatchesCidr(addr) ==> FieldsFit(addr)
    ensures (r.Some? && r.value.Block?) <==> CidrAccepts(addr)
    ensures (r.Some? && r.value.Address?) <==> !MatchesCidr(addr) && Accepts(addr)
    ensures r.Some? && r.value.Block? ==>
              && r.value.block.ip.ip == Split(addr, '/')[0]
              && r.value.block.ip.bits == AddressBits(Split(addr, '/')[0])
              && r.value.block.mask == PyInt(Split(addr, '/')[1]).value
    ensures r.Some? && r.value.Address? ==> r.value.ip.ip == addr && r.value.ip.bits == AddressBits(addr)
  {
    if MatchesCidr(addr) {
      var block := NewCidr(addr);
      if block.None? {
        return None;
      }
      return Some(Block(block.value));
    }
    if MatchesIp(addr) {
      var ip := NewIp(addr);
      if ip.None? {
        return None;
      }
      return Some(Address(ip.value));
    }
    return None;
  }

  // ---------------------------------------------------------------- properties

  /** On a four-field address the package version accepts, the old
      constructor accepts too and builds the same bits. */
  lemma AgreesWithPackage(addr: string)
    requires IpUtils.IsValidIp(addr) && |Split(addr, '.')| == 4
    ensures Accepts(addr) && FieldsFit(addr)
    ensures AddressBits(addr) == IpUtils.DottedQuadToBits(addr)
  {
    var vs := IpUtils.QuadValues(addr);
    assert FieldsInRange(vs);
    assert FieldOctets(vs) == vs;
  }

  /** The old constructor has no octet range check: '256.0.0.0' passes its
      `assert` and every field reads as an integer, although the package
      version refuses the text. */
  lemma NoRangeCheck()
    ensures Accepts("256.0.0.0")
    ensures !IpUtils.IsValidIp("256.0.0.0")
  {
    IpUtils.SplitBadQuad();
    BadQuadMatches();
    IpUtils.ParseTooLarge();
    ParseZero();
    PyIntAllFour("256", "0", "0", "0", 256, 0, 0, 0);
    IpUtils.OctetOutOfRange();
  }

  lemma BadQuadMatches()
    ensures MatchesIp("256.0.0.0")
  {
    IpUtils.BadQuadText();
    DotGroupOf("256", "0.0.0");
    DotGroupOf("0", "0.0");
    DotGroupOf("0", "0");
    assert ThreeGroups("256.0.0.0") == Some("0");
    assert DigitRun("0") == 1;
  }

  lemma ParseZero()
    ensures PyInt("0") == Some(0)
  {
    assert DecimalValue("0") == 0 by { assert "0"[..0] == ""; }
    PyIntOfDigits("0");
  }

  /** The pattern holds only the first four fields to digits: '0.0.0.0.-1'
      passes the `assert`, `int` reads its fifth field as -1, and
      `binary_repr(-1, width=8)` writes eight ones. */
  lemma NegativeField()
    ensures Accepts("0.0.0.0.-1") && FieldsFit("0.0.0.0.-1")
    ensures |AddressBits("0.0.0.0.-1")| == 40
    ensures BitsToNat(AddressBits("0.0.0.0.-1")[32..40]) == 255
  {
    NegativeFieldMatches();
    NegativeFieldSplit();
    NegativeFieldValues();
    ParseMinusOne();
    var addr := "0.0.0.0.-1";
    assert Split(addr, '.')[4] == "-1";
    FieldBits(addr, 4);
    assert FieldOctet(PyInt(Split(addr, '.')[4]).value) == 255;
  }

  lemma NegativeFieldMatches()
    ensures MatchesIp("0.0.0.0.-1")
  {
    NegativeFieldText();
    DotGroupOf("0", "0.0.0.-1");
    DotGroupOf("0", "0.0.-1");
    DotGroupOf("0", "0.-1");
    assert ThreeGroups("0.0.0.0.-1") == Some("0.-1");
    assert DigitRun("0.-1") == 1;
  }

  /** How '0.0.0.0.-1' is put together. */
  lemma NegativeFieldText()
    ensures "0.0.0.0.-1" == "0" + "." + "0.0.0.-1"
    ensures "0.0.0.-1" == "0" + "." + "0.0.-1"
    ensures "0.0.-1" == "0" + "." + "0.-1"
    ensures Join(["0", "0", "0", "0", "-1"], '.') == "0.0.0.0.-1"
  {
    var fs := ["0", "0", "0", "0", "-1"];
    assert fs[1..] == ["0", "0", "0", "-1"];
    JoinFour("0", "0", "0", "-1", '.');
  }

  lemma NegativeFieldSplit()
    ensures Split("0.0.0.0.-1", '.') == ["0", "0", "0", "0", "-1"]
  {
    NegativeFieldText();
    SplitJoin(["0", "0", "0", "0", "-1"], '.');
  }

  lemma NegativeFieldValues()
    ensures PyIntAll(["0", "0", "0", "0", "-1"]) == Some([0, 0, 0, 0, -1])
    ensures FieldsInRange([0, 0, 0, 0, -1])
  {
    var fs, vs := ["0", "0", "0", "0", "-1"], [0, 0, 0, 0, -1];
    ParseZero();
    ParseMinusOne();
    forall i | 0 <= i < 5 ensures PyInt(fs[i]) == Some(vs[i]) {
      if i == 0 {} else if i == 1 {} else if i == 2 {} else if i == 3 {} else {}
    }
    PyIntAllOf(fs, vs);
  }

  lemma ParseMinusOne()
    ensures PyInt("-1") == Some(-1)
  {
    assert StripLeft("-1") == "-1";
    assert StripRight("-1") == "-1";
    assert "-1"[1..] == "1";
    assert DecimalValue("1") == 1 by { assert "1"[..0] == ""; }
  }

  /** Field `k` of an accepted text can be read back from its eight bits. */
  lemma FieldBits(addr: string, k: nat)
    requires Accepts(addr) && FieldsFit(addr) && k < |Split(addr, '.')|
    ensures PyInt(Split(addr, '.')[k]).Some?
    ensures FieldOctet(PyInt(Split(addr, '.')[k]).value) == BitsToNat(AddressBits(addr)[8 * k..8 * k + 8])
    ensures PyInt(Split(addr, '.')[k]).value >= 0 ==>
              PyInt(Split(addr, '.')[k]).value == BitsToNat(AddressBits(addr)[8 * k..8 * k + 8])
  {
    OctetsToBitsAt(FieldOctets(PyIntAll(Split(addr, '.')).value), k);
  }

  /** A block keeps the written address, host bits and all, and prints it
      back: text with one slash and a canonical prefix length prints as
      itself, e.g. '68.211.6.120/17'. */
  lemma CidrTextVerbatim(addr: string, block: CidrBlock)
    requires CidrAccepts(addr)
    requires block.ip.ip == Split(addr, '/')[0] && block.mask == PyInt(Split(addr, '/')[1]).value
    requires |Split(addr, '/')| == 2 && IsCanonicalNumeral(Split(addr, '/')[1])
    ensures CidrToString(block) == addr
  {
    var parts := Split(addr, '/');
    var q, t := parts[0], parts[1];
    assert NatToDecimal(block.mask) == t by {
      PyIntOfDigits(t);
      CanonicalNumeral(t);
    }
    assert addr == q + "/" + t by {
      JoinSplit(addr, '/');
      TwoItems(parts);
      JoinTwo(q, t, '/');
    }
  }

  /** A prefix length of 0 matches every address. */
  lemma MatchesZero(block: CidrBlock, ip: Ip)
    requires block.mask == 0
    ensures Matches(block, ip)
  {
  }

  /** `lpm` raises exactly when the bit vectors differ in length or are
      equal; otherwise it is the prefix length when the block matches, else
      0. A prefix length past the vectors' end matches only equal vectors. */
  lemma LpmSpec(ip: Ip, block: CidrBlock)
    ensures Lpm(ip, block).None? <==> |ip.bits| != |block.ip.bits| || ip.bits == block.ip.bits
    ensures |ip.bits| == |block.ip.bits| && ip.bits != block.ip.bits ==>
              Lpm(ip, block) == Some(if Matches(block, ip) then block.mask else 0)
  {
    var a, b := block.ip.bits, ip.bits;
    if |a| == |b| {
      var x := Xor(b, a);
      match FirstTrue(x)
      case None =>
        assert b == a by {
          forall i | 0 <= i < |a| ensures b[i] == a[i] { assert !x[i]; }
        }
      case Some(k) =>
        assert a[k] != b[k];
        var ta, tb := ToBits(block.ip), ToBits(ip);
        if block.mask <= |a| {
          BitStringPrefix(a, b, block.mask);
          if k >= block.mask {
            assert a[..block.mask] == b[..block.mask] by {
              forall i | 0 <= i < block.mask ensures a[i] == b[i] { assert !x[i]; }
            }
          } else {
            assert a[..block.mask][k] != b[..block.mask][k];
          }
        } else {
          assert ta != tb;
        }
    }
  }
}
