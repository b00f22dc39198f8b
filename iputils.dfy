/** The address library of the `iputils` package: dotted-quad addresses as
    32-bit vectors (`IP`), CIDR blocks with their host bits cleared
    (`CIDRBlock`), the pairwise longest-prefix test and the parser that tells
    the two notations apart. Both classes are immutable once built, so they are
    values here and their constructors are functions that fail with `None`
    where the source raises. */
module IpUtils {
  import opened Wrappers
  import opened PyText
  import opened Patterns
  import opened Bits

  /** A 32-bit address, most significant bit first. */
  type Address = b: seq<bool> | |b| == 32 witness seq(32, i => false)

  /** `IP`: its only state is `bits`, which `getbits` returns. */
  datatype Ip = Ip(bits: Address)

  /** `CIDRBlock`: the first address (host bits cleared), the prefix length
      `_mask`, the subnet mask as bits, and the last address. */
  datatype CidrBlock = CidrBlock(first: Address, mask: nat, bitmask: Address, last: Address)

  /** `_is_valid_ip`: the address pattern matches at the start and every
      dot-separated field is an integer in 0..255. A field that `int` rejects
      makes the source raise ValueError instead of returning False; every
      caller turns both outcomes into a failure, so they are one case here. */
  predicate IsValidIp(addr: string)
  {
    && MatchesIp(addr)
    && var vs := PyIntAll(Split(addr, '.'));
    && vs.Some?
    && AllOctets(vs.value)
  }

  /** Both Python versions agree on `_dotted_quad_to_bits` only for four
      fields; the text must not be a valid address with more. */
  predicate FourFieldsIfValid(addr: string)
  {
    IsValidIp(addr) ==> |Split(addr, '.')| == 4
  }

  /** The field values of a valid four-field dotted quad. */
  function QuadValues(quad: string): (vs: seq<int>)
    requires IsValidIp(quad) && |Split(quad, '.')| == 4
    ensures |vs| == 4 && AllOctets(vs)
  {
    PyIntAll(Split(quad, '.')).value
  }

  /** `_dotted_quad_to_bits`: each field as eight bits, concatenated. */
  function DottedQuadToBits(quad: string): (b: Address)
    requires IsValidIp(quad) && |Split(quad, '.')| == 4
    ensures Octets(b) == QuadValues(quad)
  {
    var vs := QuadValues(quad);
    OctetsOfOctetsToBits(vs);
    OctetsToBits(vs)
  }

  /** `_gen_octet`: the decimal text of an octet given as bits. */
  function GenOctet(p: seq<bool>): string
  {
    NatToDecimal(BitsToNat(p))
  }

  /** `_bits_to_dotted_quad`. */
  function BitsToDottedQuad(b: Address): string
  {
    Join([GenOctet(b[..8]), GenOctet(b[8..16]), GenOctet(b[16..24]), GenOctet(b[24..32])], '.')
  }

  /** The dotted quad `str` prints for four octets. */
  function Quad(vs: seq<int>): string
    requires |vs| == 4 && AllOctets(vs)
  {
    Join([NatToDecimal(vs[0]), NatToDecimal(vs[1]), NatToDecimal(vs[2]), NatToDecimal(vs[3])], '.')
  }

  /** `IP(addr)`: TypeError (`None`) unless the text is a valid address;
      otherwise the four octets of the address are the four field values. */
  function NewIp(addr: string): (r: Option<Ip>)
    requires FourFieldsIfValid(addr)
    ensures r.Some? <==> IsValidIp(addr)
    ensures r.Some? ==> |Split(addr, '.')| == 4 && Octets(r.value.bits) == QuadValues(addr)
  {
    if IsValidIp(addr) then Some(Ip(DottedQuadToBits(addr))) else None
  }

  /** `IP.tostring`. */
  function ToString(ip: Ip): string
  {
    BitsToDottedQuad(ip.bits)
  }

  /** `IP.tobitstring`: 32 characters, most significant bit first, that the
      `bitarray` constructor reads back as the address. */
  function ToBitString(ip: Ip): (r: string)
    ensures |r| == 32 && IsBitString(r) && FromBitString(r) == ip.bits
  {
    BitStringRoundTrip(ip.bits, []);
    Bits.ToBitString(ip.bits)
  }

  /** `IP.__eq__`: the bit vectors are equal. */
  predicate IpEq(a: Ip, b: Ip)
  {
    a.bits == b.bits
  }

  /** `tostring` prints the four octets of the address. */
  lemma ToStringIsQuad(ip: Ip)
    ensures ToString(ip) == Quad(Octets(ip.bits))
  {
    assert ip.bits[24..] == ip.bits[24..32];
  }

  /** A dotted quad printed from four octets is a valid address whose four
      fields read back as those octets. */
  lemma QuadIsValid(vs: seq<int>)
    requires |vs| == 4 && AllOctets(vs)
    ensures IsValidIp(Quad(vs))
    ensures Split(Quad(vs), '.') == [NatToDecimal(vs[0]), NatToDecimal(vs[1]), NatToDecimal(vs[2]), NatToDecimal(vs[3])]
    ensures QuadValues(Quad(vs)) == vs
  {
    QuadMatches(vs);
    QuadSplit(vs);
    QuadParses(vs);
  }

  lemma QuadMatches(vs: seq<int>)
    requires |vs| == 4 && AllOctets(vs)
    ensures MatchesIp(Quad(vs))
  {
    var ds := [NatToDecimal(vs[0]), NatToDecimal(vs[1]), NatToDecimal(vs[2]), NatToDecimal(vs[3])];
    QuadNumerals(vs);
    MatchesIpIntro(ds[0], ds[1], ds[2], ds[3], "");
    NoRest(ds[0], ds[1], ds[2], ds[3]);
  }

  lemma QuadSplit(vs: seq<int>)
    requires |vs| == 4 && AllOctets(vs)
    ensures Split(Quad(vs), '.') == [NatToDecimal(vs[0]), NatToDecimal(vs[1]), NatToDecimal(vs[2]), NatToDecimal(vs[3])]
  {
    var ds := [NatToDecimal(vs[0]), NatToDecimal(vs[1]), NatToDecimal(vs[2]), NatToDecimal(vs[3])];
    forall i | 0 <= i < 4 ensures '.' !in ds[i] { NumeralHasNo(ds[i], '.'); }
    SplitJoin(ds, '.');
  }

  lemma QuadParses(vs: seq<int>)
    requires |vs| == 4 && AllOctets(vs)
    ensures PyIntAll([NatToDecimal(vs[0]), NatToDecimal(vs[1]), NatToDecimal(vs[2]), NatToDecimal(vs[3])]) == Some(vs)
  {
    PyIntOfDecimal(vs[0]);
    PyIntOfDecimal(vs[1]);
    PyIntOfDecimal(vs[2]);
    PyIntOfDecimal(vs[3]);
    PyIntAllFour(NatToDecimal(vs[0]), NatToDecimal(vs[1]), NatToDecimal(vs[2]), NatToDecimal(vs[3]),
                 vs[0], vs[1], vs[2], vs[3]);
    FourItems(vs);
  }

  /** `str` prints an octet as one to three digits. */
  lemma OctetNumeral(v: int)
    requires 0 <= v <= 255
    ensures Numeral3(NatToDecimal(v))
  {
    DecimalLength(v);
  }

  lemma QuadNumerals(vs: seq<int>)
    requires |vs| == 4 && AllOctets(vs)
    ensures Numeral3(NatToDecimal(vs[0])) && Numeral3(NatToDecimal(vs[1]))
    ensures Numeral3(NatToDecimal(vs[2])) && Numeral3(NatToDecimal(vs[3]))
  {
    OctetNumeral(vs[0]);
    OctetNumeral(vs[1]);
    OctetNumeral(vs[2]);
    OctetNumeral(vs[3]);
  }

  /** Printing an address and parsing the text gives the address back. */
  lemma IpRoundTrip(ip: Ip)
    ensures FourFieldsIfValid(ToString(ip))
    ensures NewIp(ToString(ip)) == Some(ip)
  {
    var vs := Octets(ip.bits);
    ToStringIsQuad(ip);
    QuadIsValid(vs);
    OctetsRoundTrip(ip.bits);
  }

  /** A valid address written as `str` would print its octets is printed back
      unchanged by `tostring`, e.g. '74.125.43.99'. */
  lemma TextRoundTrip(addr: string)
    requires IsValidIp(addr) && |Split(addr, '.')| == 4
    requires forall i :: 0 <= i < 4 ==> IsCanonicalNumeral(Split(addr, '.')[i])
    ensures ToString(NewIp(addr).value) == addr
  {
    var fs := Split(addr, '.');
    var vs := QuadValues(addr);
    var ip := NewIp(addr).value;
    assert Octets(ip.bits) == vs;
    assert ToString(ip) == Quad(vs) by { ToStringIsQuad(ip); }
    forall i | 0 <= i < 4 ensures NatToDecimal(vs[i]) == fs[i] {
      PyIntOfDigits(fs[i]);
      CanonicalNumeral(fs[i]);
    }
    assert Quad(vs) == Join(fs, '.') by {
      FourItems(fs);
    }
    JoinSplit(addr, '.');
  }

  /** Two addresses are equal exactly when they print the same. */
  lemma IpEqIsTextEq(a: Ip, b: Ip)
    ensures IpEq(a, b) <==> ToString(a) == ToString(b)
  {
    IpRoundTrip(a);
    IpRoundTrip(b);
  }

  /** `IP.lpm(block)`: the first position where the address and the block's
      first address differ (`(a ^ b).index(True)`, which raises ValueError when
      they are bit-identical); the block's prefix length when that position
      is at or past it, 0 otherwise. */
  function Lpm(ip: Ip, block: CidrBlock): Option<nat>
  {
    match FirstTrue(Xor(ip.bits, block.first))
    case None => None
    case Some(k) => Some(if k >= block.mask then block.mask else 0)
  }

  // ---------------------------------------------------------------- CIDRBlock

  /** `_is_valid_cidr`: the CIDR pattern matches at the start, the text before
      the first slash is a valid address and the text after it (up to a second
      slash, if any) is an integer in 0..32. As for addresses, an `int` that
      raises and a False result are one failure. */
  predicate IsValidCidr(addr: string)
  {
    var parts := Split(addr, '/');
    && MatchesCidr(addr)
    && |parts| >= 2
    && IsValidIp(parts[0])
    && var m := PyInt(parts[1]);
    && m.Some?
    && 0 <= m.value <= 32
  }

  lemma CidrQuadFields(addr: string)
    requires MatchesCidr(addr)
    ensures |Split(addr, '/')| >= 2 && |Split(Split(addr, '/')[0], '.')| == 4
  {
    var a, b, c, d, m, rest := CidrFields(addr);
  }

  /** The address part of a valid CIDR text, as bits. */
  function CidrAddressBits(addr: string): Address
    requires IsValidCidr(addr)
  {
    CidrQuadFields(addr);
    DottedQuadToBits(Split(addr, '/')[0])
  }

  /** The prefix length written in a valid CIDR text. */
  function CidrMaskValue(addr: string): (m: nat)
    requires IsValidCidr(addr)
    ensures m <= 32
  {
    PyInt(Split(addr, '/')[1]).value
  }

  /** What every constructed block satisfies: the mask has exactly `mask`
      leading ones, `first` has no host bit set, and `last` is `first` with
      every host bit set. */
  predicate WellFormed(c: CidrBlock)
  {
    && c.mask <= 32
    && (forall i :: 0 <= i < 32 ==> (c.bitmask[i] <==> i < c.mask))
    && (forall i :: 0 <= i < 32 ==> (c.mask <= i ==> !c.first[i]))
    && (forall i :: 0 <= i < 32 ==> (c.last[i] <==> c.first[i] || c.mask <= i))
  }

  /** `CIDRBlock(addr)`: TypeError (`None`) unless the text is a valid CIDR
      block; otherwise `first` is the written address with its host bits
      cleared (`first &= bitmask`) and `last = first | ~bitmask`. */
  function NewCidr(addr: string): (r: Option<CidrBlock>)
    ensures r.Some? <==> IsValidCidr(addr)
    ensures r.Some? ==> WellFormed(r.value) && r.value.mask == CidrMaskValue(addr)
    ensures r.Some? ==> forall i :: 0 <= i < 32 ==>
              (r.value.first[i] <==> i < r.value.mask && CidrAddressBits(addr)[i])
  {
    if !IsValidCidr(addr) then None
    else
      var m := CidrMaskValue(addr);
      var bitmask := MaskBits(m);
      MaskBitsShape(m);
      var first := And(CidrAddressBits(addr), bitmask);
      var last := Or(first, Not(bitmask));
      Some(CidrBlock(first, m, bitmask, last))
  }

  /** `CIDRBlock.tostring`. */
  function CidrToString(c: CidrBlock): string
  {
    BitsToDottedQuad(c.first) + "/" + NatToDecimal(c.mask)
  }

  /** `CIDRBlock.getrange`. */
  function GetRange(c: CidrBlock): (string, string)
  {
    (BitsToDottedQuad(c.first), BitsToDottedQuad(c.last))
  }

  /** `CIDRBlock.getmask`. */
  function GetMask(c: CidrBlock): string
  {
    BitsToDottedQuad(c.bitmask)
  }

  /** `CIDRBlock.matches(ip)`: the first `mask` bits agree. */
  predicate Matches(c: CidrBlock, ip: Ip)
    requires c.mask <= 32
  {
    c.first[..c.mask] == ip.bits[..c.mask]
  }

  /** `CIDRBlock.__eq__`: the printed forms are equal. */
  predicate CidrEq(a: CidrBlock, b: CidrBlock)
  {
    CidrToString(a) == CidrToString(b)
  }

  // ---------------------------------------------------------------- properties of blocks

  /** `lpm` raises exactly when the address is the block's first address;
      otherwise it is the prefix length when the block matches, else 0. */
  lemma LpmSpec(ip: Ip, c: CidrBlock)
    requires c.mask <= 32
    ensures Lpm(ip, c).None? <==> ip.bits == c.first
    ensures ip.bits != c.first ==> Lpm(ip, c) == Some(if Matches(c, ip) then c.mask else 0)
  {
    var x := Xor(ip.bits, c.first);
    match FirstTrue(x)
    case None =>
      assert ip.bits == c.first by {
        forall i | 0 <= i < 32 ensures ip.bits[i] == c.first[i] { assert !x[i]; }
      }
    case Some(k) =>
      assert ip.bits[k] != c.first[k];
      if k >= c.mask {
        assert c.first[..c.mask] == ip.bits[..c.mask] by {
          forall i | 0 <= i < c.mask ensures c.first[i] == ip.bits[i] { assert !x[i]; }
        }
      } else {
        assert c.first[..c.mask][k] != ip.bits[..c.mask][k];
      }
  }

  /** A block matches an address exactly when masking the address gives the
      block's first address. */
  lemma MatchesIffMasked(c: CidrBlock, ip: Ip)
    requires WellFormed(c)
    ensures Matches(c, ip) <==> And(ip.bits, c.bitmask) == c.first
  {
    var masked := And(ip.bits, c.bitmask);
    if Matches(c, ip) {
      forall i | 0 <= i < 32 ensures masked[i] == c.first[i] {
        if i < c.mask { assert c.first[..c.mask][i] == ip.bits[..c.mask][i]; }
      }
      assert masked == c.first;
    }
    if masked == c.first {
      forall i | 0 <= i < c.mask ensures c.first[i] == ip.bits[i] {
        assert masked[i] == c.first[i];
      }
      assert c.first[..c.mask] == ip.bits[..c.mask];
    }
  }

  /** A `/0` block matches every address; a `/32` block only its own. */
  lemma MatchesBoundary(c: CidrBlock, ip: Ip)
    requires WellFormed(c)
    ensures c.mask == 0 ==> Matches(c, ip)
    ensures c.mask == 32 ==> (Matches(c, ip) <==> ip.bits == c.first)
  {
    if c.mask == 32 {
      assert c.first[..32] == c.first && ip.bits[..32] == ip.bits;
    }
  }

  lemma MulStrict(x: int, p: int, h: int, y: int)
    requires x < p && 0 <= y < h
    ensures x * h + y < p * h
  {
    var d := p - x - 1;
    assert d * h >= 0;
    assert p * h == x * h + d * h + h;
  }

  /** The arithmetic behind `MatchesIffInRange`: with `h` host values per
      prefix, a number lies in prefix `vp`'s range exactly when its own
      prefix is `vp`. */
  lemma PrefixRange(vp: nat, vx: nat, vh: nat, h: nat)
    requires vh < h
    ensures vp * h <= vx * h + vh <= vp * h + (h - 1) <==> vx == vp
  {
    if vx < vp {
      MulStrict(vx, vp, h, vh);
    } else if vp < vx {
      MulStrict(vp, vx, h, h - 1);
    }
  }

  /** A block matches an address exactly when the address, read as a 32-bit
      number, lies between the block's first and last addresses. */
  lemma MatchesIffInRange(c: CidrBlock, ip: Ip)
    requires WellFormed(c)
    ensures Matches(c, ip) <==>
              BitsToNat(c.first) <= BitsToNat(ip.bits) <= BitsToNat(c.last)
  {
    var p, x := c.first[..c.mask], ip.bits[..c.mask];
    InRangeIffSamePrefix(c, ip);
    assert BitsToNat(p) == BitsToNat(x) <==> p == x by {
      BitsToNatRoundTrip(p);
      BitsToNatRoundTrip(x);
    }
  }

  /** The address lies between the first and the last of the block exactly
      when its network part has the value of the block's. */
  lemma InRangeIffSamePrefix(c: CidrBlock, ip: Ip)
    requires WellFormed(c)
    ensures BitsToNat(c.first) <= BitsToNat(ip.bits) <= BitsToNat(c.last) <==>
              BitsToNat(c.first[..c.mask]) == BitsToNat(ip.bits[..c.mask])
  {
    var m := c.mask;
    EndValues(c);
    AddressValue(ip.bits, m);
    PrefixRange(BitsToNat(c.first[..m]), BitsToNat(ip.bits[..m]), BitsToNat(ip.bits[m..]), Pow2(32 - m));
  }

  /** The first and the last address of a block as numbers: the network
      part shifted left, then all host bits clear or all set. */
  lemma EndValues(c: CidrBlock)
    requires WellFormed(c)
    ensures BitsToNat(c.first) == BitsToNat(c.first[..c.mask]) * Pow2(32 - c.mask)
    ensures BitsToNat(c.last) == BitsToNat(c.first[..c.mask]) * Pow2(32 - c.mask) + (Pow2(32 - c.mask) - 1)
  {
    HostBits(c);
    AddressValue(c.first, c.mask);
    AddressValue(c.last, c.mask);
  }

  /** An address as a number: its first `m` bits shifted left, plus the rest. */
  lemma AddressValue(b: Address, m: nat)
    requires m <= 32
    ensures BitsToNat(b) == BitsToNat(b[..m]) * Pow2(32 - m) + BitsToNat(b[m..])
    ensures BitsToNat(b[m..]) < Pow2(32 - m)
  {
    ValueSplit(b, m);
    assert |b[m..]| == 32 - m;
  }

  /** The host bits of a well-formed block: all clear in `first`, all set in
      `last`, and the two agree on the prefix. */
  lemma HostBits(c: CidrBlock)
    requires WellFormed(c)
    ensures c.last[..c.mask] == c.first[..c.mask]
    ensures BitsToNat(c.first[c.mask..]) == 0
    ensures BitsToNat(c.last[c.mask..]) == Pow2(32 - c.mask) - 1
  {
    var m := c.mask;
    var hf, hl := c.first[m..], c.last[m..];
    forall i | 0 <= i < 32 - m ensures !hf[i] && hl[i] {
      assert hf[i] == c.first[m + i] && hl[i] == c.last[m + i];
    }
    BitsToNatConstant(hf);
    BitsToNatConstant(hl);
    SamePrefix(c.last, c.first, m);
  }

  /** A bit vector's value: its first `m` bits shifted past the rest. */
  lemma ValueSplit(b: seq<bool>, m: nat)
    requires m <= |b|
    ensures BitsToNat(b) == BitsToNat(b[..m]) * Pow2(|b| - m) + BitsToNat(b[m..])
  {
    assert b == b[..m] + b[m..];
    BitsToNatAppend(b[..m], b[m..]);
  }

  /** A printed address holds no slash. */
  lemma DottedQuadHasNoSlash(b: Address)
    ensures '/' !in BitsToDottedQuad(b)
  {
    var vs := Octets(b);
    var ds := [NatToDecimal(vs[0]), NatToDecimal(vs[1]), NatToDecimal(vs[2]), NatToDecimal(vs[3])];
    ToStringIsQuad(Ip(b));
    forall i | 0 <= i < 4 ensures '/' !in ds[i] { NumeralHasNo(ds[i], '/'); }
    JoinFour(ds[0], ds[1], ds[2], ds[3], '.');
    NotInJoined(ds[2], '.', ds[3], '/');
    NotInJoined(ds[1], '.', ds[2] + "." + ds[3], '/');
    NotInJoined(ds[0], '.', ds[1] + "." + (ds[2] + "." + ds[3]), '/');
  }

  /** The printed block splits at its one slash into the printed first
      address and the printed prefix length. */
  lemma CidrTextParts(c: CidrBlock)
    ensures Split(CidrToString(c), '/') == [BitsToDottedQuad(c.first), NatToDecimal(c.mask)]
  {
    var q, m := BitsToDottedQuad(c.first), NatToDecimal(c.mask);
    DottedQuadHasNoSlash(c.first);
    NumeralHasNo(m, '/');
    SplitAround(q, '/', m);
  }

  /** Two constructed blocks compare equal exactly when they are the same
      block: same first address and same prefix length. */
  lemma CidrEqIff(a: CidrBlock, b: CidrBlock)
    requires WellFormed(a) && WellFormed(b)
    ensures CidrEq(a, b) <==> a == b
  {
    if CidrEq(a, b) {
      CidrTextParts(a);
      CidrTextParts(b);
      assert BitsToDottedQuad(a.first) == BitsToDottedQuad(b.first);
      IpEqIsTextEq(Ip(a.first), Ip(b.first));
      PyIntOfDecimal(a.mask);
      PyIntOfDecimal(b.mask);
      assert a.bitmask == b.bitmask;
      assert a.last == b.last;
    }
  }

  lemma NoRest(a: string, b: string, c: string, d: string)
    ensures [a, b, c, d + ""] == [a, b, c, d]
  {
    assert d + "" == d;
  }

  lemma SlashTail(d: string, m: string)
    ensures d + "/" + m + "" == d + ("/" + m)
    ensures d + "/" + m == d + ("/" + m)
  {
  }

  /** A printed block with a two-digit prefix length fits the CIDR pattern. */
  lemma CidrTextMatches(c: CidrBlock)
    requires 10 <= c.mask < 100
    ensures MatchesCidr(CidrToString(c))
  {
    var m := NatToDecimal(c.mask);
    var vs := Octets(c.first);
    var a, b, x, d := NatToDecimal(vs[0]), NatToDecimal(vs[1]), NatToDecimal(vs[2]), NatToDecimal(vs[3]);
    assert BitsToDottedQuad(c.first) == Join([a, b, x, d], '.') by { ToStringIsQuad(Ip(c.first)); }
    QuadNumerals(vs);
    DecimalLength(c.mask);
    MatchesCidrIntro(a, b, x, d, m, "");
    SlashTail(d, m);
    JoinFourAppend(a, b, x, d, "/" + m, '.');
    SlashTail(BitsToDottedQuad(c.first), m);
  }

  /** A printed block with a two-digit prefix length is valid CIDR text
      naming the block's first address and prefix length. */
  lemma CidrTextValid(c: CidrBlock)
    requires 10 <= c.mask <= 32
    ensures IsValidCidr(CidrToString(c))
    ensures CidrAddressBits(CidrToString(c)) == c.first
    ensures CidrMaskValue(CidrToString(c)) == c.mask
  {
    var text := CidrToString(c);
    CidrTextMatches(c);
    CidrTextParts(c);
    QuadIsValid(Octets(c.first));
    ToStringIsQuad(Ip(c.first));
    PyIntOfDecimal(c.mask);
    assert IsValidCidr(text);
    OctetsRoundTrip(c.first);
  }

  /** A printed block whose prefix length has two digits parses back to the
      same block. */
  lemma CidrRoundTrip(c: CidrBlock)
    requires WellFormed(c) && c.mask >= 10
    ensures NewCidr(CidrToString(c)) == Some(c)
  {
    CidrTextValid(c);
    BuiltBlock(CidrToString(c), c);
  }

  /** A valid CIDR text builds the well-formed block with its prefix length
      whose first address agrees with the written address inside the prefix. */
  lemma BuiltBlock(addr: string, c: CidrBlock)
    requires IsValidCidr(addr) && WellFormed(c)
    requires CidrMaskValue(addr) == c.mask && CidrAddressBits(addr) == c.first
    ensures NewCidr(addr) == Some(c)
  {
    MaskedBlock(NewCidr(addr).value, c);
  }

  /** A well-formed block whose first address is `c.first` with the bits past
      `c.mask` cleared, under the same prefix length, is `c` itself. */
  lemma MaskedBlock(r: CidrBlock, c: CidrBlock)
    requires WellFormed(r) && WellFormed(c) && r.mask == c.mask
    requires forall i :: 0 <= i < 32 ==> (r.first[i] <==> i < r.mask && c.first[i])
    ensures r == c
  {
    SamePrefix(r.first, c.first, 32);
    assert r.first[..32] == r.first && c.first[..32] == c.first;
    SameFirstSameBlock(r, c);
  }

  /** A well-formed block is determined by its first address and its prefix
      length. */
  lemma SameFirstSameBlock(b1: CidrBlock, b2: CidrBlock)
    requires WellFormed(b1) && WellFormed(b2) && b1.mask == b2.mask && b1.first == b2.first
    ensures b1 == b2
  {
    SamePrefix(b1.bitmask, b2.bitmask, 32);
    SamePrefix(b1.last, b2.last, 32);
    assert b1.bitmask[..32] == b1.bitmask && b2.bitmask[..32] == b2.bitmask;
    assert b1.last[..32] == b1.last && b2.last[..32] == b2.last;
  }

  /** Only the slash-free dotted quads are addresses: every field of a valid
      address is a text `int` accepts. */
  lemma ValidIpHasNoSlash(s: string)
    requires IsValidIp(s)
    ensures '/' !in s
  {
    var fields := Split(s, '.');
    forall i | 0 <= i < |fields| ensures '/' !in fields[i] {
      PyIntChars(fields[i], '/');
    }
    NotInJoin(fields, '.', '/');
    JoinSplit(s, '.');
  }

  /** A printed block with a one-digit prefix length does not fit the CIDR
      pattern, which asks for two digits after the slash. */
  lemma ShortMaskText(c: CidrBlock)
    requires c.mask < 10
    ensures !MatchesCidr(CidrToString(c))
  {
    var text := CidrToString(c);
    if MatchesCidr(text) {
      var a, b, d, e, m, rest := CidrFields(text);
      var parts, digits := Split(text, '/'), NatToDecimal(c.mask);
      CidrTextParts(c);
      assert parts[1..] == Split(m + rest, '/');
      assert parts[1..] == [digits];
      JoinSplit(m + rest, '/');
    }
  }

  /** Blocks whose prefix length is below 10 print as text the constructor
      rejects, so their `tostring` does not parse back. */
  lemma ShortMaskRejected(c: CidrBlock)
    requires c.mask < 10
    ensures NewCidr(CidrToString(c)).None?
  {
    ShortMaskText(c);
  }

  // ---------------------------------------------------------------- ip_parser

  /** What `ip_parser` returns. */
  datatype Parsed = Address(ip: Ip) | Block(block: CidrBlock)

  /** `ip_parser`: text the CIDR pattern accepts must be a valid block; other
      text the address pattern accepts must be a valid address; anything else
      raises TypeError. */
  function IpParser(addr: string): (r: Option<Parsed>)
    requires MatchesCidr(addr) || FourFieldsIfValid(addr)
    ensures (r.Some? && r.value.Block?) <==> IsValidCidr(addr)
    ensures (r.Some? && r.value.Address?) <==> !MatchesCidr(addr) && IsValidIp(addr)
    ensures r.Some? && r.value.Block? ==>
              && NewCidr(addr) == Some(r.value.block)
              && WellFormed(r.value.block) && r.value.block.mask == CidrMaskValue(addr)
    ensures r.Some? && r.value.Address? ==>
              NewIp(addr) == Some(r.value.ip) && Octets(r.value.ip.bits) == QuadValues(addr)
  {
    if MatchesCidr(addr) then
      match NewCidr(addr)
      case None => None
      case Some(b) => Some(Block(b))
    else if MatchesIp(addr) then
      match NewIp(addr)
      case None => None
      case Some(ip) => Some(Address(ip))
    else None
  }

  /** The parser reads a printed address as that address. */
  lemma ParseAddressText(ip: Ip)
    ensures FourFieldsIfValid(ToString(ip))
    ensures IpParser(ToString(ip)) == Some(Address(ip))
  {
    IpRoundTrip(ip);
    ValidIpHasNoSlash(ToString(ip));
    PatternsNeedSeparators(ToString(ip));
  }

  /** The parser reads a printed block as that block when its prefix length
      has two digits, and rejects it otherwise: '10.0.0.0/8' is neither a
      block (one mask digit) nor an address (a slash in the last field). */
  lemma ParseBlockText(c: CidrBlock)
    requires WellFormed(c)
    ensures MatchesCidr(CidrToString(c)) || FourFieldsIfValid(CidrToString(c))
    ensures c.mask >= 10 ==> IpParser(CidrToString(c)) == Some(Block(c))
    ensures c.mask < 10 ==> IpParser(CidrToString(c)).None?
  {
    var text := CidrToString(c);
    DottedQuadHasNoSlash(c.first);
    assert text[|BitsToDottedQuad(c.first)|] == '/';
    if IsValidIp(text) {
      ValidIpHasNoSlash(text);
    }
    if c.mask >= 10 {
      CidrTextMatches(c);
      CidrRoundTrip(c);
    } else {
      ShortMaskText(c);
    }
  }

  /** The address bits of a valid CIDR text inside its prefix are the bits
      of the block it builds. */
  lemma BlockPrefix(addr: string)
    requires IsValidCidr(addr)
    ensures NewCidr(addr).value.first[..CidrMaskValue(addr)] == CidrAddressBits(addr)[..CidrMaskValue(addr)]
  {
    MaskedPrefix(NewCidr(addr).value, CidrAddressBits(addr));
  }

  lemma MaskedPrefix(r: CidrBlock, a: Address)
    requires r.mask <= 32
    requires forall i :: 0 <= i < 32 ==> (r.first[i] <==> i < r.mask && a[i])
    ensures r.first[..r.mask] == a[..r.mask]
  {
    SamePrefix(r.first, a, r.mask);
  }

  /** Two well-formed blocks with the same prefix length and the same first
      bits inside it are the same block. */
  lemma SamePrefixSameBlock(b1: CidrBlock, b2: CidrBlock)
    requires WellFormed(b1) && WellFormed(b2) && b1.mask == b2.mask
    requires b1.first[..b1.mask] == b2.first[..b2.mask]
    ensures b1 == b2
  {
    forall i | 0 <= i < 32 ensures b1.first[i] == b2.first[i] {
      if i < b1.mask { assert b1.first[..b1.mask][i] == b2.first[..b2.mask][i]; }
    }
    SamePrefix(b1.first, b2.first, 32);
    assert b1.first[..32] == b1.first && b2.first[..32] == b2.first;
    SameFirstSameBlock(b1, b2);
  }

  /** Two valid CIDR texts build the same block exactly when they give the
      same prefix length and agree on the address bits inside it: host bits
      written in the text are dropped. */
  lemma HostBitsIgnored(s1: string, s2: string)
    requires IsValidCidr(s1) && IsValidCidr(s2)
    ensures NewCidr(s1) == NewCidr(s2) <==>
              && CidrMaskValue(s1) == CidrMaskValue(s2)
              && CidrAddressBits(s1)[..CidrMaskValue(s1)] == CidrAddressBits(s2)[..CidrMaskValue(s2)]
  {
    BlockPrefix(s1);
    BlockPrefix(s2);
    var b1, b2 := NewCidr(s1).value, NewCidr(s2).value;
    if b1.mask == b2.mask && b1.first[..b1.mask] == b2.first[..b2.mask] {
      SamePrefixSameBlock(b1, b2);
    }
  }

  lemma QuadParsesBack(b: Address)
    ensures FourFieldsIfValid(BitsToDottedQuad(b))
    ensures NewIp(BitsToDottedQuad(b)) == Some(Ip(b))
  {
    IpRoundTrip(Ip(b));
  }

  /** `getrange` and `getmask` print the first address, the last address and
      the subnet mask as addresses the parser reads back. */
  lemma RangeAndMaskText(c: CidrBlock)
    ensures var (lo, hi) := GetRange(c);
      && FourFieldsIfValid(lo) && NewIp(lo) == Some(Ip(c.first))
      && FourFieldsIfValid(hi) && NewIp(hi) == Some(Ip(c.last))
    ensures FourFieldsIfValid(GetMask(c)) && NewIp(GetMask(c)) == Some(Ip(c.bitmask))
  {
    QuadParsesBack(c.first);
    QuadParsesBack(c.last);
    QuadParsesBack(c.bitmask);
  }

  lemma MaskArith(v: int, x: int, a: int, b: int, t: int)
    requires v == x * b + 0 && x == a - 1 && t == a * b
    ensures v == t - b
  {
  }

  /** The subnet mask's prefix bits are all ones and its host bits zeros. */
  lemma MaskParts(c: CidrBlock)
    requires WellFormed(c)
    ensures BitsToNat(c.bitmask[..c.mask]) == Pow2(c.mask) - 1
    ensures BitsToNat(c.bitmask[c.mask..]) == 0
  {
    var m := c.mask;
    var ones, zeros := c.bitmask[..m], c.bitmask[m..];
    forall i | 0 <= i < m ensures ones[i] { assert ones[i] == c.bitmask[i]; }
    forall i | 0 <= i < 32 - m ensures !zeros[i] { assert zeros[i] == c.bitmask[m + i]; }
    BitsToNatConstant(ones);
    BitsToNatConstant(zeros);
  }

  /** The subnet mask read as a number is `2^32 - 2^(32 - mask)`, e.g.
      255.255.255.0 for a /24. */
  lemma MaskValue(c: CidrBlock)
    requires WellFormed(c)
    ensures BitsToNat(c.bitmask) == Pow2(32) - Pow2(32 - c.mask)
  {
    var m := c.mask;
    MaskParts(c);
    AddressValue(c.bitmask, m);
    Pow2Add(m, 32 - m);
    assert m + (32 - m) == 32;
    MaskArith(BitsToNat(c.bitmask), BitsToNat(c.bitmask[..m]), Pow2(m), Pow2(32 - m), Pow2(32));
  }

  /** An octet above 255 is refused: '256.0.0.0' is not an address. */
  lemma OctetOutOfRange()
    ensures !IsValidIp("256.0.0.0")
  {
    var parts := ["256", "0", "0", "0"];
    SplitBadQuad();
    ParseTooLarge();
    var vs := PyIntAll(parts);
    assert vs.Some? ==> vs.value[0] == 256;
  }

  lemma SplitBadQuad()
    ensures Split("256.0.0.0", '.') == ["256", "0", "0", "0"]
  {
    BadQuadText();
    SplitJoin(["256", "0", "0", "0"], '.');
  }

  /** How '256.0.0.0' is put together. */
  lemma BadQuadText()
    ensures "256.0.0.0" == "256" + "." + "0.0.0"
    ensures "0.0.0" == "0" + "." + "0.0"
    ensures "0.0" == "0" + "." + "0"
    ensures Join(["256", "0", "0", "0"], '.') == "256.0.0.0"
  {
    JoinFour("256", "0", "0", "0", '.');
  }

  lemma ParseTooLarge()
    ensures PyInt("256") == Some(256)
  {
    assert DecimalValue("256") == 256 by {
      assert "256"[..2] == "25" && "25"[..1] == "2" && "2"[..0] == "";
    }
    PyIntOfDigits("256");
  }
}
