/** Bit vectors as `bitarray` holds them: a sequence of booleans, most
    significant bit first. */
module Bits {
  import opened Wrappers

  function Pow2(n: nat): (p: nat)
    ensures p >= 1
  {
    if n == 0 then 1 else 2 * Pow2(n - 1)
  }

  /** The unsigned value of a bit vector (Python's `int('0b' + bits)`). */
  function BitsToNat(b: seq<bool>): (v: nat)
    ensures v < Pow2(|b|)
    decreases |b|
  {
    if b == [] then 0 else 2 * BitsToNat(b[..|b| - 1]) + (if b[|b| - 1] then 1 else 0)
  }

  /** The low `w` bits of `n`, most significant first: numpy's
      `binary_repr(n, width=w)` for `n < 2^w`. */
  function NatToBits(n: nat, w: nat): (r: seq<bool>)
    ensures |r| == w
    decreases w
  {
    if w == 0 then [] else NatToBits(n / 2, w - 1) + [n % 2 == 1]
  }

  /** One unfolding of `BitsToNat` on a trailing bit. */
  lemma BitsSnoc(p: seq<bool>, x: bool)
    ensures BitsToNat(p + [x]) == 2 * BitsToNat(p) + (if x then 1 else 0)
  {
    assert (p + [x])[..|p|] == p;
  }

  lemma {:induction false} NatToBitsRoundTrip(n: nat, w: nat)
    requires n < Pow2(w)
    ensures BitsToNat(NatToBits(n, w)) == n
    decreases w
  {
    if w > 0 {
      var h := n / 2;
      assert h < Pow2(w - 1) by { HalfBelow(n, Pow2(w - 1)); }
      NatToBitsRoundTrip(h, w - 1);
      BitsSnoc(NatToBits(h, w - 1), n % 2 == 1);
    }
  }

  lemma HalfBelow(n: nat, q: nat)
    requires n < 2 * q
    ensures n / 2 < q && 2 * (n / 2) + n % 2 == n
  {
  }

  lemma {:induction false} BitsToNatRoundTrip(b: seq<bool>)
    ensures NatToBits(BitsToNat(b), |b|) == b
    decreases |b|
  {
    if b != [] {
      var init := b[..|b| - 1];
      BitsToNatRoundTrip(init);
      var v := BitsToNat(b);
      assert v / 2 == BitsToNat(init);
      assert (v % 2 == 1) == b[|b| - 1];
      assert b == init + [b[|b| - 1]];
    }
  }

  /** Appending `s` shifts the value of `p` left by `|s|` places. */
  lemma {:induction false} BitsToNatAppend(p: seq<bool>, s: seq<bool>)
    ensures BitsToNat(p + s) == BitsToNat(p) * Pow2(|s|) + BitsToNat(s)
    decreases |s|
  {
    if s == [] {
      assert p + s == p;
    } else {
      var init, x := s[..|s| - 1], s[|s| - 1];
      assert s == init + [x];
      assert p + s == (p + init) + [x];
      BitsToNatAppend(p, init);
      BitsSnoc(p + init, x);
      BitsSnoc(init, x);
      ShiftStep(BitsToNat(p), Pow2(|init|), BitsToNat(init), if x then 1 else 0);
    }
  }

  lemma ShiftStep(a: int, q: int, c: int, bit: int)
    ensures 2 * (a * q + c) + bit == a * (2 * q) + (2 * c + bit)
  {
  }

  lemma {:induction false} Pow2Add(a: nat, b: nat)
    ensures Pow2(a + b) == Pow2(a) * Pow2(b)
    decreases a
  {
    if a > 0 {
      Pow2Add(a - 1, b);
      assert Pow2(a + b) == 2 * Pow2(a - 1 + b);
      assert 2 * (Pow2(a - 1) * Pow2(b)) == (2 * Pow2(a - 1)) * Pow2(b);
    }
  }

  /** All-zero bits are worth 0; all-one bits are worth `2^|b| - 1`. */
  lemma {:induction false} BitsToNatConstant(b: seq<bool>)
    ensures (forall i :: 0 <= i < |b| ==> !b[i]) ==> BitsToNat(b) == 0
    ensures (forall i :: 0 <= i < |b| ==> b[i]) ==> BitsToNat(b) == Pow2(|b|) - 1
    decreases |b|
  {
    if b != [] {
      BitsToNatConstant(b[..|b| - 1]);
    }
  }

  /** `binary_repr(v, width=8)` for an octet. */
  function OctetBits(v: int): (r: seq<bool>)
    requires 0 <= v <= 255
    ensures |r| == 8
  {
    NatToBits(v, 8)
  }

  /** An octet and its eight bits determine each other. */
  lemma OctetRoundTrip(v: int, p: seq<bool>)
    requires 0 <= v <= 255
    ensures BitsToNat(OctetBits(v)) == v
    ensures |p| == 8 ==> BitsToNat(p) <= 255 && OctetBits(BitsToNat(p)) == p
  {
    assert Pow2(8) == 256;
    NatToBitsRoundTrip(v, 8);
    if |p| == 8 {
      BitsToNatRoundTrip(p);
    }
  }

  predicate AllOctets(vs: seq<int>) { forall i :: 0 <= i < |vs| ==> 0 <= vs[i] <= 255 }

  /** The octets, each as eight bits most significant first, concatenated. */
  function OctetsToBits(vs: seq<int>): (r: seq<bool>)
    requires AllOctets(vs)
    ensures |r| == 8 * |vs|
    decreases |vs|
  {
    if vs == [] then [] else OctetsToBits(vs[..|vs| - 1]) + OctetBits(vs[|vs| - 1])
  }

  /** Octet `k` can be read back from its eight bits. */
  lemma {:induction false} OctetsToBitsAt(vs: seq<int>, k: nat)
    requires AllOctets(vs) && k < |vs|
    ensures OctetsToBits(vs)[8 * k..8 * k + 8] == OctetBits(vs[k])
    ensures BitsToNat(OctetsToBits(vs)[8 * k..8 * k + 8]) == vs[k]
    decreases |vs|
  {
    var init := vs[..|vs| - 1];
    assert AllOctets(init);
    var left, right := OctetsToBits(init), OctetBits(vs[|vs| - 1]);
    if k < |init| {
      OctetsToBitsAt(init, k);
      assert init[k] == vs[k];
    }
    PieceAt(left, right, k, |init|, OctetBits(vs[k]));
    OctetRoundTrip(vs[k], []);
  }

  /** Two sequences that agree at every position below `m` have the same
      first `m` elements. */
  lemma SamePrefix<T>(x: seq<T>, y: seq<T>, m: nat)
    requires m <= |x| && m <= |y|
    requires forall i :: 0 <= i < m ==> x[i] == y[i]
    ensures x[..m] == y[..m]
  {
  }

  /** Slot `k` of `n` eight-bit slots followed by one more. */
  lemma PieceAt(left: seq<bool>, right: seq<bool>, k: nat, n: nat, piece: seq<bool>)
    requires |left| == 8 * n && |right| == 8 && k <= n
    requires k < n ==> left[8 * k..8 * k + 8] == piece
    requires k == n ==> right == piece
    ensures (left + right)[8 * k..8 * k + 8] == piece
  {
    if k < n {
      SliceOfLeft(left, right, 8 * k, 8 * k + 8);
    } else {
      SliceOfRight(left, right);
    }
  }

  lemma SliceOfLeft<T>(a: seq<T>, b: seq<T>, i: nat, j: nat)
    requires i <= j <= |a|
    ensures (a + b)[i..j] == a[i..j]
  {
  }

  lemma SliceOfRight<T>(a: seq<T>, b: seq<T>)
    ensures (a + b)[|a|..|a| + |b|] == b
  {
  }

  /** The four octets of a 32-bit vector. */
  function Octets(b: seq<bool>): (vs: seq<int>)
    requires |b| == 32
    ensures |vs| == 4 && AllOctets(vs)
  {
    assert Pow2(8) == 256;
    [BitsToNat(b[..8]), BitsToNat(b[8..16]), BitsToNat(b[16..24]), BitsToNat(b[24..])]
  }

  /** Cutting a 32-bit vector into octets and joining them again gives it back. */
  lemma OctetsRoundTrip(b: seq<bool>)
    requires |b| == 32
    ensures OctetsToBits(Octets(b)) == b
  {
    var vs := Octets(b);
    OctetRoundTrip(0, b[..8]);
    OctetRoundTrip(0, b[8..16]);
    OctetRoundTrip(0, b[16..24]);
    OctetRoundTrip(0, b[24..]);
    FourOctets(vs, b);
  }

  lemma FourOctets(vs: seq<int>, b: seq<bool>)
    requires |vs| == 4 && AllOctets(vs) && |b| == 32
    requires OctetBits(vs[0]) == b[..8] && OctetBits(vs[1]) == b[8..16]
    requires OctetBits(vs[2]) == b[16..24] && OctetBits(vs[3]) == b[24..]
    ensures OctetsToBits(vs) == b
  {
    var r := OctetsToBits(vs);
    OctetsToBitsAt(vs, 0);
    OctetsToBitsAt(vs, 1);
    OctetsToBitsAt(vs, 2);
    OctetsToBitsAt(vs, 3);
    SameOctetSlices(r, b);
  }

  lemma SameOctetSlices(r: seq<bool>, b: seq<bool>)
    requires |r| == 32 && |b| == 32
    requires r[..8] == b[..8] && r[8..16] == b[8..16] && r[16..24] == b[16..24] && r[24..32] == b[24..32]
    ensures r == b
  {
    forall i | 0 <= i < 32 ensures r[i] == b[i] {
      if i < 8 { assert r[i] == r[..8][i]; }
      else if i < 16 { assert r[i] == r[8..16][i - 8]; }
      else if i < 24 { assert r[i] == r[16..24][i - 16]; }
      else { assert r[i] == r[24..32][i - 24]; }
    }
  }

  /** ... and reading the octets of four joined octets gives them back. */
  lemma OctetsOfOctetsToBits(vs: seq<int>)
    requires |vs| == 4 && AllOctets(vs)
    ensures Octets(OctetsToBits(vs)) == vs
  {
    var b := OctetsToBits(vs);
    OctetsToBitsAt(vs, 0);
    OctetsToBitsAt(vs, 1);
    OctetsToBitsAt(vs, 2);
    OctetsToBitsAt(vs, 3);
    assert b[..8] == b[0..8] && b[24..] == b[24..32];
    var os := Octets(b);
    assert os[0] == vs[0] && os[1] == vs[1] && os[2] == vs[2] && os[3] == vs[3];
    SameFour(os, vs);
  }

  lemma SameFour(xs: seq<int>, ys: seq<int>)
    requires |xs| == 4 && |ys| == 4
    requires xs[0] == ys[0] && xs[1] == ys[1] && xs[2] == ys[2] && xs[3] == ys[3]
    ensures xs == ys
  {
  }

  /** The bits of one octet more are the bits so far and then its eight. */
  lemma OctetsPrefixNext(vs: seq<int>, i: nat)
    requires AllOctets(vs) && i < |vs|
    ensures AllOctets(vs[..i]) && AllOctets(vs[..i + 1])
    ensures OctetsToBits(vs[..i + 1]) == OctetsToBits(vs[..i]) + OctetBits(vs[i])
  {
    assert vs[..i + 1][..i] == vs[..i];
  }

  function And(a: seq<bool>, b: seq<bool>): (r: seq<bool>)
    requires |a| == |b|
    ensures |r| == |a| && forall i :: 0 <= i < |r| ==> r[i] == (a[i] && b[i])
  {
    seq(|a|, i requires 0 <= i < |a| => a[i] && b[i])
  }

  function Or(a: seq<bool>, b: seq<bool>): (r: seq<bool>)
    requires |a| == |b|
    ensures |r| == |a| && forall i :: 0 <= i < |r| ==> r[i] == (a[i] || b[i])
  {
    seq(|a|, i requires 0 <= i < |a| => a[i] || b[i])
  }

  function Not(a: seq<bool>): (r: seq<bool>)
    ensures |r| == |a| && forall i :: 0 <= i < |r| ==> r[i] == !a[i]
  {
    seq(|a|, i requires 0 <= i < |a| => !a[i])
  }

  function Xor(a: seq<bool>, b: seq<bool>): (r: seq<bool>)
    requires |a| == |b|
    ensures |r| == |a| && forall i :: 0 <= i < |r| ==> r[i] == (a[i] != b[i])
  {
    seq(|a|, i requires 0 <= i < |a| => a[i] != b[i])
  }

  /** `bitarray.index(True)`: the position of the first set bit; it raises
      ValueError (`None`) when no bit is set. */
  function FirstTrue(b: seq<bool>): (r: Option<nat>)
    ensures r.Some? ==> r.value < |b| && b[r.value] && forall j :: 0 <= j < r.value ==> !b[j]
    ensures r.None? ==> forall j :: 0 <= j < |b| ==> !b[j]
    decreases |b|
  {
    if b == [] then None
    else if b[0] then Some(0)
    else match FirstTrue(b[1..])
      case None => None
      case Some(k) => Some(k + 1)
  }

  /** `bitarray.to01()`: one `'0'` or `'1'` per bit. */
  function ToBitString(b: seq<bool>): (r: string)
  {
    seq(|b|, i requires 0 <= i < |b| => if b[i] then '1' else '0')
  }

  predicate IsBitString(s: string) { forall i :: 0 <= i < |s| ==> s[i] == '0' || s[i] == '1' }

  /** `bitarray(text)` on a text of `'0'` and `'1'` characters. */
  function FromBitString(s: string): (r: seq<bool>)
  {
    seq(|s|, i requires 0 <= i < |s| => s[i] == '1')
  }

  /** `to01` renders one character per bit, most significant first, and the
      `bitarray` constructor reads it back. */
  lemma BitStringRoundTrip(b: seq<bool>, s: string)
    ensures |ToBitString(b)| == |b| && IsBitString(ToBitString(b))
    ensures forall i :: 0 <= i < |b| ==> (ToBitString(b)[i] == '1' <==> b[i])
    ensures FromBitString(ToBitString(b)) == b
    ensures IsBitString(s) ==> ToBitString(FromBitString(s)) == s
  {
  }

  /** Prefixes of the text form agree exactly when the bit prefixes agree. */
  lemma BitStringPrefix(a: seq<bool>, b: seq<bool>, n: nat)
    requires n <= |a| && n <= |b|
    ensures ToBitString(a)[..n] == ToBitString(b)[..n] <==> a[..n] == b[..n]
  {
    if ToBitString(a)[..n] == ToBitString(b)[..n] {
      forall i | 0 <= i < n ensures a[i] == b[i] {
        assert ToBitString(a)[i] == ToBitString(b)[..n][i];
      }
    }
    if a[..n] == b[..n] {
      forall i | 0 <= i < n ensures ToBitString(a)[i] == ToBitString(b)[i] {
        assert a[i] == a[..n][i];
      }
    }
  }

  /** `'c' * n` */
  function Repeat(c: char, n: nat): (r: string)
    ensures |r| == n && forall i :: 0 <= i < n ==> r[i] == c
  {
    seq(n, i => c)
  }

  /** `bitarray('1' * m + '0' * (32 - m))`, the subnet mask of a /m block. */
  function MaskBits(m: nat): (r: seq<bool>)
    requires m <= 32
  {
    FromBitString(Repeat('1', m) + Repeat('0', 32 - m))
  }

  /** The mask of a /m block is 32 bits with exactly `m` leading ones. */
  lemma MaskBitsShape(m: nat)
    requires m <= 32
    ensures |MaskBits(m)| == 32
    ensures forall i :: 0 <= i < 32 ==> (MaskBits(m)[i] <==> i < m)
  {
    var t := Repeat('1', m) + Repeat('0', 32 - m);
    forall i | 0 <= i < 32 ensures (t[i] == '1') <==> i < m {
      if i < m { assert t[i] == Repeat('1', m)[i]; } else { assert t[i] == Repeat('0', 32 - m)[i - m]; }
    }
  }
}
