/** Conversions between numbers and big-endian bytes, and the fixed-width encoding of curve points. */
module Bignum {
  import opened Base

  /** BN_bn2bin: as few bytes as possible, none for 0. */
  function ToBytes(n: nat): seq<byte> { if n == 0 then [] else ToBytes(n / 256) + [n % 256] }

  /** BN_bin2bn */
  function FromBytes(v: seq<byte>): nat { if v == [] then 0 else FromBytes(v[..|v| - 1]) * 256 + v[|v| - 1] }

  function NumBytes(n: nat): nat { |ToBytes(n)| }

  /** BN_to_vec and vec_to_BN: an empty vector is not a number, and the number 0 gives an empty vector. */
  function BnToVec(bn: Option<nat>): seq<byte> { if bn == None then [] else ToBytes(bn.value) }
  function VecToBn(v: seq<byte>): Option<nat> { if v == [] then None else Some(FromBytes(v)) }

  function Stripped(v: seq<byte>): seq<byte> { if v != [] && v[0] == 0 then Stripped(v[1..]) else v }

  lemma {:induction false} FromTo(n: nat)
    ensures FromBytes(ToBytes(n)) == n && (n > 0 ==> ToBytes(n) != [] && ToBytes(n)[0] != 0)
  {
    if n > 0 {
      FromTo(n / 256);
      assert ToBytes(n)[..|ToBytes(n)| - 1] == ToBytes(n / 256);
    }
  }

  lemma {:induction false} ToFrom(v: seq<byte>)
    requires v == [] || v[0] != 0
    ensures ToBytes(FromBytes(v)) == v
  {
    if v != [] {
      var k := |v| - 1;
      if k > 0 { assert v[..k][0] == v[0]; }
      ToFrom(v[..k]);
      assert FromBytes(v) / 256 == FromBytes(v[..k]) && FromBytes(v) % 256 == v[k];
    }
  }

  lemma {:induction false} LeadingZero(v: seq<byte>)
    ensures FromBytes([0] + v) == FromBytes(v)
  {
    if v != [] {
      LeadingZero(v[..|v| - 1]);
      assert ([0] + v)[..|v|] == [0] + v[..|v| - 1];
    } else {
      assert ([0] + v)[..0] == [];
    }
  }

  lemma {:induction false} StrippedSame(v: seq<byte>)
    ensures FromBytes(Stripped(v)) == FromBytes(v) && (Stripped(v) == [] || Stripped(v)[0] != 0)
  {
    if v != [] && v[0] == 0 {
      assert v == [0] + v[1..];
      LeadingZero(v[1..]);
      StrippedSame(v[1..]);
    }
  }

  /** A number survives the round trip through bytes exactly when it is not 0; bytes come back without their leading
      zeros. */
  lemma {:induction false} BignumRoundTrip(n: nat, v: seq<byte>)
    ensures VecToBn(BnToVec(Some(n))) == Some(n) <==> n > 0
    ensures v != [] ==> BnToVec(VecToBn(v)) == Stripped(v)
  {
    FromTo(n);
    StrippedSame(v);
    ToFrom(Stripped(v));
  }

  // -- Points -----------------------------------------------------------------------------------------

  lemma {:induction false} FewerBytes(m: nat, n: nat)
    requires m <= n
    ensures NumBytes(m) <= NumBytes(n)
  {
    if m > 0 { FewerBytes(m / 256, n / 256); }
  }

  lemma {:induction false} PaddedSame(k: nat, v: seq<byte>)
    ensures FromBytes(Zeros(k) + v) == FromBytes(v)
  {
    if k > 0 {
      PaddedSame(k - 1, v);
      LeadingZero(Zeros(k - 1) + v);
      assert Zeros(k) + v == [0] + (Zeros(k - 1) + v);
    } else {
      assert Zeros(0) + v == v;
    }
  }

  /** encode_ec_point: both coordinates in the width of the prime, which they do not exceed. */
  method EncodePoint(prime: nat, x: nat, y: nat) returns (r: seq<byte>)
    requires x < prime && y < prime
    ensures r == Encoded(prime, x, y)
  {
    FewerBytes(x, prime);
    FewerBytes(y, prime);
    var width := NumBytes(prime);
    var buff := Zeros(2 * width);
    var atX, atY := width - NumBytes(x), 2 * width - NumBytes(y);
    buff := buff[..atX] + ToBytes(x) + buff[width..];
    buff := buff[..atY] + ToBytes(y);
    r := buff;
  }

  function Fixed(width: nat, n: nat): seq<byte>
    requires NumBytes(n) <= width
  {
    Zeros(width - NumBytes(n)) + ToBytes(n)
  }

  ghost function Encoded(prime: nat, x: nat, y: nat): (r: seq<byte>)
    requires x < prime && y < prime
    ensures |r| == 2 * NumBytes(prime)
  {
    FewerBytes(x, prime);
    FewerBytes(y, prime);
    Fixed(NumBytes(prime), x) + Fixed(NumBytes(prime), y)
  }

  /** decode_ec_point: the check that the point lies on the curve is a parameter. */
  function DecodePoint(prime: nat, onCurve: (nat, nat) -> bool, b: seq<byte>): Option<(nat, nat)>
    requires |b| == 2 * NumBytes(prime)
  {
    var x, y := FromBytes(b[..NumBytes(prime)]), FromBytes(b[NumBytes(prime)..]);
    if onCurve(x, y) then Some((x, y)) else None
  }

  /** Decoding an encoded point gives its coordinates back if they are on the curve and nothing otherwise, for every
      prime; and two points never share an encoding. */
  lemma {:induction false} PointRoundTrip(prime: nat, onCurve: (nat, nat) -> bool, x: nat, y: nat)
    requires x < prime && y < prime
    ensures DecodePoint(prime, onCurve, Encoded(prime, x, y)) == if onCurve(x, y) then Some((x, y)) else None
  {
    FewerBytes(x, prime);
    FewerBytes(y, prime);
    var w := NumBytes(prime);
    var b := Encoded(prime, x, y);
    assert b[..w] == Fixed(w, x) && b[w..] == Fixed(w, y);
    PaddedSame(w - NumBytes(x), ToBytes(x));
    PaddedSame(w - NumBytes(y), ToBytes(y));
    FromTo(x);
    FromTo(y);
  }

  lemma {:induction false} EncodedInjective(prime: nat, x: nat, y: nat, x': nat, y': nat)
    requires x < prime && y < prime && x' < prime && y' < prime && Encoded(prime, x, y) == Encoded(prime, x', y')
    ensures x == x' && y == y'
  {
    PointRoundTrip(prime, (_, _) => true, x, y);
    PointRoundTrip(prime, (_, _) => true, x', y');
  }
}
