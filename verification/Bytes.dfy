/** The two integer widths of the wire, and how a 16-bit value splits into bytes. */
module Bytes {
  type byte = b: int | 0 <= b < 256
  type word = w: int | 0 <= w < 65536

  /** `x >> 8` stored into a byte; `x` may be any C int, the store truncates. */
  function Hi(x: int): byte {
    x / 256 % 256
  }

  /** `x & 0x00ff`. */
  function Lo(x: int): byte {
    x % 256
  }

  /** `(hi << 8) + lo`. */
  function Word(hi: byte, lo: byte): word {
    hi * 256 + lo
  }

  /** The `k` lowest bits of a number, least significant first. */
  function ToBits(n: nat, k: nat): (s: seq<bool>)
    ensures |s| == k
  {
    if k == 0 then [] else [n % 2 == 1] + ToBits(n / 2, k - 1)
  }

  function FromBits(s: seq<bool>): nat {
    if |s| == 0 then 0 else (if s[0] then 1 else 0) + 2 * FromBits(s[1..])
  }

  predicate Fits(n: nat, k: nat) {
    if k == 0 then n == 0 else Fits(n / 2, k - 1)
  }

  lemma {:induction false} FromToBits(n: nat, k: nat)
    requires Fits(n, k)
    ensures FromBits(ToBits(n, k)) == n
  {
    if k > 0 {
      FromToBits(n / 2, k - 1);
      assert ToBits(n, k)[1..] == ToBits(n / 2, k - 1);
    }
  }

  lemma {:induction false} ToFromBits(s: seq<bool>)
    ensures Fits(FromBits(s), |s|) && ToBits(FromBits(s), |s|) == s
  {
    if |s| > 0 {
      ToFromBits(s[1..]);
      assert FromBits(s) / 2 == FromBits(s[1..]);
      assert s == [s[0]] + s[1..];
    }
  }

  lemma FitsByte(n: nat)
    ensures Fits(n, 8) <==> n < 256
  {
    var h := n / 2 / 2 / 2 / 2;
    assert Fits(n, 8) == Fits(n / 2, 7) == Fits(n / 2 / 2, 6) == Fits(n / 2 / 2 / 2, 5) == Fits(h, 4);
    assert Fits(h, 4) == Fits(h / 2, 3) == Fits(h / 2 / 2, 2) == Fits(h / 2 / 2 / 2, 1);
  }

  function ByteBits(b: byte): (s: seq<bool>)
    ensures |s| == 8
  {
    ToBits(b, 8)
  }

  lemma ByteBitsInjective(a: byte, b: byte)
    requires ByteBits(a) == ByteBits(b)
    ensures a == b
  {
    FitsByte(a);
    FitsByte(b);
    FromToBits(a, 8);
    FromToBits(b, 8);
  }

  function Weight(bit: bool, weight: bv8): bv8 {
    if bit then weight else 0
  }

  function Weighted(b0: bool, b1: bool, b2: bool, b3: bool, b4: bool, b5: bool, b6: bool, b7: bool): bv8 {
    Weight(b0, 1) | Weight(b1, 2) | Weight(b2, 4) | Weight(b3, 8)
    | Weight(b4, 16) | Weight(b5, 32) | Weight(b6, 64) | Weight(b7, 128)
  }

  function Pack8(s: seq<bool>): bv8
    requires |s| == 8
  {
    Weighted(s[0], s[1], s[2], s[3], s[4], s[5], s[6], s[7])
  }

  function Unpack8(v: bv8): (s: seq<bool>)
    ensures |s| == 8
  {
    [Bit(v, 1), Bit(v, 2), Bit(v, 4), Bit(v, 8), Bit(v, 16), Bit(v, 32), Bit(v, 64), Bit(v, 128)]
  }

  function Bit(v: bv8, mask: bv8): bool {
    v & mask != 0
  }

  lemma UnpackWeighted(b0: bool, b1: bool, b2: bool, b3: bool, b4: bool, b5: bool, b6: bool, b7: bool)
    ensures Unpack8(Weighted(b0, b1, b2, b3, b4, b5, b6, b7)) == [b0, b1, b2, b3, b4, b5, b6, b7]
  {
  }

  lemma EightElements(s: seq<bool>)
    requires |s| == 8
    ensures s == [s[0], s[1], s[2], s[3], s[4], s[5], s[6], s[7]]
  {
  }

  lemma UnpackPack(s: seq<bool>)
    requires |s| == 8
    ensures Unpack8(Pack8(s)) == s
  {
    UnpackWeighted(s[0], s[1], s[2], s[3], s[4], s[5], s[6], s[7]);
    EightElements(s);
  }

  lemma PackUnpack(v: bv8)
    ensures Pack8(Unpack8(v)) == v
  {
  }

  /** A byte as the eight-bit machine value on which `^`, `&` and `<<` work. */
  function Octet(b: byte): (v: bv8)
    ensures Unpack8(v) == ByteBits(b)
  {
    UnpackPack(ByteBits(b));
    Pack8(ByteBits(b))
  }

  function OctetValue(v: bv8): (b: byte)
    ensures ByteBits(b) == Unpack8(v) && Octet(b) == v
  {
    ToFromBits(Unpack8(v));
    FitsByte(FromBits(Unpack8(v)));
    PackUnpack(v);
    FromBits(Unpack8(v))
  }

  lemma OctetInjective(a: byte, b: byte)
    requires Octet(a) == Octet(b)
    ensures a == b
  {
    ByteBitsInjective(a, b);
  }

  function XorBits(s: seq<bool>, t: seq<bool>): (u: seq<bool>)
    requires |s| == |t| == 8
    ensures |u| == 8
  {
    [s[0] != t[0], s[1] != t[1], s[2] != t[2], s[3] != t[3],
     s[4] != t[4], s[5] != t[5], s[6] != t[6], s[7] != t[7]]
  }

  function XorOctets(a: bv8, b: bv8): bv8 {
    a ^ b
  }

  lemma XorBit(a: bv8, b: bv8)
    ensures Bit(XorOctets(a, b), 1) == (Bit(a, 1) != Bit(b, 1))
    ensures Bit(XorOctets(a, b), 2) == (Bit(a, 2) != Bit(b, 2))
    ensures Bit(XorOctets(a, b), 4) == (Bit(a, 4) != Bit(b, 4))
    ensures Bit(XorOctets(a, b), 8) == (Bit(a, 8) != Bit(b, 8))
    ensures Bit(XorOctets(a, b), 16) == (Bit(a, 16) != Bit(b, 16))
    ensures Bit(XorOctets(a, b), 32) == (Bit(a, 32) != Bit(b, 32))
    ensures Bit(XorOctets(a, b), 64) == (Bit(a, 64) != Bit(b, 64))
    ensures Bit(XorOctets(a, b), 128) == (Bit(a, 128) != Bit(b, 128))
  {
  }

  lemma UnpackXor(a: bv8, b: bv8)
    ensures Unpack8(XorOctets(a, b)) == XorBits(Unpack8(a), Unpack8(b))
  {
    hide Bit, XorOctets;
    XorBit(a, b);
  }
}
