/** Byte buffers and the integer codecs under `foundation/src/bigint-buffer`, which go through hexadecimal
    strings.  A hexadecimal string is modelled as its sequence of digit values. */
module Bytes {

  newtype byte = x: int | 0 <= x < 256
  type Buffer = seq<byte>

  function Zeros(n: nat): (r: Buffer)
    ensures |r| == n && forall i :: 0 <= i < n ==> r[i] == 0
  {
    if n == 0 then [] else [0] + Zeros(n - 1)
  }

  type Digit = d: int | 0 <= d < 16

  /** `num.toString(16)` */
  function HexDigits(n: nat): (s: seq<Digit>)
    ensures |s| >= 1
  {
    if n < 16 then [n] else HexDigits(n / 16) + [n % 16]
  }

  /** `BigInt('0x' + s)`, and 0 for the empty string. */
  function HexValue(s: seq<Digit>): nat {
    if s == [] then 0 else 16 * HexValue(s[..|s| - 1]) + s[|s| - 1]
  }

  function ZeroDigits(n: nat): (s: seq<Digit>)
    ensures |s| == n
  {
    if n == 0 then [] else ZeroDigits(n - 1) + [0]
  }

  /** `s.padStart(width, '0')` */
  function PadStart(s: seq<Digit>, width: nat): (r: seq<Digit>)
    ensures |r| >= width
  {
    if |s| < width then ZeroDigits(width - |s|) + s else s
  }

  /** `Buffer.from(s, 'hex')`: two digits a byte, an odd last digit is dropped. */
  function FromHex(s: seq<Digit>): (b: Buffer)
    ensures |b| == |s| / 2
  {
    if |s| < 2 then [] else [(16 * (s[0] as int) + s[1] as int) as byte] + FromHex(s[2..])
  }

  /** `buf.toString('hex')` */
  function ToHex(b: Buffer): (s: seq<Digit>)
    ensures |s| == 2 * |b|
  {
    if b == [] then [] else [b[0] as int / 16, b[0] as int % 16] + ToHex(b[1..])
  }

  function ToBigIntBE(b: Buffer): nat {
    HexValue(ToHex(b))
  }

  /** The length guard after the conversion never fires: the digits are cut to `2 * width` before it. */
  function ToBufferBE(n: nat, width: nat): (b: Buffer)
    ensures |b| == width
  {
    FromHex(PadStart(HexDigits(n), 2 * width)[..2 * width])
  }

  function Reverse(b: Buffer): (r: Buffer)
    ensures |r| == |b|
    ensures forall i :: 0 <= i < |b| ==> r[i] == b[|b| - 1 - i]
  {
    if b == [] then [] else Reverse(b[1..]) + [b[0]]
  }

  function ToBigIntLE(b: Buffer): nat {
    ToBigIntBE(Reverse(b))
  }

  function ToBufferLE(n: nat, width: nat): (b: Buffer)
    ensures |b| == width
  {
    Reverse(ToBufferBE(n, width))
  }

  function Pow16(n: nat): (r: nat)
    ensures r >= 1
  {
    if n == 0 then 1 else 16 * Pow16(n - 1)
  }

  lemma {:induction false} HexOfBytes(s: seq<Digit>)
    requires |s| % 2 == 0
    ensures ToHex(FromHex(s)) == s
  {
    if s != [] {
      HexOfBytes(s[2..]);
      assert FromHex(s)[1..] == FromHex(s[2..]);
      assert s == [s[0], s[1]] + s[2..];
    }
  }

  lemma {:induction false} ValueOfDigits(n: nat)
    ensures HexValue(HexDigits(n)) == n
  {
    if n >= 16 {
      ValueOfDigits(n / 16);
      assert HexDigits(n)[..|HexDigits(n)| - 1] == HexDigits(n / 16);
    }
  }

  lemma {:induction false} ValueOfPadded(k: nat, s: seq<Digit>)
    ensures HexValue(ZeroDigits(k) + s) == HexValue(s)
  {
    if s != [] {
      ValueOfPadded(k, s[..|s| - 1]);
      assert (ZeroDigits(k) + s)[..k + |s| - 1] == ZeroDigits(k) + s[..|s| - 1];
    } else {
      assert ZeroDigits(k) + s == ZeroDigits(k);
      if k > 0 {
        ValueOfPadded(k - 1, []);
        assert ZeroDigits(k)[..k - 1] == ZeroDigits(k - 1) == ZeroDigits(k - 1) + [];
      }
    }
  }

  lemma {:induction false} ValueBound(s: seq<Digit>)
    ensures HexValue(s) < Pow16(|s|)
  {
    if s != [] { ValueBound(s[..|s| - 1]); }
  }

  lemma {:induction false} DigitCount(n: nat, k: nat)
    requires n < Pow16(k) && k >= 1
    ensures |HexDigits(n)| <= k
  {
    if n >= 16 { DigitCount(n / 16, k - 1); }
  }

  lemma {:induction false} PaddedDigits(n: nat, width: nat)
    requires n < Pow16(2 * width) && width > 0
    ensures |PadStart(HexDigits(n), 2 * width)| == 2 * width && HexValue(PadStart(HexDigits(n), 2 * width)) == n
  {
    hide HexDigits; hide ZeroDigits; hide Pow16; hide HexValue;
    DigitCount(n, 2 * width);
    ValueOfDigits(n);
    if |HexDigits(n)| < 2 * width { ValueOfPadded(2 * width - |HexDigits(n)|, HexDigits(n)); }
  }

  /** The big-endian codec loses nothing exactly when the number fits the width. */
  lemma BigEndianRoundTrip(n: nat, width: nat)
    ensures ToBigIntBE(ToBufferBE(n, width)) == n <==> n < Pow16(2 * width)
  {
    ValueBound(ToHex(ToBufferBE(n, width)));
    if n < Pow16(2 * width) {
      if width == 0 {
        assert ToBufferBE(n, 0) == [];
      } else {
        PaddedDigits(n, width);
        hide HexDigits; hide ZeroDigits; hide Pow16; hide HexValue; hide PadStart; hide ToHex; hide FromHex;
        var s := PadStart(HexDigits(n), 2 * width);
        assert s[..2 * width] == s;
        HexOfBytes(s);
      }
    }
  }

  /** The little-endian codec loses nothing exactly when the number fits the width. */
  lemma LittleEndianRoundTrip(n: nat, width: nat)
    ensures ToBigIntLE(ToBufferLE(n, width)) == n <==> n < Pow16(2 * width)
  {
    BigEndianRoundTrip(n, width);
    assert Reverse(Reverse(ToBufferBE(n, width))) == ToBufferBE(n, width);
  }

  lemma {:induction false} HexValueInjective(a: seq<Digit>, b: seq<Digit>)
    requires |a| == |b| && HexValue(a) == HexValue(b)
    ensures a == b
  {
    if a != [] {
      HexValueInjective(a[..|a| - 1], b[..|b| - 1]);
      assert a == a[..|a| - 1] + [a[|a| - 1]] && b == b[..|b| - 1] + [b[|b| - 1]];
    }
  }

  lemma {:induction false} ToHexInjective(a: Buffer, b: Buffer)
    requires |a| == |b| && ToHex(a) == ToHex(b)
    ensures a == b
  {
    if a != [] {
      assert ToHex(a)[2..] == ToHex(a[1..]) && ToHex(b)[2..] == ToHex(b[1..]);
      assert ToHex(a)[0] == a[0] as int / 16 && ToHex(a)[1] == a[0] as int % 16;
      assert ToHex(b)[0] == b[0] as int / 16 && ToHex(b)[1] == b[0] as int % 16;
      ToHexInjective(a[1..], b[1..]);
      assert a == [a[0]] + a[1..] && b == [b[0]] + b[1..];
    }
  }

  /** The other direction: a buffer is recovered from its number and its length. */
  lemma BufferRoundTrip(b: Buffer)
    ensures ToBufferBE(ToBigIntBE(b), |b|) == b
  {
    hide ToBufferBE; hide ToHex; hide HexValue; hide Pow16;
    var c := ToBufferBE(ToBigIntBE(b), |b|);
    ValueBound(ToHex(b));
    BigEndianRoundTrip(ToBigIntBE(b), |b|);
    HexValueInjective(ToHex(b), ToHex(c));
    ToHexInjective(b, c);
  }

  lemma {:induction false} HexOfConcat(a: Buffer, b: Buffer)
    ensures ToHex(a + b) == ToHex(a) + ToHex(b)
  {
    if a == [] {
      assert a + b == b;
    } else {
      HexOfConcat(a[1..], b);
      assert (a + b)[1..] == a[1..] + b;
    }
  }

  lemma LastDigit(s: seq<Digit>, d: Digit)
    ensures HexValue(s + [d]) == 16 * HexValue(s) + d
  {
    assert (s + [d])[..|s|] == s;
  }

  /** The last byte of a big-endian buffer is the least significant one. */
  lemma BigEndianLast(b: Buffer, x: byte)
    ensures ToBigIntBE(b + [x]) == 256 * ToBigIntBE(b) + x as int
  {
    HexOfConcat(b, [x]);
    var s, d := ToHex(b), [x as int / 16, x as int % 16];
    assert ToHex([x]) == d;
    LastDigit(s, d[0]);
    LastDigit(s + [d[0]], d[1]);
    assert s + d == s + [d[0]] + [d[1]];
  }

  /** The first byte of a little-endian buffer is the least significant one. */
  lemma LittleEndianFirst(x: byte, b: Buffer)
    ensures ToBigIntLE([x] + b) == x as int + 256 * ToBigIntLE(b)
  {
    hide ToBigIntBE;
    assert Reverse([x] + b) == Reverse(b) + [x] by { assert ([x] + b)[1..] == b; }
    BigEndianLast(Reverse(b), x);
  }

  /** The 32-bit formats are those of four-byte integers. */
  lemma U32Bytes(n: nat)
    requires n < U32_LIMIT
    ensures U32BE(n) == ToBufferBE(n, 4) && U32LE(n) == ToBufferLE(n, 4)
  {
    var b := U32BE(n);
    hide ToBigIntBE; hide ToBufferBE;
    EmptyValue();
    BigEndianLast([], b[0]);
    BigEndianLast([b[0]], b[1]);
    BigEndianLast([b[0], b[1]], b[2]);
    BigEndianLast([b[0], b[1], b[2]], b[3]);
    assert [] + [b[0]] == [b[0]] && [b[0]] + [b[1]] == [b[0], b[1]] && [b[0], b[1]] + [b[2]] == [b[0], b[1], b[2]];
    assert b == [b[0], b[1], b[2]] + [b[3]];
    U32RoundTrip(n, []);
    assert b + [] == b;
    assert ToBigIntBE(b) == n;
    BufferRoundTrip(b);
  }

  lemma EmptyValue()
    ensures ToBigIntBE([]) == 0
  {
  }

  const U32_LIMIT := 0x1_0000_0000

  /** `writeUInt32BE` (and `writeInt32BE` for values below 2^31). */
  function U32BE(n: nat): (b: Buffer)
    requires n < U32_LIMIT
    ensures |b| == 4
  {
    [(n / 0x100_0000) as byte, (n / 0x1_0000 % 256) as byte, (n / 0x100 % 256) as byte, (n % 256) as byte]
  }

  /** `readUInt32BE` on the first four bytes. */
  function ReadU32BE(b: Buffer): (n: nat)
    requires |b| >= 4
    ensures n < U32_LIMIT
  {
    b[0] as int * 0x100_0000 + b[1] as int * 0x1_0000 + b[2] as int * 0x100 + b[3] as int
  }

  lemma U32RoundTrip(n: nat, rest: Buffer)
    requires n < U32_LIMIT
    ensures ReadU32BE(U32BE(n) + rest) == n
  {
    var high := n / 0x100;
    assert n / 0x1_0000 == high / 0x100 && n / 0x100_0000 == high / 0x100 / 0x100;
  }

  function U32LE(n: nat): (b: Buffer)
    requires n < U32_LIMIT
    ensures |b| == 4
  {
    Reverse(U32BE(n))
  }

  function ReadU32LE(b: Buffer): nat
    requires |b| >= 4
  {
    ReadU32BE(Reverse(b[..4]))
  }

  lemma U32LERoundTrip(n: nat)
    requires n < U32_LIMIT
    ensures ReadU32LE(U32LE(n)) == n
  {
    assert U32LE(n)[..4] == U32LE(n);
    assert Reverse(U32LE(n)) == U32BE(n) == U32BE(n) + [];
    U32RoundTrip(n, []);
  }
}
