/** Bytes, big-endian integers and hexadecimal text. */
module Bytes {
  import opened Arithmetic

  type byte = x: int | 0 <= x < 256

  // ----- big-endian unsigned integers (struct formats "!H", "!I", "!Q") -----

  function U16(b: seq<byte>): (n: nat)
    requires |b| == 2
    ensures n < 0x1_0000
  {
    (b[0] as int) * 256 + b[1] as int
  }

  function U32(b: seq<byte>): (n: nat)
    requires |b| == 4
    ensures n < 0x1_0000_0000
  {
    0x1_0000 * U16(b[..2]) + U16(b[2..])
  }

  function U64(b: seq<byte>): (n: nat)
    requires |b| == 8
    ensures n < 0x1_0000_0000_0000_0000
  {
    0x1_0000_0000 * U32(b[..4]) + U32(b[4..])
  }

  function Pack16(n: nat): (b: seq<byte>)
    requires n < 0x1_0000
    ensures |b| == 2 && U16(b) == n
  {
    [n / 256, n % 256]
  }

  function Pack32(n: nat): (b: seq<byte>)
    requires n < 0x1_0000_0000
    ensures |b| == 4 && U32(b) == n
  {
    var b := Pack16(n / 0x1_0000) + Pack16(n % 0x1_0000);
    assert b[..2] == Pack16(n / 0x1_0000) && b[2..] == Pack16(n % 0x1_0000);
    b
  }

  function Pack64(n: nat): (b: seq<byte>)
    requires n < 0x1_0000_0000_0000_0000
    ensures |b| == 8 && U64(b) == n
  {
    var b := Pack32(n / 0x1_0000_0000) + Pack32(n % 0x1_0000_0000);
    assert b[..4] == Pack32(n / 0x1_0000_0000) && b[4..] == Pack32(n % 0x1_0000_0000);
    b
  }

  /** The signed byte of struct format "!b". */
  function Signed(b: byte): int {
    if b < 128 then b else b - 256
  }

  /** The integer formats, byte by byte. */
  lemma BigEndian(b: seq<byte>)
    ensures |b| == 2 ==> U16(b) == 0x100 * (b[0] as int) + b[1] as int
    ensures |b| == 4 ==>
              U32(b) == 0x100_0000 * (b[0] as int) + 0x1_0000 * (b[1] as int) + 0x100 * (b[2] as int) + b[3] as int
    ensures |b| == 8 ==>
              U64(b) == 0x100_0000_0000_0000 * (b[0] as int) + 0x1_0000_0000_0000 * (b[1] as int)
                        + 0x100_0000_0000 * (b[2] as int) + 0x1_0000_0000 * (b[3] as int)
                        + 0x100_0000 * (b[4] as int) + 0x1_0000 * (b[5] as int)
                        + 0x100 * (b[6] as int) + b[7] as int
  {
    if |b| == 8 {
      BigEndian(b[..4]);
      BigEndian(b[4..]);
    }
  }

  /** The signed byte is the one number of that range with these bits. */
  lemma TwosComplement(b: byte)
    ensures -128 <= Signed(b) < 128 && (Signed(b) - b as int) % 256 == 0
  {
  }

  // ----- hexadecimal text -----

  predicate IsHexDigit(c: char) {
    '0' <= c <= '9' || 'A' <= c <= 'F'
  }

  function HexDigit(n: nat): (c: char)
    requires n < 16
    ensures IsHexDigit(c)
  {
    if n < 10 then '0' + n as char else 'A' + (n - 10) as char
  }

  function HexDigitValue(c: char): (n: nat)
    requires IsHexDigit(c)
    ensures n < 16 && HexDigit(n) == c
  {
    if c <= '9' then (c - '0') as int else (c - 'A') as int + 10
  }

  predicate IsHex(s: string) {
    forall i :: 0 <= i < |s| ==> IsHexDigit(s[i])
  }

  /** The text of `bytes.hex().upper()`. */
  function HexOf(bs: seq<byte>): (s: string)
    ensures IsHex(s) && |s| == 2 * |bs|
  {
    if bs == [] then "" else HexOf(bs[..|bs| - 1]) + [HexDigit(bs[|bs| - 1] / 16), HexDigit(bs[|bs| - 1] % 16)]
  }

  /** Hexadecimal digits are these sixteen, in this order. */
  lemma HexDigits(c: char)
    ensures IsHexDigit(c) <==> c in "0123456789ABCDEF"
    ensures IsHexDigit(c) ==> "0123456789ABCDEF"[HexDigitValue(c)] == c
  {
    var digits := "0123456789ABCDEF";
    if IsHexDigit(c) {
      assert digits[HexDigitValue(c)] == c;
    }
  }

  /** Every byte becomes two of them, the high half first. */
  lemma {:induction false} HexOfAt(bs: seq<byte>, i: nat)
    requires i < |bs|
    ensures HexOf(bs)[2 * i] == "0123456789ABCDEF"[bs[i] / 16]
    ensures HexOf(bs)[2 * i + 1] == "0123456789ABCDEF"[bs[i] % 16]
  {
    HexDigits(HexDigit(bs[i] / 16));
    HexDigits(HexDigit(bs[i] % 16));
    if i < |bs| - 1 {
      HexOfAt(bs[..|bs| - 1], i);
    }
  }

  /** The bytes that hexadecimal text of whole bytes writes. */
  function BytesOf(s: string): (bs: seq<byte>)
    requires IsHex(s) && |s| % 2 == 0
    ensures |bs| == |s| / 2
  {
    if s == "" then []
    else BytesOf(s[..|s| - 2]) + [16 * HexDigitValue(s[|s| - 2]) + HexDigitValue(s[|s| - 1])]
  }

  lemma {:induction false} HexOfBytes(s: string)
    requires IsHex(s) && |s| % 2 == 0
    ensures HexOf(BytesOf(s)) == s
  {
    if s != "" {
      var front, high, low := s[..|s| - 2], HexDigitValue(s[|s| - 2]), HexDigitValue(s[|s| - 1]);
      var bs := BytesOf(s);
      HexOfBytes(front);
      assert bs[..|bs| - 1] == BytesOf(front) && bs[|bs| - 1] == 16 * high + low;
      assert (16 * high + low) / 16 == high && (16 * high + low) % 16 == low;
      assert s == front + [s[|s| - 2], s[|s| - 1]];
    }
  }

  /** The number written by hexadecimal text, as `int(s, 16)` reads it. */
  function HexValue(s: string): nat
    requires IsHex(s)
  {
    if s == "" then 0 else 16 * HexValue(s[..|s| - 1]) + HexDigitValue(s[|s| - 1])
  }

  /** The low `width` hexadecimal digits of a number. */
  function ToHex(n: nat, width: nat): (s: string)
    ensures |s| == width && IsHex(s)
  {
    if width == 0 then "" else ToHex(n / 16, width - 1) + [HexDigit(n % 16)]
  }

  function Pow16(k: nat): (p: nat)
    ensures p > 0
  {
    if k == 0 then 1 else 16 * Pow16(k - 1)
  }

  /** Writing a number in enough digits and reading it back gives the number. */
  lemma {:induction false} HexRoundTrip(n: nat, width: nat)
    requires n < Pow16(width)
    ensures HexValue(ToHex(n, width)) == n
  {
    if width != 0 {
      HexRoundTrip(n / 16, width - 1);
      var s := ToHex(n, width);
      assert s[..|s| - 1] == ToHex(n / 16, width - 1);
    }
  }

  /** Reading hexadecimal text and writing it back at the same width gives the text. */
  lemma {:induction false} HexTextRoundTrip(s: string)
    requires IsHex(s)
    ensures HexValue(s) < Pow16(|s|)
    ensures ToHex(HexValue(s), |s|) == s
  {
    if s != "" {
      var t, d := s[..|s| - 1], HexDigitValue(s[|s| - 1]);
      HexTextRoundTrip(t);
      assert HexValue(s) / 16 == HexValue(t) && HexValue(s) % 16 == d;
      assert s == t + [s[|s| - 1]];
    }
  }

  /** Hexadecimal text is positional: a left part counts for a power of 16 more. */
  lemma {:induction false} HexConcat(a: string, b: string)
    requires IsHex(a) && IsHex(b)
    ensures HexValue(a + b) == HexValue(a) * Pow16(|b|) + HexValue(b)
  {
    if b == "" {
      assert a + b == a;
    } else {
      var c, t, s := b[..|b| - 1], b[|b| - 1], a + b;
      HexConcat(a, c);
      assert s[..|s| - 1] == a + c && s[|s| - 1] == t;
      ShiftDigit(HexValue(a), Pow16(|c|), HexValue(c), HexDigitValue(t));
    }
  }

  lemma Pow16Values()
    ensures Pow16(22) == 0x100_0000_0000_0000_0000_0000
    ensures Pow16(24) == 0x1_0000_0000_0000_0000_0000_0000
  {
    assert Pow16(4) == 0x1_0000;
    assert Pow16(8) == 0x1_0000_0000;
    assert Pow16(12) == 0x1_0000_0000_0000;
    assert Pow16(16) == 0x1_0000_0000_0000_0000;
    assert Pow16(20) == 0x1_0000_0000_0000_0000_0000;
  }
}
