/** The UTF-8 encoder of gtest, compared with that of tinyxml2. */
module CodePoints {
  import opened Text
  import opened Entities

  const MAX_CODE_POINT_1 := 0x7F
  const MAX_CODE_POINT_2 := 0x7FF
  const MAX_CODE_POINT_3 := 0xFFFF
  const MAX_CODE_POINT_4 := 0x1F_FFFF

  /** The six lowest bits, and the bits above them. */
  function ChopLowBits(bits: nat): (r: (nat, nat))
    ensures r.0 < 64 && bits == r.1 * 64 + r.0
  {
    (bits % 64, bits / 64)
  }

  function HexText(n: nat): string {
    (if n < 16 then "" else HexText(n / 16)) + ["0123456789ABCDEF"[n % 16]]
  }

  /** The string that starts at the beginning of a buffer and ends at its first terminator. */
  function CString(b: string): (r: string)
    ensures |r| <= |b| && NUL !in r && r == b[..|r|] && (|r| < |b| ==> b[|r|] == NUL)
  {
    if b == "" || b[0] == NUL then "" else [b[0]] + CString(b[1..])
  }

  lemma {:induction false} CStringIs(b: string, n: nat)
    requires n < |b| && b[n] == NUL && NUL !in b[..n]
    ensures CString(b) == b[..n]
  {
    if n > 0 {
      assert b[0] == b[..n][0] && b[1..][..n - 1] == b[..n][1..];
      CStringIs(b[1..], n - 1);
    }
  }

  function Refusal(codePoint: nat): string {
    "(Invalid Unicode 0x" + HexText(codePoint) + ")"
  }

  /** What the comment promises: UTF-8 for the numbers up to 0x10FFFF, and a message for all others. */
  function Promised(codePoint: nat): string {
    if codePoint <= 0x10_FFFF then Utf8(codePoint) else Refusal(codePoint)
  }

  lemma Chops(c: nat)
    ensures ChopLowBits(c) == (c % 64, c / 64)
    ensures ChopLowBits(c / 64) == (c / 64 % 64, c / 4096)
    ensures ChopLowBits(c / 4096) == (c / 4096 % 64, c / 262144)
  {
    assert c / 64 / 64 == c / 4096;
    assert c / 4096 / 64 == c / 262144;
  }

  /** A message is no encoding. */
  lemma Told(c: nat)
    ensures |Refusal(c)| > 4 && Utf8(c) != Refusal(c)
  {
    hide HexText;
  }

  /** Code points that tinyxml2 writes in no byte are spelled out here, and the terminator gets lost. For all others,
      the two encoders agree. */
  method CodePointToUtf8(codePoint: nat) returns (r: string)
    requires codePoint < 0x1_0000_0000
    ensures r == Utf8(codePoint) <==> 0 < codePoint < 0x20_0000
    ensures codePoint == 0 ==> r == ""
    ensures codePoint >= 0x20_0000 ==> r == Refusal(codePoint)
    ensures r == Promised(codePoint) <==> 0 < codePoint < 0x11_0000 || 0x20_0000 <= codePoint
  {
    hide ChopLowBits, CString, HexText;
    Chops(codePoint);
    Told(codePoint);
    if codePoint > MAX_CODE_POINT_4 {
      return Refusal(codePoint);
    }
    var str := new char[5];
    if codePoint <= MAX_CODE_POINT_1 {
      str[1] := NUL;
      str[0] := codePoint as char;
      Finish(str[..], codePoint, 1);
    } else if codePoint <= MAX_CODE_POINT_2 {
      str[2] := NUL;
      var last := ChopLowBits(codePoint);
      str[1] := (0x80 + last.0) as char;
      str[0] := (0xC0 + last.1) as char;
      Finish(str[..], codePoint, 2);
    } else if codePoint <= MAX_CODE_POINT_3 {
      str[3] := NUL;
      var last := ChopLowBits(codePoint);
      str[2] := (0x80 + last.0) as char;
      var middle := ChopLowBits(last.1);
      str[1] := (0x80 + middle.0) as char;
      str[0] := (0xE0 + middle.1) as char;
      Finish(str[..], codePoint, 3);
    } else {
      str[4] := NUL;
      var last := ChopLowBits(codePoint);
      str[3] := (0x80 + last.0) as char;
      var third := ChopLowBits(last.1);
      str[2] := (0x80 + third.0) as char;
      var second := ChopLowBits(third.1);
      str[1] := (0x80 + second.0) as char;
      str[0] := (0xF0 + second.1) as char;
      Finish(str[..], codePoint, 4);
    }
    return CString(str[..]);
  }

  /** The bytes of a buffer that holds an encoding and a terminator. */
  lemma Finish(b: string, c: nat, n: nat)
    requires 1 <= n <= 4 && |b| == 5 && c <= MAX_CODE_POINT_4 && b[n] == NUL && |Utf8(c)| == n
    requires forall k :: 0 <= k < n ==> b[k] == Utf8(c)[k]
    ensures CString(b) == if c == 0 then "" else Utf8(c)
  {
    Utf8RoundTrip(c);
    if c == 0 {
      CStringIs(b, 0);
    } else {
      assert b[..n] == Utf8(c);
      if n == 1 {
        assert b[0] == c as char && c as char != NUL;
      }
      CStringIs(b, n);
    }
  }
}
