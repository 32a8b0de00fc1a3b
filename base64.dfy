/** Base64 as in section 4 of RFC 4648: the standard 64-character alphabet,
    each 3 bytes written as 4 characters, a short final group padded with '='. */
module Base64 {
  import opened Results
  import opened Ascii

  const Pad: char := '='

  /** The character that writes the 6-bit value v: Table 1 of RFC 4648,
      'A'..'Z' for 0..25, 'a'..'z' for 26..51, '0'..'9' for 52..61, then
      '+' and '/'. */
  function SextetChar(v: int): (c: char)
    requires 0 <= v < 64
    ensures IsAsciiChar(c) && c != Pad
  {
    if v < 26 then ('A' as int + v) as char
    else if v < 52 then ('a' as int + (v - 26)) as char
    else if v < 62 then ('0' as int + (v - 52)) as char
    else if v == 62 then '+'
    else '/'
  }

  predicate IsBase64Char(c: char) {
    ('A' <= c <= 'Z') || ('a' <= c <= 'z') || ('0' <= c <= '9') || c == '+' || c == '/'
  }

  /** The 6-bit value an alphabet character stands for. */
  function CharValue(c: char): (v: int)
    requires IsBase64Char(c)
    ensures 0 <= v < 64 && SextetChar(v) == c
  {
    if 'A' <= c <= 'Z' then c as int - 'A' as int
    else if 'a' <= c <= 'z' then c as int - 'a' as int + 26
    else if '0' <= c <= '9' then c as int - '0' as int + 52
    else if c == '+' then 62
    else 63
  }

  /** Every written character belongs to the alphabet and reads back as
      the value it writes. */
  lemma CharValueOfSextetChar(v: int)
    requires 0 <= v < 64
    ensures IsBase64Char(SextetChar(v)) && CharValue(SextetChar(v)) == v
  {
  }

  /** A full group: three bytes as four characters. */
  function EncodeTriple(b0: byte, b1: byte, b2: byte): (g: string)
    ensures |g| == 4 && IsAscii(g)
  {
    [ SextetChar(b0 as int / 4),
      SextetChar((b0 as int % 4) * 16 + b1 as int / 16),
      SextetChar((b1 as int % 16) * 4 + b2 as int / 64),
      SextetChar(b2 as int % 64) ]
  }

  /** Base64 text of a byte sequence. */
  function Encode(bs: seq<byte>): (s: string)
    ensures |s| == 4 * ((|bs| + 2) / 3)
    ensures |s| % 4 == 0 && (|s| == 0 <==> |bs| == 0)
    ensures IsAscii(s)
    decreases |bs|
  {
    if |bs| == 0 then ""
    else if |bs| == 1 then
      var g := [SextetChar(bs[0] as int / 4), SextetChar((bs[0] as int % 4) * 16), Pad, Pad];
      assert forall i :: 0 <= i < 4 ==> IsAsciiChar(g[i]);
      g
    else if |bs| == 2 then
      var g := [ SextetChar(bs[0] as int / 4),
                 SextetChar((bs[0] as int % 4) * 16 + bs[1] as int / 16),
                 SextetChar((bs[1] as int % 16) * 4),
                 Pad ];
      assert forall i :: 0 <= i < 4 ==> IsAsciiChar(g[i]);
      g
    else
      var head, tail := EncodeTriple(bs[0], bs[1], bs[2]), Encode(bs[3..]);
      assert (|bs| + 2) / 3 == (|bs[3..]| + 2) / 3 + 1;
      AsciiConcat(head, tail);
      head + tail
  }

  /** Joining two ASCII texts gives ASCII text. */
  lemma AsciiConcat(a: string, b: string)
    requires IsAscii(a) && IsAscii(b)
    ensures IsAscii(a + b)
  {
    forall i | 0 <= i < |a + b| ensures IsAsciiChar((a + b)[i]) {
      if i >= |a| { assert (a + b)[i] == b[i - |a|]; }
    }
  }

  /** Three bytes from four 6-bit values. */
  function DecodeQuad(c0: int, c1: int, c2: int, c3: int): (bs: seq<byte>)
    requires 0 <= c0 < 64 && 0 <= c1 < 64 && 0 <= c2 < 64 && 0 <= c3 < 64
    ensures |bs| == 3
  {
    [ (c0 * 4 + c1 / 16) as byte, ((c1 % 16) * 16 + c2 / 4) as byte, ((c2 % 4) * 64 + c3) as byte ]
  }

  predicate AllBase64(g: string) {
    forall i :: 0 <= i < |g| ==> IsBase64Char(g[i])
  }

  /** How many '=' end the text (at most two count as padding). */
  function Padding(s: string): (n: nat)
    ensures n <= 2 && n <= |s|
  {
    if |s| >= 2 && s[|s| - 1] == Pad && s[|s| - 2] == Pad then 2
    else if |s| >= 1 && s[|s| - 1] == Pad then 1
    else 0
  }

  /** The last group of the text: four characters, or three and one '=',
      or two and two '='. The low bits that a short group leaves unused are
      ignored. */
  function DecodeFinal(g: string): (r: Result<seq<byte>>)
    requires |g| == 4
    ensures r.Success? ==> |r.value| == 3 - Padding(g)
  {
    if AllBase64(g) then
      Success(DecodeQuad(CharValue(g[0]), CharValue(g[1]), CharValue(g[2]), CharValue(g[3])))
    else if AllBase64(g[..3]) && g[3] == Pad then
      var v0, v1, v2 := CharValue(g[0]), CharValue(g[1]), CharValue(g[2]);
      Success([(v0 * 4 + v1 / 16) as byte, ((v1 % 16) * 16 + v2 / 4) as byte])
    else if AllBase64(g[..2]) && g[2] == Pad && g[3] == Pad then
      var v0, v1 := CharValue(g[0]), CharValue(g[1]);
      Success([(v0 * 4 + v1 / 16) as byte])
    else
      Failure(MalformedBase64)
  }

  /** Groups of four characters, only the last of which may hold padding. */
  function DecodeGroups(s: string): (r: Result<seq<byte>>)
    requires |s| % 4 == 0
    ensures r.Success? ==> |r.value| == |s| / 4 * 3 - Padding(s)
    decreases |s|
  {
    if |s| == 0 then Success([])
    else if |s| == 4 then DecodeFinal(s)
    else if AllBase64(s[..4]) then
      match DecodeGroups(s[4..])
      case Success(rest) =>
        Success(DecodeQuad(CharValue(s[0]), CharValue(s[1]), CharValue(s[2]), CharValue(s[3])) + rest)
      case Failure(e) => Failure(e)
    else
      Failure(MalformedBase64)
  }

  /** Bytes of a Base64 text, or a failure when the text is malformed. */
  function Decode(s: string): (r: Result<seq<byte>>)
    ensures |s| % 4 != 0 ==> r.Failure?
    ensures r.Success? ==> |r.value| == |s| / 4 * 3 - Padding(s)
  {
    if |s| % 4 != 0 then Failure(MalformedBase64) else DecodeGroups(s)
  }

  /** Well-formed Base64 text, stated on the whole text at once: a multiple
      of four characters, all from the alphabet except a padding of at most
      two '=' at the very end. */
  predicate WellFormed(s: string) {
    && |s| % 4 == 0
    && (forall i :: 0 <= i < |s| - Padding(s) ==> IsBase64Char(s[i]))
    && (forall i :: |s| - Padding(s) <= i < |s| ==> s[i] == Pad)
  }

  /** Regrouping three bytes as four 6-bit values and back loses nothing. */
  lemma SextetArithmetic(x0: int, x1: int, x2: int)
    requires 0 <= x0 < 256 && 0 <= x1 < 256 && 0 <= x2 < 256
    ensures var v1, v2 := (x0 % 4) * 16 + x1 / 16, (x1 % 16) * 4 + x2 / 64;
            && (x0 / 4) * 4 + v1 / 16 == x0
            && (v1 % 16) * 16 + v2 / 4 == x1
            && (v2 % 4) * 64 + x2 % 64 == x2
  {
    var q0, r0 := x0 / 4, x0 % 4;
    var q1, r1 := x1 / 16, x1 % 16;
    var q2, r2 := x2 / 64, x2 % 64;
    assert ((r0 * 16) + q1) / 16 == r0 && ((r0 * 16) + q1) % 16 == q1;
    assert ((r1 * 4) + q2) / 4 == r1 && ((r1 * 4) + q2) % 4 == q2;
  }

  /** A full group decodes to the three bytes it encodes. */
  lemma QuadRoundTrip(b0: byte, b1: byte, b2: byte)
    ensures var g := EncodeTriple(b0, b1, b2);
            AllBase64(g) &&
            DecodeQuad(CharValue(g[0]), CharValue(g[1]), CharValue(g[2]), CharValue(g[3])) == [b0, b1, b2]
  {
    var x0, x1, x2 := b0 as int, b1 as int, b2 as int;
    var v0, v1, v2, v3 := x0 / 4, (x0 % 4) * 16 + x1 / 16, (x1 % 16) * 4 + x2 / 64, x2 % 64;
    CharValueOfSextetChar(v0);
    CharValueOfSextetChar(v1);
    CharValueOfSextetChar(v2);
    CharValueOfSextetChar(v3);
    SextetArithmetic(x0, x1, x2);
  }

  /** The one-byte final group "xx==" decodes to its byte. */
  lemma DecodeEncodeOne(b0: byte)
    ensures Decode(Encode([b0])) == Success([b0])
  {
    var x0 := b0 as int;
    var v0, v1 := x0 / 4, (x0 % 4) * 16;
    CharValueOfSextetChar(v0);
    CharValueOfSextetChar(v1);
    var s := Encode([b0]);
    assert s == [SextetChar(v0), SextetChar(v1), Pad, Pad];
    assert AllBase64(s[..2]) && !IsBase64Char(s[2]) && !IsBase64Char(s[..3][2]);
    SextetArithmetic(x0, 0, 0);
  }

  /** The two-byte final group "xxx=" decodes to its two bytes. */
  lemma DecodeEncodeTwo(b0: byte, b1: byte)
    ensures Decode(Encode([b0, b1])) == Success([b0, b1])
  {
    var x0, x1 := b0 as int, b1 as int;
    var v0, v1, v2 := x0 / 4, (x0 % 4) * 16 + x1 / 16, (x1 % 16) * 4;
    CharValueOfSextetChar(v0);
    CharValueOfSextetChar(v1);
    CharValueOfSextetChar(v2);
    var s := Encode([b0, b1]);
    assert s == [SextetChar(v0), SextetChar(v1), SextetChar(v2), Pad];
    assert AllBase64(s[..3]) && !IsBase64Char(s[3]);
    SextetArithmetic(x0, x1, 0);
  }

  /** A full group in front of a non-empty decodable text contributes its
      three bytes in front of that text's bytes. */
  lemma DecodeGroupsCons(g: string, t: string, rest: seq<byte>)
    requires |g| == 4 && AllBase64(g)
    requires |t| % 4 == 0 && |t| > 0 && DecodeGroups(t) == Success(rest)
    ensures DecodeGroups(g + t) ==
            Success(DecodeQuad(CharValue(g[0]), CharValue(g[1]), CharValue(g[2]), CharValue(g[3])) + rest)
  {
    var s := g + t;
    assert s[..4] == g && s[4..] == t;
  }

  /** Encoding three bytes in front of a sequence that round-trips gives a
      text that round-trips. */
  lemma DecodeEncodeTriple(b0: byte, b1: byte, b2: byte, rest: seq<byte>)
    requires Decode(Encode(rest)) == Success(rest)
    ensures Decode(Encode([b0, b1, b2] + rest)) == Success([b0, b1, b2] + rest)
  {
    var bs := [b0, b1, b2] + rest;
    assert bs[3..] == rest;
    var g := EncodeTriple(b0, b1, b2);
    QuadRoundTrip(b0, b1, b2);
    assert Encode(bs) == g + Encode(rest);
    if rest == [] {
      assert bs == [b0, b1, b2] && Encode(bs) == g;
      assert DecodeGroups(g) == DecodeFinal(g);
    } else {
      DecodeGroupsCons(g, Encode(rest), rest);
    }
  }

  /** Decoding undoes encoding, for every byte sequence. */
  lemma {:induction false} DecodeEncode(bs: seq<byte>)
    ensures Decode(Encode(bs)) == Success(bs)
    decreases |bs|
  {
    if |bs| == 0 {
    } else if |bs| == 1 {
      DecodeEncodeOne(bs[0]);
      assert bs == [bs[0]];
    } else if |bs| == 2 {
      DecodeEncodeTwo(bs[0], bs[1]);
      assert bs == [bs[0], bs[1]];
    } else {
      assert bs == [bs[0], bs[1], bs[2]] + bs[3..];
      DecodeEncode(bs[3..]);
      DecodeEncodeTriple(bs[0], bs[1], bs[2], bs[3..]);
    }
  }

  /** A text longer than one group is well-formed exactly when its first
      group is four alphabet characters and the rest is well-formed. */
  lemma WellFormedCons(s: string)
    requires |s| > 4 && |s| % 4 == 0
    ensures WellFormed(s) <==> AllBase64(s[..4]) && WellFormed(s[4..])
  {
    var t := s[4..];
    assert Padding(s) == Padding(t);
    if WellFormed(s) {
      forall i | 0 <= i < |t| - Padding(t) ensures IsBase64Char(t[i]) {
        assert t[i] == s[i + 4];
      }
      forall i | |t| - Padding(t) <= i < |t| ensures t[i] == Pad {
        assert t[i] == s[i + 4];
      }
      forall i | 0 <= i < 4 ensures IsBase64Char(s[..4][i]) {
        assert s[..4][i] == s[i];
      }
    }
    if AllBase64(s[..4]) && WellFormed(t) {
      forall i | 0 <= i < |s| - Padding(s) ensures IsBase64Char(s[i]) {
        if i < 4 { assert s[i] == s[..4][i]; } else { assert s[i] == t[i - 4]; }
      }
      forall i | |s| - Padding(s) <= i < |s| ensures s[i] == Pad {
        assert s[i] == t[i - 4];
      }
    }
  }

  /** A single group is well-formed exactly when DecodeFinal accepts it. */
  lemma DecodeFinalIffWellFormed(g: string)
    requires |g| == 4
    ensures DecodeFinal(g).Success? <==> WellFormed(g)
  {
    if WellFormed(g) {
      if Padding(g) == 0 {
        assert AllBase64(g);
      } else if Padding(g) == 1 {
        assert AllBase64(g[..3]) by {
          forall i | 0 <= i < 3 ensures IsBase64Char(g[..3][i]) { assert g[..3][i] == g[i]; }
        }
      } else {
        assert AllBase64(g[..2]) by {
          forall i | 0 <= i < 2 ensures IsBase64Char(g[..2][i]) { assert g[..2][i] == g[i]; }
        }
      }
    }
    if DecodeFinal(g).Success? {
      if AllBase64(g) {
        assert g[3] != Pad;
        assert Padding(g) == 0;
        assert forall i :: 0 <= i < 4 ==> IsBase64Char(g[i]);
      } else if AllBase64(g[..3]) && g[3] == Pad {
        assert g[..3][2] == g[2];
        assert g[2] != Pad;
        assert Padding(g) == 1;
        forall i | 0 <= i < 3 ensures IsBase64Char(g[i]) { assert g[..3][i] == g[i]; }
      } else {
        assert AllBase64(g[..2]) && g[2] == Pad && g[3] == Pad;
        assert Padding(g) == 2;
        forall i | 0 <= i < 2 ensures IsBase64Char(g[i]) { assert g[..2][i] == g[i]; }
      }
    }
  }

  /** The decoder accepts exactly the well-formed texts. */
  lemma {:induction false} DecodeSucceedsIffWellFormed(s: string)
    ensures Decode(s).Success? <==> WellFormed(s)
    decreases |s|
  {
    if |s| % 4 != 0 || |s| == 0 {
    } else if |s| == 4 {
      DecodeFinalIffWellFormed(s);
    } else {
      WellFormedCons(s);
      DecodeSucceedsIffWellFormed(s[4..]);
    }
  }

  /** Encoding always yields well-formed text. */
  lemma EncodeWellFormed(bs: seq<byte>)
    ensures WellFormed(Encode(bs))
  {
    DecodeEncode(bs);
    DecodeSucceedsIffWellFormed(Encode(bs));
  }
}
