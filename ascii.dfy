/** The 7-bit ASCII text encoding: characters to bytes and back, with the
    replacement character '?' standing in for anything outside 0..127. */
module Ascii {

  newtype byte = x: int | 0 <= x < 256

  /** The byte written for a character that has no ASCII code. */
  const Replacement: byte := 63

  predicate IsAsciiChar(c: char) {
    c as int < 128
  }

  predicate IsAscii(s: string) {
    forall i :: 0 <= i < |s| ==> IsAsciiChar(s[i])
  }

  /** A character's byte: its own code when it is ASCII, '?' otherwise. */
  function CharToByte(c: char): (b: byte)
    ensures b < 128
    ensures IsAsciiChar(c) ==> b as int == c as int
    ensures !IsAsciiChar(c) ==> b == Replacement
  {
    if IsAsciiChar(c) then c as int as byte else Replacement
  }

  /** A byte's character: the ASCII character of that code, '?' for 128..255. */
  function ByteToChar(b: byte): (c: char)
    ensures IsAsciiChar(c)
    ensures b < 128 ==> c as int == b as int
    ensures b >= 128 ==> c == '?'
  {
    if b < 128 then b as int as char else '?'
  }

  /** Text to bytes, one byte per character: an ASCII character's own code,
      and '?' for every other character. */
  function GetBytes(s: string): (bs: seq<byte>)
    ensures |bs| == |s|
    ensures forall i :: 0 <= i < |s| && IsAsciiChar(s[i]) ==> bs[i] as int == s[i] as int
    ensures forall i :: 0 <= i < |s| && !IsAsciiChar(s[i]) ==> bs[i] == Replacement
  {
    seq(|s|, i requires 0 <= i < |s| => CharToByte(s[i]))
  }

  /** Bytes to text, one character per byte: the ASCII character of a byte
      below 128, and '?' for 128..255. */
  function GetString(bs: seq<byte>): (s: string)
    ensures |s| == |bs| && IsAscii(s)
    ensures forall i :: 0 <= i < |bs| && bs[i] < 128 ==> s[i] as int == bs[i] as int
    ensures forall i :: 0 <= i < |bs| && bs[i] >= 128 ==> s[i] == '?'
  {
    seq(|bs|, i requires 0 <= i < |bs| => ByteToChar(bs[i]))
  }

  /** What survives an ASCII round trip: every non-ASCII character becomes '?'. */
  function Sanitize(s: string): (t: string)
    ensures |t| == |s| && IsAscii(t)
    ensures forall i :: 0 <= i < |s| ==> (t[i] == s[i] <==> IsAsciiChar(s[i]))
  {
    seq(|s|, i requires 0 <= i < |s| => if IsAsciiChar(s[i]) then s[i] else '?')
  }

  /** Decoding the bytes of any text gives that text with its non-ASCII
      characters replaced. */
  lemma GetStringOfGetBytes(s: string)
    ensures GetString(GetBytes(s)) == Sanitize(s)
  {
    var t := GetString(GetBytes(s));
    forall i | 0 <= i < |s| ensures t[i] == Sanitize(s)[i] {
      if IsAsciiChar(s[i]) {
        assert t[i] as int == s[i] as int;
      }
    }
  }

  /** On ASCII text the round trip is the identity. */
  lemma AsciiRoundTrip(s: string)
    requires IsAscii(s)
    ensures GetString(GetBytes(s)) == s
  {
    GetStringOfGetBytes(s);
    assert Sanitize(s) == s;
  }
}
