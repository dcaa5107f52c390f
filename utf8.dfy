/** UTF-8 as Python uses it: `str.encode('utf-8')`, strict `bytes.decode('utf-8')`
    (which raises on malformed input) and `bytes.decode('utf-8', 'ignore')` (which drops
    malformed bytes). Well-formedness follows Table 3-7 of the Unicode Standard: no
    overlong forms, no surrogates, nothing above U+10FFFF. */
module Utf8 {
  import opened Wrappers
  import opened Bytes

  predicate IsContinuation(b: byte) { 0x80 <= b as int < 0xC0 }

  /** The low six bits of a continuation byte. */
  function Low6(b: byte): int { b as int - 0x80 }

  /** The well-formed sequence at the front of s, decoded, and its length in bytes. */
  function DecodeFirst(s: seq<byte>): (r: Option<(char, nat)>)
    ensures r.Some? ==> 1 <= r.value.1 <= 4 && r.value.1 <= |s|
  {
    if |s| == 0 then None
    else
      var b0 := s[0] as int;
      if b0 < 0x80 then Some((b0 as char, 1))
      else if 0xC2 <= b0 < 0xE0 then
        if |s| >= 2 && IsContinuation(s[1])
        then Some((((b0 - 0xC0) * 64 + Low6(s[1])) as char, 2))
        else None
      else if 0xE0 <= b0 < 0xF0 then
        if |s| >= 3 && IsContinuation(s[1]) && IsContinuation(s[2]) then
          var cp := (b0 - 0xE0) * 4096 + Low6(s[1]) * 64 + Low6(s[2]);
          if 0x800 <= cp && !(0xD800 <= cp < 0xE000) then Some((cp as char, 3)) else None
        else None
      else if 0xF0 <= b0 < 0xF5 then
        if |s| >= 4 && IsContinuation(s[1]) && IsContinuation(s[2]) && IsContinuation(s[3]) then
          var cp := (b0 - 0xF0) * 262144 + Low6(s[1]) * 4096 + Low6(s[2]) * 64 + Low6(s[3]);
          if 0x10000 <= cp < 0x110000 then Some((cp as char, 4)) else None
        else None
      else None
  }

  /** Strict decoding: None where Python raises UnicodeDecodeError. */
  function Decode(s: seq<byte>): (r: Option<string>)
    decreases |s|
  {
    if s == [] then Some("")
    else match DecodeFirst(s)
      case None => None
      case Some((c, n)) =>
        match Decode(s[n..])
        case None => None
        case Some(t) => Some([c] + t)
  }

  /** Lenient decoding with the 'ignore' handler: a byte that does not start a well-formed
      sequence is dropped. Dropping one byte at a time drops exactly Python's "maximal
      subparts", because every byte after the lead byte of such a subpart is a continuation
      byte, which never starts a well-formed sequence. */
  function DecodeIgnore(s: seq<byte>): (r: string)
    ensures |r| <= |s|
    decreases |s|
  {
    if s == [] then ""
    else match DecodeFirst(s)
      case None => DecodeIgnore(s[1..])
      case Some((c, n)) => [c] + DecodeIgnore(s[n..])
  }

  /** The continuation byte carrying the low six bits of x. */
  function Cont(x: nat): (b: byte)
    ensures IsContinuation(b) && Low6(b) == x % 64
  {
    ByteValue(0x80 + x % 64);
    (0x80 + x % 64) as byte
  }

  /** The lead byte of a multi-byte sequence: marker plus the remaining high bits. */
  function Lead(marker: nat, high: nat): (b: byte)
    requires marker + high < 256
    ensures b as int == marker + high
  {
    ByteValue(marker + high);
    (marker + high) as byte
  }

  function EncodeChar(c: char): (r: seq<byte>)
    ensures 1 <= |r| <= 4
  {
    var cp := c as int;
    if cp < 0x80 then [Lead(0, cp)]
    else if cp < 0x800 then [Lead(0xC0, cp / 64), Cont(cp)]
    else if cp < 0x10000 then [Lead(0xE0, cp / 4096), Cont(cp / 64), Cont(cp)]
    else [Lead(0xF0, cp / 262144), Cont(cp / 4096), Cont(cp / 64), Cont(cp)]
  }

  function Encode(s: string): (r: seq<byte>)
    ensures |r| >= |s|
  {
    if s == "" then [] else EncodeChar(s[0]) + Encode(s[1..])
  }

  /** Positional facts about base-64 digits: repeated division by 64 is division by the
      power. */
  lemma DivChain(x: nat)
    ensures x == 64 * (x / 64) + x % 64
    ensures x / 4096 == (x / 64) / 64
    ensures x / 262144 == (x / 4096) / 64
  {
    var u := x / 64;
    var t := u / 64;
    var v := x / 4096;
    assert 64 * u <= x < 64 * u + 64;
    assert 64 * t <= u < 64 * t + 64;
    assert 4096 * t <= x < 4096 * t + 4096;
    assert v == t;
    var w := v / 64;
    assert 64 * w <= v < 64 * w + 64;
    assert 262144 * w <= x < 262144 * w + 262144;
  }

  lemma Recombine3(cp: nat)
    requires 0x800 <= cp < 0x10000
    ensures (Lead(0xE0, cp / 4096) as int - 0xE0) * 4096 + Low6(Cont(cp / 64)) * 64 + Low6(Cont(cp)) == cp
  {
    DivChain(cp);
    DivChain(cp / 64);
  }

  lemma Recombine4(cp: nat)
    requires 0x10000 <= cp < 0x110000
    ensures (Lead(0xF0, cp / 262144) as int - 0xF0) * 262144 + Low6(Cont(cp / 4096)) * 4096
      + Low6(Cont(cp / 64)) * 64 + Low6(Cont(cp)) == cp
  {
    DivChain(cp);
    DivChain(cp / 64);
    DivChain(cp / 4096);
  }

  lemma DecodeTwo(c: char, rest: seq<byte>)
    requires 0x80 <= c as int < 0x800
    ensures DecodeFirst(EncodeChar(c) + rest) == Some((c, 2))
  {
    var cp := c as int;
    assert cp == 64 * (cp / 64) + cp % 64;
  }

  /** A three-byte sequence with a valid lead, two continuation bytes and a code point
      outside the overlong and surrogate ranges. */
  lemma DecodeFirstThreeBytes(b0: byte, b1: byte, b2: byte, rest: seq<byte>, cp: int)
    requires 0xE0 <= b0 as int < 0xF0 && IsContinuation(b1) && IsContinuation(b2)
    requires cp == (b0 as int - 0xE0) * 4096 + Low6(b1) * 64 + Low6(b2)
    requires 0x800 <= cp && !(0xD800 <= cp < 0xE000)
    ensures DecodeFirst([b0, b1, b2] + rest) == Some((cp as char, 3))
  {
    var s := [b0, b1, b2] + rest;
    assert s[0] == b0 && s[1] == b1 && s[2] == b2;
  }

  lemma DecodeFirstFourBytes(b0: byte, b1: byte, b2: byte, b3: byte, rest: seq<byte>, cp: int)
    requires 0xF0 <= b0 as int < 0xF5 && IsContinuation(b1) && IsContinuation(b2) && IsContinuation(b3)
    requires cp == (b0 as int - 0xF0) * 262144 + Low6(b1) * 4096 + Low6(b2) * 64 + Low6(b3)
    requires 0x10000 <= cp < 0x110000
    ensures DecodeFirst([b0, b1, b2, b3] + rest) == Some((cp as char, 4))
  {
    var s := [b0, b1, b2, b3] + rest;
    assert s[0] == b0 && s[1] == b1 && s[2] == b2 && s[3] == b3;
  }

  lemma EncodeThree(c: char)
    requires 0x800 <= c as int < 0x10000
    ensures EncodeChar(c) == [Lead(0xE0, c as int / 4096), Cont(c as int / 64), Cont(c as int)]
  {
  }

  lemma EncodeFour(c: char)
    requires 0x10000 <= c as int
    ensures EncodeChar(c)
         == [Lead(0xF0, c as int / 262144), Cont(c as int / 4096), Cont(c as int / 64), Cont(c as int)]
  {
  }

  lemma DecodeThree(c: char, rest: seq<byte>)
    requires 0x800 <= c as int < 0x10000
    ensures DecodeFirst(EncodeChar(c) + rest) == Some((c, 3))
  {
    var cp := c as int;
    var b0, b1, b2 := Lead(0xE0, cp / 4096), Cont(cp / 64), Cont(cp);
    EncodeThree(c);
    assert DecodeFirst([b0, b1, b2] + rest) == Some((c, 3)) by {
      Recombine3(cp);
      DecodeFirstThreeBytes(b0, b1, b2, rest, cp);
    }
  }

  lemma DecodeFour(c: char, rest: seq<byte>)
    requires 0x10000 <= c as int
    ensures DecodeFirst(EncodeChar(c) + rest) == Some((c, 4))
  {
    var cp := c as int;
    var b0, b1, b2, b3 := Lead(0xF0, cp / 262144), Cont(cp / 4096), Cont(cp / 64), Cont(cp);
    EncodeFour(c);
    assert DecodeFirst([b0, b1, b2, b3] + rest) == Some((c, 4)) by {
      Recombine4(cp);
      DecodeFirstFourBytes(b0, b1, b2, b3, rest, cp);
    }
  }

  /** Every character's encoding is read back as that character, whatever follows it. */
  lemma DecodeFirstEncodeChar(c: char, rest: seq<byte>)
    ensures DecodeFirst(EncodeChar(c) + rest) == Some((c, |EncodeChar(c)|))
  {
    var cp := c as int;
    if cp < 0x80 {
    } else if cp < 0x800 {
      DecodeTwo(c, rest);
    } else if cp < 0x10000 {
      DecodeThree(c, rest);
    } else {
      DecodeFour(c, rest);
    }
  }

  /** Strict decoding inverts encoding: Python's `s.encode('utf-8').decode('utf-8') == s`. */
  lemma {:induction false} DecodeEncode(s: string)
    ensures Decode(Encode(s)) == Some(s)
  {
    if s != "" {
      var e := EncodeChar(s[0]);
      DecodeFirstEncodeChar(s[0], Encode(s[1..]));
      assert (e + Encode(s[1..]))[|e|..] == Encode(s[1..]);
      DecodeEncode(s[1..]);
      assert [s[0]] + s[1..] == s;
    }
  }

  /** On well-formed input the lenient decoder agrees with the strict one. */
  lemma {:induction false} DecodeIgnoreEncode(s: string)
    ensures DecodeIgnore(Encode(s)) == s
  {
    if s != "" {
      var e := EncodeChar(s[0]);
      DecodeFirstEncodeChar(s[0], Encode(s[1..]));
      assert (e + Encode(s[1..]))[|e|..] == Encode(s[1..]);
      DecodeIgnoreEncode(s[1..]);
      assert [s[0]] + s[1..] == s;
    }
  }

  /** Encoding distributes over concatenation. */
  lemma {:induction false} EncodeAppend(a: string, b: string)
    ensures Encode(a + b) == Encode(a) + Encode(b)
  {
    if a != "" {
      assert (a + b)[0] == a[0];
      assert (a + b)[1..] == a[1..] + b;
      EncodeAppend(a[1..], b);
      calc {
        Encode(a + b);
        EncodeChar(a[0]) + Encode(a[1..] + b);
        EncodeChar(a[0]) + (Encode(a[1..]) + Encode(b));
        (EncodeChar(a[0]) + Encode(a[1..])) + Encode(b);
      }
    } else {
      assert a + b == b;
    }
  }

  /** ASCII text is encoded one byte per character, each byte being the code point. */
  lemma {:induction false} EncodeAscii(s: string)
    requires forall i :: 0 <= i < |s| ==> s[i] as int < 0x80
    ensures |Encode(s)| == |s|
    ensures forall i :: 0 <= i < |s| ==> Encode(s)[i] as int == s[i] as int
  {
    if s != "" {
      EncodeAscii(s[1..]);
    }
  }

  predicate IsAscii(s: string)
  {
    forall i :: 0 <= i < |s| ==> s[i] as int < 0x80
  }

  /** `s.encode('ascii')`: one byte per character, or None for the UnicodeEncodeError a
      character outside ASCII raises. */
  function AsciiEncode(s: string): (r: Option<seq<byte>>)
    ensures r.Some? <==> IsAscii(s)
    ensures r.Some? ==> |r.value| == |s| && forall i :: 0 <= i < |s| ==> r.value[i] as int == s[i] as int
  {
    if IsAscii(s) then Some(seq(|s|, i requires 0 <= i < |s| && IsAscii(s) => Lead(0, s[i] as int)))
    else None
  }

  /** On ASCII text the ASCII codec and UTF-8 agree. */
  lemma AsciiEncodeIsUtf8(s: string)
    requires IsAscii(s)
    ensures AsciiEncode(s) == Some(Encode(s))
  {
    EncodeAscii(s);
    var a, e := AsciiEncode(s).value, Encode(s);
    forall i | 0 <= i < |s|
      ensures a[i] == e[i]
    {
      ValueByte(a[i] as nat, e[i]);
    }
    assert a == e;
  }

  /** `b.decode('ascii', 'ignore')`: the bytes below 0x80 as characters, the others
      dropped. */
  function AsciiIgnore(b: seq<byte>): (r: string)
    ensures IsAscii(r) && |r| <= |b|
  {
    if b == [] then ""
    else (if b[0] < 0x80 then [(b[0] as int) as char] else []) + AsciiIgnore(b[1..])
  }

  /** Decoding, ignoring errors, what the ASCII codec encoded gives the text back. */
  lemma {:induction false} AsciiIgnoreEncode(s: string)
    requires IsAscii(s)
    ensures AsciiIgnore(AsciiEncode(s).value) == s
  {
    if s != "" {
      var b := AsciiEncode(s).value;
      assert IsAscii(s[1..]);
      assert b[1..] == AsciiEncode(s[1..]).value;
      AsciiIgnoreEncode(s[1..]);
      ValueByte(s[0] as int, b[0]);
      assert s == [s[0]] + s[1..];
    }
  }

  lemma AsciiConcat(a: string, b: string)
    ensures IsAscii(a + b) <==> IsAscii(a) && IsAscii(b)
  {
    if IsAscii(a) && IsAscii(b) {
      forall i | 0 <= i < |a + b|
        ensures (a + b)[i] as int < 0x80
      {
        if i >= |a| {
          assert (a + b)[i] == b[i - |a|];
        }
      }
    }
    if IsAscii(a + b) {
      forall i | 0 <= i < |a|
        ensures a[i] as int < 0x80
      {
        assert (a + b)[i] == a[i];
      }
      forall i | 0 <= i < |b|
        ensures b[i] as int < 0x80
      {
        assert (a + b)[|a| + i] == b[i];
      }
    }
  }
}
