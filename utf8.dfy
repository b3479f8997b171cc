/**
 * UTF-8, as `str::bytes` produces it and `String::from_utf8` checks it:
 * the encoding of a string, and the decoder that accepts exactly the
 * well-formed byte sequences (no overlong forms, no surrogates, nothing
 * above U+10FFFF).
 */
module Utf8 {
  import opened Wrappers

  type Byte = b: int | 0 <= b < 256

  /** The bytes of one character. */
  function EncodeChar(c: char): (bs: seq<Byte>)
    ensures 1 <= |bs| <= 4
  {
    var v := c as int;
    if v < 0x80 then [v]
    else if v < 0x800 then [0xC0 + v / 64, 0x80 + v % 64]
    else if v < 0x10000 then [0xE0 + v / 4096, 0x80 + v / 64 % 64, 0x80 + v % 64]
    else [0xF0 + v / 262144, 0x80 + v / 4096 % 64, 0x80 + v / 64 % 64, 0x80 + v % 64]
  }

  /** `str::bytes`: the bytes of a string. */
  function Encode(s: seq<char>): (bs: seq<Byte>)
    ensures |s| <= |bs| <= 4 * |s|
  {
    if s == [] then [] else EncodeChar(s[0]) + Encode(s[1..])
  }

  predicate IsContinuation(b: Byte) {
    0x80 <= b < 0xC0
  }

  /**
   * The character at the start of `bs` and the number of bytes it takes,
   * or `None` when the bytes there are not a well-formed character.
   */
  function DecodeChar(bs: seq<Byte>): (r: Option<(char, nat)>)
    requires |bs| > 0
    ensures r.Some? ==> 1 <= r.value.1 <= |bs| && r.value.1 <= 4
  {
    var b0: int := bs[0];
    if b0 < 0x80 then Some((b0 as char, 1))
    else if 0xC2 <= b0 < 0xE0 then
      if 2 <= |bs| && IsContinuation(bs[1]) then
        Some((Join2(b0 - 0xC0, bs[1] - 0x80) as char, 2))
      else None
    else if 0xE0 <= b0 < 0xF0 then
      var lo := if b0 == 0xE0 then 0xA0 else 0x80;
      var hi := if b0 == 0xED then 0xA0 else 0xC0;
      if 3 <= |bs| && lo <= bs[1] < hi && IsContinuation(bs[2]) then
        Some((Join2(Join2(b0 - 0xE0, bs[1] - 0x80), bs[2] - 0x80) as char, 3))
      else None
    else if 0xF0 <= b0 < 0xF5 then
      var lo := if b0 == 0xF0 then 0x90 else 0x80;
      var hi := if b0 == 0xF4 then 0x90 else 0xC0;
      if 4 <= |bs| && lo <= bs[1] < hi && IsContinuation(bs[2]) && IsContinuation(bs[3]) then
        Some((Join2(Join2(Join2(b0 - 0xF0, bs[1] - 0x80), bs[2] - 0x80), bs[3] - 0x80) as char, 4))
      else None
    else None
  }

  /** Six more low bits under the bits `high` has so far. */
  function Join2(high: int, low: int): int {
    high * 64 + low
  }

  /** Taking the six low bits back off. */
  lemma Split64(high: int, low: int)
    requires 0 <= low < 64
    ensures Join2(high, low) / 64 == high && Join2(high, low) % 64 == low
  {
  }

  /** `String::from_utf8`: the string the bytes encode, or `None` when they are not well-formed UTF-8. */
  function Decode(bs: seq<Byte>): (r: Option<seq<char>>)
    ensures r.Some? ==> |r.value| <= |bs|
    decreases |bs|
  {
    if bs == [] then Some([])
    else
      match DecodeChar(bs)
      case None => None
      case Some((c, n)) =>
        match Decode(bs[n..])
        case None => None
        case Some(rest) => Some([c] + rest)
  }

  /** The first character of any encoding decodes back, whatever follows it. */
  lemma DecodeEncodeChar(c: char, rest: seq<Byte>)
    ensures DecodeChar(EncodeChar(c) + rest) == Some((c, |EncodeChar(c)|))
  {
    var v := c as int;
    if 0x80 <= v < 0x800 {
      DecodeTwo(c, rest);
    } else if 0x800 <= v < 0x10000 {
      DecodeThree(c, rest);
    } else if 0x10000 <= v {
      DecodeFour(c, rest);
    }
  }

  lemma DecodeTwo(c: char, rest: seq<Byte>)
    requires 0x80 <= c as int < 0x800
    ensures DecodeChar(EncodeChar(c) + rest) == Some((c, 2))
  {
    var v := c as int;
    Split64(v / 64, v % 64);
  }

  lemma DecodeThree(c: char, rest: seq<Byte>)
    requires 0x800 <= c as int < 0x10000
    ensures DecodeChar(EncodeChar(c) + rest) == Some((c, 3))
  {
    var v := c as int;
    var q := v / 64;
    Split64(q, v % 64);
    Split64(q / 64, q % 64);
    assert v / 4096 == q / 64;
  }

  lemma DecodeFour(c: char, rest: seq<Byte>)
    requires 0x10000 <= c as int
    ensures DecodeChar(EncodeChar(c) + rest) == Some((c, 4))
  {
    var v := c as int;
    JoinFour(v);
    var bs := EncodeChar(c) + rest;
    assert bs[0] == 0xF0 + v / 262144 && bs[1] == 0x80 + v / 4096 % 64;
    assert bs[2] == 0x80 + v / 64 % 64 && bs[3] == 0x80 + v % 64;
  }

  /** The four groups of bits of a code point put back together. */
  lemma JoinFour(v: nat)
    requires 0x10000 <= v < 0x110000
    ensures Join2(Join2(Join2(v / 262144, v / 4096 % 64), v / 64 % 64), v % 64) == v
    ensures v / 262144 <= 4 && (v / 262144 == 4 ==> v / 4096 % 64 < 0x10)
    ensures v / 262144 == 0 ==> 0x10 <= v / 4096 % 64
  {
    var q := v / 64;
    Split64(q, v % 64);
    Split64(q / 64, q % 64);
    Split64(q / 4096, q / 64 % 64);
    assert v / 4096 == q / 64;
    assert v / 262144 == q / 4096;
  }

  lemma {:induction false} EncodeAppend(a: seq<char>, b: seq<char>)
    ensures Encode(a + b) == Encode(a) + Encode(b)
  {
    if a != [] {
      assert (a + b)[0] == a[0] && (a + b)[1..] == a[1..] + b;
      calc {
        Encode(a + b);
        EncodeChar(a[0]) + Encode(a[1..] + b);
        { EncodeAppend(a[1..], b); }
        EncodeChar(a[0]) + (Encode(a[1..]) + Encode(b));
      }
    } else {
      assert a + b == b;
    }
  }

  /** Every string survives encoding and decoding. */
  lemma {:induction false} DecodeEncode(s: seq<char>)
    ensures Decode(Encode(s)) == Some(s)
  {
    if s != [] {
      var e := EncodeChar(s[0]);
      DecodeEncodeChar(s[0], Encode(s[1..]));
      assert (e + Encode(s[1..]))[|e|..] == Encode(s[1..]);
      DecodeEncode(s[1..]);
      assert [s[0]] + s[1..] == s;
    }
  }

  /** A character that decodes from the front of `bs` is encoded by exactly the bytes it took. */
  lemma EncodeDecodeChar(bs: seq<Byte>)
    requires |bs| > 0 && DecodeChar(bs).Some?
    ensures EncodeChar(DecodeChar(bs).value.0) == bs[..DecodeChar(bs).value.1]
  {
    var b0: int := bs[0];
    if 0xC2 <= b0 < 0xE0 {
      EncodeTwo(b0, bs[1]);
    } else if 0xE0 <= b0 < 0xF0 {
      EncodeThree(b0, bs[1], bs[2]);
    } else if 0xF0 <= b0 {
      EncodeFour(b0, bs[1], bs[2], bs[3]);
    }
  }

  lemma EncodeTwo(b0: int, b1: int)
    requires 0xC2 <= b0 < 0xE0 && 0x80 <= b1 < 0xC0
    ensures var v := Join2(b0 - 0xC0, b1 - 0x80);
            0x80 <= v < 0x800 && EncodeChar(v as char) == [b0, b1]
  {
    Split64(b0 - 0xC0, b1 - 0x80);
  }

  lemma EncodeThree(b0: int, b1: int, b2: int)
    requires 0xE0 <= b0 < 0xF0 && 0x80 <= b1 < 0xC0 && 0x80 <= b2 < 0xC0
    requires b0 == 0xE0 ==> 0xA0 <= b1
    requires b0 == 0xED ==> b1 < 0xA0
    ensures var v := Join2(Join2(b0 - 0xE0, b1 - 0x80), b2 - 0x80);
            0x800 <= v < 0x10000 && (v < 0xD800 || 0xE000 <= v) && EncodeChar(v as char) == [b0, b1, b2]
  {
    var q := Join2(b0 - 0xE0, b1 - 0x80);
    var v := Join2(q, b2 - 0x80);
    Split64(b0 - 0xE0, b1 - 0x80);
    Split64(q, b2 - 0x80);
    assert v / 4096 == q / 64;
  }

  lemma EncodeFour(b0: int, b1: int, b2: int, b3: int)
    requires 0xF0 <= b0 < 0xF5 && 0x80 <= b1 < 0xC0 && 0x80 <= b2 < 0xC0 && 0x80 <= b3 < 0xC0
    requires b0 == 0xF0 ==> 0x90 <= b1
    requires b0 == 0xF4 ==> b1 < 0x90
    ensures var v := Join2(Join2(Join2(b0 - 0xF0, b1 - 0x80), b2 - 0x80), b3 - 0x80);
            0x10000 <= v < 0x110000 && EncodeChar(v as char) == [b0, b1, b2, b3]
  {
    var p := Join2(b0 - 0xF0, b1 - 0x80);
    var q := Join2(p, b2 - 0x80);
    var v := Join2(q, b3 - 0x80);
    Split64(b0 - 0xF0, b1 - 0x80);
    Split64(p, b2 - 0x80);
    Split64(q, b3 - 0x80);
    assert v / 4096 == p;
    assert v / 262144 == b0 - 0xF0;
  }

  /** Every byte sequence that decodes is the encoding of what it decodes to. */
  lemma {:induction false} EncodeDecode(bs: seq<Byte>)
    requires Decode(bs).Some?
    ensures Encode(Decode(bs).value) == bs
    decreases |bs|
  {
    if bs != [] {
      var (c, n) := DecodeChar(bs).value;
      DecodeFront(bs, c, n);
      EncodeDecodeChar(bs);
      EncodeDecode(bs[n..]);
      EncodeFront(bs, c, n, Decode(bs[n..]).value);
    }
  }

  /** A character encoded as a prefix and a string encoded as the rest encode the whole together. */
  lemma EncodeFront(bs: seq<Byte>, c: char, n: nat, rest: seq<char>)
    requires n <= |bs| && EncodeChar(c) == bs[..n] && Encode(rest) == bs[n..]
    ensures Encode([c] + rest) == bs
  {
    assert ([c] + rest)[0] == c && ([c] + rest)[1..] == rest;
    assert bs[..n] + bs[n..] == bs;
  }

  /** A string is ASCII when every character is below 0x80. */
  predicate IsAscii(s: seq<char>) {
    forall k | 0 <= k < |s| :: s[k] < '\U{0080}'
  }

  /** An ASCII string is encoded one byte per character. */
  lemma {:induction false} AsciiEncode(s: seq<char>)
    requires IsAscii(s)
    ensures |Encode(s)| == |s|
    ensures forall k | 0 <= k < |s| :: Encode(s)[k] == s[k] as int
  {
    if s != [] {
      assert IsAscii(s[1..]);
      AsciiEncode(s[1..]);
    }
  }
  /** Two well-formed byte sequences side by side decode to the two strings side by side. */
  lemma DecodeAppend(a: seq<Byte>, b: seq<Byte>)
    requires Decode(a).Some? && Decode(b).Some?
    ensures Decode(a + b) == Some(Decode(a).value + Decode(b).value)
  {
    var x, y := Decode(a).value, Decode(b).value;
    EncodeDecode(a);
    EncodeDecode(b);
    EncodeAppend(x, y);
    DecodeEncode(x + y);
  }

  /** Decoding a prefix that holds the whole first character gives that character. */
  lemma DecodeCharPrefix(a: seq<Byte>, s: seq<Byte>)
    requires 0 < |a| <= |s| && a == s[..|a|] && DecodeChar(s).Some? && DecodeChar(s).value.1 <= |a|
    ensures DecodeChar(a) == DecodeChar(s)
  {
    var n := DecodeChar(s).value.1;
    assert forall k | 0 <= k < n :: a[k] == s[k];
  }

  /** A character never takes an ASCII byte after its first one. */
  lemma AsciiEndsChar(s: seq<Byte>, i: nat)
    requires DecodeChar.requires(s) && DecodeChar(s).Some? && 1 <= i < |s| && s[i] < 0x80
    ensures DecodeChar(s).value.1 <= i
  {
  }

  /**
   * When the first part ends in an ASCII byte, no character straddles the
   * seam: a well-formed whole has two well-formed parts, and the first
   * part's last character is that byte.
   */
  lemma {:induction false} DecodeSplit(a: seq<Byte>, b: seq<Byte>)
    requires |a| > 0 && a[|a| - 1] < 0x80 && Decode(a + b).Some?
    ensures Decode(a).Some? && Decode(b).Some?
    ensures Decode(a + b).value == Decode(a).value + Decode(b).value
    ensures var x := Decode(a).value; |x| > 0 && x[|x| - 1] == a[|a| - 1] as char
    decreases |a|
  {
    var s := a + b;
    var (c, n) := DecodeChar(s).value;
    assert n <= |a| && (n == |a| ==> |a| == 1) by {
      assert s[|a| - 1] == a[|a| - 1];
      if |a| > 1 {
        AsciiEndsChar(s, |a| - 1);
      }
    }
    assert DecodeChar(a) == Some((c, n)) by {
      DecodeCharPrefix(a, s);
    }
    if n == |a| {
      assert s[n..] == b && a[n..] == [];
      DecodeFront(s, c, n);
      DecodeFront(a, c, n);
    } else {
      var a' := a[n..];
      DropAppend(a, b, n);
      assert Decode(a' + b).Some? by {
        DecodeFront(s, c, n);
      }
      DecodeSplit(a', b);
      SeamStep(a, b, c, n);
    }
  }

  /** Dropping a prefix of the first part of a concatenation. */
  lemma DropAppend(a: seq<Byte>, b: seq<Byte>, n: nat)
    requires n <= |a|
    ensures (a + b)[n..] == a[n..] + b
  {
  }

  /** The step of `DecodeSplit` past the first character. */
  lemma SeamStep(a: seq<Byte>, b: seq<Byte>, c: char, n: nat)
    requires 0 < n < |a| && DecodeChar(a) == Some((c, n)) && DecodeChar(a + b) == Some((c, n))
    requires (a + b)[n..] == a[n..] + b
    requires Decode(a[n..]).Some? && Decode(b).Some?
    requires Decode(a[n..] + b) == Some(Decode(a[n..]).value + Decode(b).value)
    requires var x := Decode(a[n..]).value; |x| > 0 && x[|x| - 1] == a[|a| - 1] as char
    ensures Decode(a).Some? && Decode(a + b).Some?
    ensures Decode(a + b).value == Decode(a).value + Decode(b).value
    ensures var x := Decode(a).value; |x| > 0 && x[|x| - 1] == a[|a| - 1] as char
  {
    var x', y := Decode(a[n..]).value, Decode(b).value;
    DecodeFront(a + b, c, n);
    DecodeFront(a, c, n);
    assert [c] + (x' + y) == ([c] + x') + y;
  }

  /** A sequence whose first character decodes is that character before what the rest decodes to. */
  lemma DecodeFront(bs: seq<Byte>, c: char, n: nat)
    requires |bs| > 0 && DecodeChar(bs) == Some((c, n))
    ensures Decode(bs).Some? <==> Decode(bs[n..]).Some?
    ensures Decode(bs).Some? ==> Decode(bs).value == [c] + Decode(bs[n..]).value
  {
  }
}
