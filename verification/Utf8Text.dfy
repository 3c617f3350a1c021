/** A strict UTF-8 decoder (section 3 of RFC 3629), against which the encoder of the mask is proved. */
module Utf8Text {
  import opened Seqs
  import opened Options
  import opened Brackets
  import opened Mask

  datatype Decoded = Decoded(c: char, width: nat)

  /** A continuation byte. */
  predicate IsTail(b: int) {
    0x80 <= b <= 0xBF
  }

  predicate IsScalar(u: int) {
    0 <= u < 0xD800 || 0xE000 <= u < 0x110000
  }

  /** The character at the front: shortest form only, no surrogates, nothing beyond U+10FFFF. */
  function DecodeOne(bs: seq<Byte>): (r: Option<Decoded>)
    ensures r.Some? ==> 1 <= r.value.width <= |bs|
  {
    if bs == [] then None
    else if bs[0] < 0x80 then Some(Decoded(bs[0] as char, 1))
    else if 0xC0 <= bs[0] < 0xE0 && |bs| >= 2 && IsTail(bs[1]) then
      Shortest(Joined(bs[0] - 0xC0, bs[1]), 0x80, 2)
    else if 0xE0 <= bs[0] < 0xF0 && |bs| >= 3 && IsTail(bs[1]) && IsTail(bs[2]) then
      Shortest(Joined(Joined(bs[0] - 0xE0, bs[1]), bs[2]), 0x800, 3)
    else if 0xF0 <= bs[0] < 0xF8 && |bs| >= 4 && IsTail(bs[1]) && IsTail(bs[2]) && IsTail(bs[3]) then
      Shortest(Joined(Joined(Joined(bs[0] - 0xF0, bs[1]), bs[2]), bs[3]), 0x10000, 4)
    else None
  }

  /** Six more bits. */
  function Joined(high: nat, tail: int): (u: nat)
    requires IsTail(tail)
    ensures u / 64 == high && u % 64 == tail - 0x80
  {
    high * 64 + (tail - 0x80)
  }

  /** A code point that needs that many bytes. */
  function Shortest(u: nat, least: nat, width: nat): Option<Decoded> {
    if least <= u && IsScalar(u) then Some(Decoded(u as char, width)) else None
  }

  function Decode(bs: seq<Byte>): Option<string>
    decreases |bs|
  {
    if bs == [] then Some("")
    else
      match DecodeOne(bs)
      case None => None
      case Some(d) =>
        match Decode(bs[d.width..])
        case None => None
        case Some(rest) => Some([d.c] + rest)
  }

  // ----- What is encoded is read back

  lemma Split64(u: nat)
    ensures u == u / 64 * 64 + u % 64 && u / 4096 == u / 64 / 64 && u / 262144 == u / 4096 / 64
  {
  }

  lemma CharIsScalar(c: char)
    ensures IsScalar(c as int)
  {
  }

  lemma DecodeFront(c: char, rest: seq<Byte>)
    ensures DecodeOne(Utf8(c) + rest) == Some(Decoded(c, |Utf8(c)|))
  {
    var u := c as int;
    CharIsScalar(c);
    if u < 0x80 {
    } else if u < 0x800 {
      DecodeTwo(c, rest);
    } else if u < 0x10000 {
      DecodeThree(c, rest);
    } else {
      DecodeFour(c, rest);
    }
  }

  lemma DecodeTwo(c: char, rest: seq<Byte>)
    requires 0x80 <= c as int < 0x800
    ensures DecodeOne(Utf8(c) + rest) == Some(Decoded(c, 2))
  {
    var u, bs := c as int, Utf8(c) + rest;
    assert bs[0] == 0xC0 + u / 64 && bs[1] == 0x80 + u % 64;
  }

  lemma DecodeThree(c: char, rest: seq<Byte>)
    requires 0x800 <= c as int < 0x10000
    ensures DecodeOne(Utf8(c) + rest) == Some(Decoded(c, 3))
  {
    var u, bs := c as int, Utf8(c) + rest;
    CharIsScalar(c);
    Split64(u);
    assert bs[0] == 0xE0 + u / 4096 && bs[1] == 0x80 + u / 64 % 64 && bs[2] == 0x80 + u % 64;
    assert Joined(bs[0] - 0xE0, bs[1]) == u / 64;
  }

  lemma DecodeFour(c: char, rest: seq<Byte>)
    requires 0x10000 <= c as int
    ensures DecodeOne(Utf8(c) + rest) == Some(Decoded(c, 4))
  {
    var u, bs := c as int, Utf8(c) + rest;
    CharIsScalar(c);
    Split64(u);
    assert bs[0] == 0xF0 + u / 262144 && bs[1] == 0x80 + u / 4096 % 64 && bs[2] == 0x80 + u / 64 % 64 && bs[3] == 0x80 + u % 64;
    assert Joined(bs[0] - 0xF0, bs[1]) == u / 4096;
    assert Joined(u / 4096, bs[2]) == u / 64;
  }

  lemma DecodeCons(front: seq<Byte>, c: char, rest: seq<Byte>, s: string)
    requires front != [] && DecodeOne(front + rest) == Some(Decoded(c, |front|)) && Decode(rest) == Some(s)
    ensures Decode(front + rest) == Some([c] + s)
  {
    assert (front + rest)[|front|..] == rest;
  }

  lemma {:induction false} Utf8RoundTrip(s: string)
    ensures Decode(Encode(s)) == Some(s)
  {
    if s != "" {
      Utf8RoundTrip(s[1..]);
      DecodeFront(s[0], Encode(s[1..]));
      DecodeCons(Utf8(s[0]), s[0], Encode(s[1..]), s[1..]);
      assert s == [s[0]] + s[1..];
    }
  }

  // ----- And nothing else is

  lemma DecodeOneIs(bs: seq<Byte>)
    requires DecodeOne(bs).Some?
    ensures var d := DecodeOne(bs).value; bs[..d.width] == Utf8(d.c)
  {
    var d := DecodeOne(bs).value;
    if bs[0] < 0x80 {
      assert bs[..1] == [bs[0]];
    } else if bs[0] < 0xE0 {
      assert bs[..2] == [bs[0], bs[1]];
    } else if bs[0] < 0xF0 {
      Split64(d.c as int);
      assert bs[..3] == [bs[0], bs[1], bs[2]];
    } else {
      Split64(d.c as int);
      assert bs[..4] == [bs[0], bs[1], bs[2], bs[3]];
    }
  }

  /** The encoding of a text is the one byte string that the decoder reads as it. */
  lemma {:induction false} Utf8Canonical(bs: seq<Byte>, s: string)
    ensures Decode(bs) == Some(s) <==> bs == Encode(s)
    decreases |bs|
  {
    Utf8RoundTrip(s);
    if bs != [] && Decode(bs) == Some(s) {
      var d := DecodeOne(bs).value;
      DecodeOneIs(bs);
      Utf8Canonical(bs[d.width..], s[1..]);
      Cut(bs, d.width);
    }
  }
}
