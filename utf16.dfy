/**
 * UTF-16 as Rust's `str::encode_utf16` produces it and `String::from_utf16` accepts it:
 * scalar values below 0x10000 are one code unit, the others a high/low surrogate pair;
 * decoding refuses a surrogate that is not part of such a pair.
 */
module Utf16 {
  import opened Common

  predicate IsHighSurrogate(u: u16) {
    0xD800 <= u < 0xDC00
  }

  predicate IsLowSurrogate(u: u16) {
    0xDC00 <= u < 0xE000
  }

  function EncodeChar(c: char): (units: seq<u16>)
    ensures 1 <= |units| <= 2
    ensures |units| == 1 <==> (c as int) < 0x1_0000
    ensures |units| == 1 ==> units[0] == c as int && !IsHighSurrogate(units[0]) && !IsLowSurrogate(units[0])
    ensures |units| == 2 ==> IsHighSurrogate(units[0]) && IsLowSurrogate(units[1])
  {
    var v := c as int;
    if v < 0x1_0000 then [v]
    else [0xD800 + (v - 0x1_0000) / 0x400, 0xDC00 + (v - 0x1_0000) % 0x400]
  }

  /** The scalar value a surrogate pair stands for. */
  function Combine(high: u16, low: u16): (v: int)
    requires IsHighSurrogate(high) && IsLowSurrogate(low)
    ensures 0x1_0000 <= v < 0x11_0000
  {
    0x1_0000 + (high as int - 0xD800) * 0x400 + (low as int - 0xDC00)
  }

  /** `str::encode_utf16`. */
  function Encode(s: string): (units: seq<u16>)
    ensures |s| <= |units| <= 2 * |s|
  {
    if s == [] then [] else EncodeChar(s[0]) + Encode(s[1..])
  }

  /** `String::from_utf16`: `None` when the units are not well-formed UTF-16. */
  function Decode(units: seq<u16>): (r: Option<string>)
    ensures r.Some? ==> |r.value| <= |units|
    decreases |units|
  {
    if units == [] then Some([])
    else
      var u := units[0];
      if !IsHighSurrogate(u) && !IsLowSurrogate(u) then
        match Decode(units[1..])
        case Some(rest) => Some([u as char] + rest)
        case None => None
      else if IsHighSurrogate(u) && |units| >= 2 && IsLowSurrogate(units[1]) then
        var v := Combine(u, units[1]);
        match Decode(units[2..])
        case Some(rest) => Some([v as char] + rest)
        case None => None
      else None
  }

  lemma EncodeCharDecodes(c: char, rest: seq<u16>)
    ensures Decode(EncodeChar(c) + rest) ==
      match Decode(rest)
      case Some(r) => Some([c] + r)
      case None => None
  {
    var e := EncodeChar(c);
    var units := e + rest;
    if |e| == 1 {
      assert units[1..] == rest;
    } else {
      var v := c as int;
      assert units[0] == 0xD800 + (v - 0x1_0000) / 0x400;
      assert units[1] == 0xDC00 + (v - 0x1_0000) % 0x400;
      assert Combine(units[0], units[1]) == v;
      assert units[2..] == rest;
    }
  }

  /** Decoding an encoded string gives it back: `from_utf16(encode_utf16(s)) == Ok(s)`. */
  lemma {:induction false} DecodeEncode(s: string)
    ensures Decode(Encode(s)) == Some(s)
  {
    if s != [] {
      DecodeEncode(s[1..]);
      EncodeCharDecodes(s[0], Encode(s[1..]));
      assert [s[0]] + s[1..] == s;
    }
  }

  /** A pair's scalar value encodes back to that pair. */
  lemma CombineEncodes(high: u16, low: u16)
    requires IsHighSurrogate(high) && IsLowSurrogate(low)
    ensures EncodeChar(Combine(high, low) as char) == [high, low]
  {
    var v := Combine(high, low);
    var offset := v - 0x1_0000;
    assert offset == (high as int - 0xD800) * 0x400 + (low as int - 0xDC00);
    assert offset / 0x400 == high as int - 0xD800;
    assert offset % 0x400 == low as int - 0xDC00;
  }

  /** Only the encoding of a string decodes to it: `from_utf16(u) == Ok(s)` implies `encode_utf16(s) == u`. */
  lemma {:induction false} EncodeDecode(units: seq<u16>)
    requires Decode(units).Some?
    ensures Encode(Decode(units).value) == units
    decreases |units|
  {
    if units != [] {
      var u := units[0];
      var s := Decode(units).value;
      if !IsHighSurrogate(u) && !IsLowSurrogate(u) {
        EncodeDecode(units[1..]);
        assert s[1..] == Decode(units[1..]).value;
        assert EncodeChar(s[0]) == [u];
        assert units == [u] + units[1..];
      } else {
        EncodeDecode(units[2..]);
        CombineEncodes(u, units[1]);
        assert s[1..] == Decode(units[2..]).value;
        assert units == [u, units[1]] + units[2..];
      }
    }
  }

  /** A string without NUL characters encodes to units without a 0 unit. */
  lemma {:induction false} EncodeHasNoNul(s: string)
    requires forall i :: 0 <= i < |s| ==> s[i] != '\0'
    ensures forall i :: 0 <= i < |Encode(s)| ==> Encode(s)[i] != 0
  {
    if s != [] {
      EncodeHasNoNul(s[1..]);
      var e := EncodeChar(s[0]);
      assert Encode(s) == e + Encode(s[1..]);
      forall i | 0 <= i < |Encode(s)|
        ensures Encode(s)[i] != 0
      {
        if i >= |e| {
          assert Encode(s)[i] == Encode(s[1..])[i - |e|];
        }
      }
    }
  }
}
