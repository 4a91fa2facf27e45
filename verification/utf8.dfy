/** UTF-8 as the core meets it: `str::as_bytes` when text is sent, and
    `std::str::from_utf8` when the logger decides how to render bytes.
    Follows the well-formed byte sequences of RFC 3629, section 4. */
module Utf8 {
  import opened Base

  predicate IsContinuation(b: u8) {
    0x80 <= b <= 0xBF
  }

  /** The UTF-8 encoding of one Unicode scalar value. */
  function EncodeChar(c: char): (bytes: seq<u8>)
    ensures 1 <= |bytes| <= 4
  {
    var cp := c as int;
    if cp < 0x80 then
      [cp as u8]
    else if cp < 0x800 then
      [(0xC0 + cp / 64) as u8, (0x80 + cp % 64) as u8]
    else if cp < 0x10000 then
      [(0xE0 + cp / 64 / 64) as u8, (0x80 + cp / 64 % 64) as u8, (0x80 + cp % 64) as u8]
    else
      [(0xF0 + cp / 64 / 64 / 64) as u8, (0x80 + cp / 64 / 64 % 64) as u8,
       (0x80 + cp / 64 % 64) as u8, (0x80 + cp % 64) as u8]
  }

  /** `s.as_bytes()` for a Rust `&str`. */
  function Encode(s: string): (bytes: seq<u8>)
    ensures |s| <= |bytes| <= 4 * |s|
  {
    if |s| == 0 then [] else EncodeChar(s[0]) + Encode(s[1..])
  }

  /** The scalar value at the front of `bytes` and how many bytes encode
      it, or None when the front is not a well-formed sequence. */
  function DecodeFirst(bytes: seq<u8>): (r: Option<(char, nat)>)
    requires |bytes| > 0
    ensures r.Some? ==> 1 <= r.value.1 <= |bytes|
  {
    var b0 := bytes[0] as int;
    if b0 < 0x80 then
      Some((b0 as char, 1))
    else if 0xC2 <= b0 <= 0xDF then
      if |bytes| >= 2 && IsContinuation(bytes[1]) then
        Some((((b0 - 0xC0) * 64 + (bytes[1] as int - 0x80)) as char, 2))
      else None
    else if 0xE0 <= b0 <= 0xEF then
      var lo: int := if b0 == 0xE0 then 0xA0 else 0x80;
      var hi: int := if b0 == 0xED then 0x9F else 0xBF;
      if |bytes| >= 3 && lo <= bytes[1] as int <= hi && IsContinuation(bytes[2]) then
        var cp := ((b0 - 0xE0) * 64 + (bytes[1] as int - 0x80)) * 64 + (bytes[2] as int - 0x80);
        Some((cp as char, 3))
      else None
    else if 0xF0 <= b0 <= 0xF4 then
      var lo: int := if b0 == 0xF0 then 0x90 else 0x80;
      var hi: int := if b0 == 0xF4 then 0x8F else 0xBF;
      if |bytes| >= 4 && lo <= bytes[1] as int <= hi
         && IsContinuation(bytes[2]) && IsContinuation(bytes[3]) then
        var cp := (((b0 - 0xF0) * 64 + (bytes[1] as int - 0x80)) * 64
                   + (bytes[2] as int - 0x80)) * 64 + (bytes[3] as int - 0x80);
        Some((cp as char, 4))
      else None
    else None
  }

  /** `std::str::from_utf8`: the text the bytes spell, or None when they
      are not well-formed UTF-8. */
  function Decode(bytes: seq<u8>): Option<string>
    decreases |bytes|
  {
    if |bytes| == 0 then Some("")
    else match DecodeFirst(bytes)
      case None => None
      case Some((c, k)) =>
        match Decode(bytes[k..])
        case None => None
        case Some(rest) => Some([c] + rest)
  }

  /** One encoded scalar value decodes back to itself, whatever follows. */
  lemma DecodeFirstEncodeChar(c: char, rest: seq<u8>)
    ensures DecodeFirst(EncodeChar(c) + rest) == Some((c, |EncodeChar(c)|))
  {
    var cp := c as int;
    if cp < 0x80 {
    } else if cp < 0x800 {
      DecodeFirstOfTwo(c, rest);
    } else if cp < 0x10000 {
      DecodeFirstOfThree(c, rest);
    } else {
      DecodeFirstOfFour(c, rest);
    }
  }

  lemma DecodeFirstOfTwo(c: char, rest: seq<u8>)
    requires 0x80 <= c as int < 0x800
    ensures DecodeFirst(EncodeChar(c) + rest) == Some((c, 2))
  {
    var cp := c as int;
    var bytes := EncodeChar(c) + rest;
    assert bytes[0] as int == 0xC0 + cp / 64;
    assert bytes[1] as int == 0x80 + cp % 64;
  }

  lemma DecodeFirstOfThree(c: char, rest: seq<u8>)
    requires 0x800 <= c as int < 0x10000
    ensures DecodeFirst(EncodeChar(c) + rest) == Some((c, 3))
  {
    var cp := c as int;
    var bytes := EncodeChar(c) + rest;
    assert bytes[0] as int == 0xE0 + cp / 64 / 64;
    assert bytes[1] as int == 0x80 + cp / 64 % 64;
    assert bytes[2] as int == 0x80 + cp % 64;
    assert (cp / 64 / 64 * 64 + cp / 64 % 64) * 64 + cp % 64 == cp;
  }

  lemma DecodeFirstOfFour(c: char, rest: seq<u8>)
    requires 0x10000 <= c as int
    ensures DecodeFirst(EncodeChar(c) + rest) == Some((c, 4))
  {
    var cp := c as int;
    var bytes := EncodeChar(c) + rest;
    assert bytes[0] as int == 0xF0 + cp / 64 / 64 / 64;
    assert bytes[1] as int == 0x80 + cp / 64 / 64 % 64;
    assert bytes[2] as int == 0x80 + cp / 64 % 64;
    assert bytes[3] as int == 0x80 + cp % 64;
    assert ((cp / 64 / 64 / 64 * 64 + cp / 64 / 64 % 64) * 64 + cp / 64 % 64) * 64 + cp % 64 == cp;
  }

  /** Round trip: the bytes of a Rust string are always valid UTF-8 and
      spell that same string. */
  lemma {:induction false} DecodeEncode(s: string)
    ensures Decode(Encode(s)) == Some(s)
  {
    if |s| == 0 {
    } else {
      var head := EncodeChar(s[0]);
      var tail := Encode(s[1..]);
      DecodeFirstEncodeChar(s[0], tail);
      assert (head + tail)[|head|..] == tail;
      DecodeEncode(s[1..]);
      assert [s[0]] + s[1..] == s;
    }
  }

  lemma {:induction false} EncodeAppend(a: string, b: string)
    ensures Encode(a + b) == Encode(a) + Encode(b)
  {
    if |a| == 0 {
      assert a + b == b;
    } else {
      assert (a + b)[0] == a[0] && (a + b)[1..] == a[1..] + b;
      EncodeAppend(a[1..], b);
    }
  }

  /** The scalar value found at the front of well-formed bytes encodes
      back to exactly the bytes it was read from. */
  lemma EncodeCharDecodeFirst(bytes: seq<u8>)
    requires |bytes| > 0 && DecodeFirst(bytes).Some?
    ensures EncodeChar(DecodeFirst(bytes).value.0) == bytes[..DecodeFirst(bytes).value.1]
  {
    var b0 := bytes[0];
    if b0 < 0x80 {
    } else if b0 <= 0xDF {
      EncodeCharOfTwo(bytes);
    } else if b0 <= 0xEF {
      EncodeCharOfThree(bytes);
    } else {
      EncodeCharOfFour(bytes);
    }
  }

  lemma EncodeCharOfTwo(bytes: seq<u8>)
    requires |bytes| > 0 && 0x80 <= bytes[0] <= 0xDF && DecodeFirst(bytes).Some?
    ensures EncodeChar(DecodeFirst(bytes).value.0) == bytes[..2]
  {
    var cp := DecodeFirst(bytes).value.0 as int;
    var b1 := bytes[1] as int - 0x80;
    assert cp == (bytes[0] as int - 0xC0) * 64 + b1;
    assert cp / 64 == bytes[0] as int - 0xC0 && cp % 64 == b1;
    assert bytes[..2] == [bytes[0], bytes[1]];
  }

  lemma EncodeCharOfThree(bytes: seq<u8>)
    requires |bytes| > 0 && 0xE0 <= bytes[0] <= 0xEF && DecodeFirst(bytes).Some?
    ensures EncodeChar(DecodeFirst(bytes).value.0) == bytes[..3]
  {
    var b0 := bytes[0] as int;
    var cp := DecodeFirst(bytes).value.0 as int;
    var b1 := bytes[1] as int - 0x80;
    var b2 := bytes[2] as int - 0x80;
    assert cp == ((b0 - 0xE0) * 64 + b1) * 64 + b2;
    assert cp % 64 == b2 && cp / 64 == (b0 - 0xE0) * 64 + b1;
    assert cp / 64 % 64 == b1 && cp / 64 / 64 == b0 - 0xE0;
    assert bytes[..3] == [bytes[0], bytes[1], bytes[2]];
  }

  lemma EncodeCharOfFour(bytes: seq<u8>)
    requires |bytes| > 0 && 0xF0 <= bytes[0] && DecodeFirst(bytes).Some?
    ensures EncodeChar(DecodeFirst(bytes).value.0) == bytes[..4]
  {
    var b0 := bytes[0] as int;
    var cp := DecodeFirst(bytes).value.0 as int;
    var b1 := bytes[1] as int - 0x80;
    var b2 := bytes[2] as int - 0x80;
    var b3 := bytes[3] as int - 0x80;
    assert cp == (((b0 - 0xF0) * 64 + b1) * 64 + b2) * 64 + b3;
    assert cp % 64 == b3 && cp / 64 == ((b0 - 0xF0) * 64 + b1) * 64 + b2;
    assert cp / 64 % 64 == b2 && cp / 64 / 64 == (b0 - 0xF0) * 64 + b1;
    assert cp / 64 / 64 % 64 == b1 && cp / 64 / 64 / 64 == b0 - 0xF0;
    assert bytes[..4] == [bytes[0], bytes[1], bytes[2], bytes[3]];
  }

  /** How a successful decode splits: the first scalar value, then the
      decode of what follows it. */
  lemma DecodeSplit(bytes: seq<u8>)
    requires |bytes| > 0 && Decode(bytes).Some?
    ensures DecodeFirst(bytes).Some?
    ensures Decode(bytes[DecodeFirst(bytes).value.1..]).Some?
    ensures Decode(bytes).value
         == [DecodeFirst(bytes).value.0] + Decode(bytes[DecodeFirst(bytes).value.1..]).value
  {
  }

  /** Round trip the other way: bytes that are well-formed UTF-8 are
      exactly the encoding of the text they spell. */
  lemma {:induction false} EncodeDecode(bytes: seq<u8>)
    requires Decode(bytes).Some?
    ensures Encode(Decode(bytes).value) == bytes
    decreases |bytes|
  {
    if |bytes| > 0 {
      DecodeSplit(bytes);
      var (c, k) := DecodeFirst(bytes).value;
      EncodeCharDecodeFirst(bytes);
      EncodeDecode(bytes[k..]);
      EncodeCons(bytes, c, k, Decode(bytes[k..]).value);
    }
  }

  /** Bytes made of the encoding of `c` and then that of `rest` are the
      encoding of `c` followed by `rest`. */
  lemma EncodeCons(bytes: seq<u8>, c: char, k: nat, rest: string)
    requires k <= |bytes| && EncodeChar(c) == bytes[..k] && Encode(rest) == bytes[k..]
    ensures Encode([c] + rest) == bytes
  {
    assert ([c] + rest)[0] == c && ([c] + rest)[1..] == rest;
    assert bytes[..k] + bytes[k..] == bytes;
  }
}
