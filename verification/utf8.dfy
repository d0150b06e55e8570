/**
 * UTF-8 encoding and strict decoding of label strings.
 *
 * Feature-name labels are stored as byte strings: `encode_uf8` turns each
 * label into its UTF-8 bytes before writing and `read_labels` decodes each
 * stored entry back to text. A Dafny `char` is a Unicode scalar value, so
 * encoding is total; decoding follows the strict rules of a standard UTF-8
 * decoder (no overlong forms, no surrogates, nothing above U+10FFFF) and fails
 * with `None` where such a decoder raises.
 */
module Utf8 {
  import opened Wrappers

  type byte = x: int | 0 <= x < 256

  predicate IsContinuation(b: byte) { 0x80 <= b < 0xC0 }

  /** The bytes of one scalar value, shortest form. */
  function EncodeChar(c: char): (r: seq<byte>)
    ensures 1 <= |r| <= 4
    ensures r[0] < 0x80 || 0xC2 <= r[0] <= 0xF4
    ensures forall k :: 1 <= k < |r| ==> IsContinuation(r[k])
  {
    var cp := c as int;
    if cp < 0x80 then [cp]
    else if cp < 0x800 then [0xC0 + cp / 64, 0x80 + cp % 64]
    else if cp < 0x10000 then [0xE0 + cp / 4096, 0x80 + (cp / 64) % 64, 0x80 + cp % 64]
    else [0xF0 + cp / 262144, 0x80 + (cp / 4096) % 64, 0x80 + (cp / 64) % 64, 0x80 + cp % 64]
  }

  /** The UTF-8 encoding of a whole string (Python's `str.encode('utf-8')`). */
  function Encode(s: string): (r: seq<byte>)
    ensures |s| <= |r| <= 4 * |s|
  {
    if s == [] then [] else EncodeChar(s[0]) + Encode(s[1..])
  }

  predicate IsScalar(cp: int) { 0 <= cp < 0xD800 || 0xE000 <= cp < 0x110000 }

  /** Decodes the first scalar value of `b`: the character and how many bytes it used. */
  function DecodeFirst(b: seq<byte>): (r: Option<(char, nat)>)
    requires |b| > 0
    ensures r.Some? ==> 1 <= r.value.1 <= |b| && r.value.1 <= 4
  {
    var b0 := b[0] as int;
    if b0 < 0x80 then Some((b0 as char, 1))
    else if 0xC0 <= b0 < 0xE0 then
      if |b| < 2 || !IsContinuation(b[1]) then None
      else
        var cp := (b0 - 0xC0) * 64 + (b[1] as int - 0x80);
        if cp < 0x80 then None else Some((cp as char, 2))
    else if 0xE0 <= b0 < 0xF0 then
      if |b| < 3 || !IsContinuation(b[1]) || !IsContinuation(b[2]) then None
      else
        var cp := (b0 - 0xE0) * 4096 + (b[1] as int - 0x80) * 64 + (b[2] as int - 0x80);
        if cp < 0x800 || !IsScalar(cp) then None else Some((cp as char, 3))
    else if 0xF0 <= b0 < 0xF8 then
      if |b| < 4 || !IsContinuation(b[1]) || !IsContinuation(b[2]) || !IsContinuation(b[3]) then None
      else
        var cp := (b0 - 0xF0) * 262144 + (b[1] as int - 0x80) * 4096 + (b[2] as int - 0x80) * 64 + (b[3] as int - 0x80);
        if cp < 0x10000 || !IsScalar(cp) then None else Some((cp as char, 4))
    else None
  }

  /** Strict decoding of a whole byte string (Python's `bytes.decode('utf-8')`). */
  function Decode(b: seq<byte>): (r: Option<string>)
    ensures r.Some? ==> |r.value| <= |b|
    decreases |b|
  {
    if b == [] then Some([])
    else match DecodeFirst(b)
      case None => None
      case Some((c, k)) =>
        match Decode(b[k..])
        case None => None
        case Some(rest) => Some([c] + rest)
  }

  lemma DivMod64(x: int)
    requires x >= 0
    ensures x == (x / 64) * 64 + x % 64
    ensures x / 64 / 64 == x / 4096
    ensures x / 4096 / 64 == x / 262144
  {
  }

  /** Decoding the encoding of one character gives that character back, whatever follows. */
  lemma DecodeEncodeChar(c: char, rest: seq<byte>)
    ensures DecodeFirst(EncodeChar(c) + rest) == Some((c, |EncodeChar(c)|))
  {
    var cp := c as int;
    var e := EncodeChar(c);
    var b := e + rest;
    DivMod64(cp);
    DivMod64(cp / 64);
    DivMod64(cp / 4096);
    if cp < 0x80 {
    } else if cp < 0x800 {
      assert b[0] == 0xC0 + cp / 64 && b[1] == 0x80 + cp % 64;
      assert (b[0] as int - 0xC0) * 64 + (b[1] as int - 0x80) == cp;
    } else if cp < 0x10000 {
      assert b[0] == 0xE0 + cp / 4096 && b[1] == 0x80 + (cp / 64) % 64 && b[2] == 0x80 + cp % 64;
      assert (b[0] as int - 0xE0) * 4096 + (b[1] as int - 0x80) * 64 + (b[2] as int - 0x80) == cp;
    } else {
      assert b[0] == 0xF0 + cp / 262144 && b[1] == 0x80 + (cp / 4096) % 64;
      assert b[2] == 0x80 + (cp / 64) % 64 && b[3] == 0x80 + cp % 64;
      assert (b[0] as int - 0xF0) * 262144 + (b[1] as int - 0x80) * 4096 + (b[2] as int - 0x80) * 64 + (b[3] as int - 0x80) == cp;
    }
  }

  /** Round trip: every string survives encoding followed by strict decoding. */
  lemma {:induction false} DecodeEncode(s: string)
    ensures Decode(Encode(s)) == Some(s)
  {
    if s != [] {
      var e, tail := EncodeChar(s[0]), Encode(s[1..]);
      assert Encode(s) == e + tail;
      DecodeEncodeChar(s[0], tail);
      assert (e + tail)[|e|..] == tail;
      DecodeEncode(s[1..]);
      assert [s[0]] + s[1..] == s;
    }
  }

  lemma DivModUnique(x: int, q: int, r: int)
    requires 0 <= r < 64 && x == q * 64 + r
    ensures x / 64 == q && x % 64 == r
  {
  }

  /** Strict decoding accepts only shortest forms: re-encoding a decoded character gives back its bytes. */
  lemma EncodeDecodeFirst(b: seq<byte>)
    requires |b| > 0 && DecodeFirst(b).Some?
    ensures EncodeChar(DecodeFirst(b).value.0) == b[..DecodeFirst(b).value.1]
  {
    var b0 := b[0] as int;
    var c := DecodeFirst(b).value.0;
    var cp := c as int;
    if b0 < 0x80 {
    } else if b0 < 0xE0 {
      DivModUnique(cp, b0 - 0xC0, b[1] as int - 0x80);
    } else if b0 < 0xF0 {
      var hi := (b0 - 0xE0) * 64 + (b[1] as int - 0x80);
      DivModUnique(cp, hi, b[2] as int - 0x80);
      DivModUnique(hi, b0 - 0xE0, b[1] as int - 0x80);
      DivMod64(cp);
    } else {
      var mid := (b0 - 0xF0) * 64 + (b[1] as int - 0x80);
      var hi := mid * 64 + (b[2] as int - 0x80);
      DivModUnique(cp, hi, b[3] as int - 0x80);
      DivModUnique(hi, mid, b[2] as int - 0x80);
      DivModUnique(mid, b0 - 0xF0, b[1] as int - 0x80);
      DivMod64(cp);
      DivMod64(cp / 64);
    }
  }

  /** The other round trip: a byte string that decodes is the encoding of what it decodes to. */
  lemma {:induction false} EncodeDecode(b: seq<byte>)
    requires Decode(b).Some?
    ensures Encode(Decode(b).value) == b
    decreases |b|
  {
    if b != [] {
      var (c, k) := DecodeFirst(b).value;
      EncodeDecodeFirst(b);
      EncodeDecode(b[k..]);
      var s := Decode(b).value;
      assert s == [c] + Decode(b[k..]).value;
      assert s[0] == c && s[1..] == Decode(b[k..]).value;
      assert b == b[..k] + b[k..];
    }
  }
}
