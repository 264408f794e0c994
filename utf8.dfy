/**
 * UTF-8, the byte encoding of Rust's `String`.
 *
 * The plugin compares and slices strings by byte (`starts_with`, `prefix.len()`)
 * and hands the selected title over as `into_bytes()`. The rest of the model works
 * on `string` (a sequence of Unicode scalar values); this module proves that doing
 * so loses nothing: a byte prefix of the encoding is exactly the encoding of a
 * character prefix, and byte slicing at that boundary is character slicing.
 */
module Utf8 {
  import opened Wrappers

  type Byte = b: int | 0 <= b < 256

  /** The code point of `c`; Dafny characters are Unicode scalar values. */
  function CodePoint(c: char): (cp: int)
    ensures 0 <= cp < 0xD800 || 0xE000 <= cp < 0x11_0000
  {
    c as int
  }

  /** The one to four bytes that encode `c`. */
  function EncodeChar(c: char): (bs: seq<Byte>)
    ensures 1 <= |bs| <= 4
  {
    var cp := CodePoint(c);
    if cp < 0x80 then [cp]
    else if cp < 0x800 then [0xC0 + cp / 64, 0x80 + cp % 64]
    else if cp < 0x1_0000 then [0xE0 + cp / 4096, 0x80 + (cp / 64) % 64, 0x80 + cp % 64]
    else [0xF0 + cp / 262144, 0x80 + (cp / 4096) % 64, 0x80 + (cp / 64) % 64, 0x80 + cp % 64]
  }

  /** The UTF-8 encoding of a whole string (Rust's `String::into_bytes`). */
  function Encode(s: string): (bytes: seq<Byte>)
    ensures |s| <= |bytes| <= 4 * |s|
  {
    if s == [] then [] else EncodeChar(s[0]) + Encode(s[1..])
  }

  /** The length of the sequence a lead byte starts, or 0 when `b` cannot lead one. */
  function LeadLength(b: Byte): nat
  {
    if b < 0x80 then 1
    else if 0xC2 <= b < 0xE0 then 2
    else if 0xE0 <= b < 0xF0 then 3
    else if 0xF0 <= b < 0xF5 then 4
    else 0
  }

  predicate IsContinuation(b: Byte)
  {
    0x80 <= b < 0xC0
  }

  /** The smallest code point that needs `n` bytes (a shorter form is rejected as overlong). */
  function MinCodePoint(n: nat): int
  {
    if n <= 1 then 0 else if n == 2 then 0x80 else if n == 3 then 0x800 else 0x1_0000
  }

  /** The code point that a lead byte and its continuation bytes carry, overlong or not. */
  function Payload(bs: seq<Byte>): int
    requires 2 <= |bs| <= 4
  {
    var b0: int, b1: int := bs[0], bs[1];
    if |bs| == 2 then (b0 - 0xC0) * 64 + (b1 - 0x80)
    else
      var b2: int := bs[2];
      if |bs| == 3 then ((b0 - 0xE0) * 64 + (b1 - 0x80)) * 64 + (b2 - 0x80)
      else
        var b3: int := bs[3];
        (((b0 - 0xF0) * 64 + (b1 - 0x80)) * 64 + (b2 - 0x80)) * 64 + (b3 - 0x80)
  }

  /**
   * Decodes the first character of `bs`, returning it with the number of bytes it
   * used, or None when `bs` does not start with a well-formed UTF-8 sequence.
   */
  function DecodeChar(bs: seq<Byte>): (r: Option<(char, nat)>)
    ensures r.Some? ==> 1 <= r.value.1 <= |bs| && r.value.1 == LeadLength(bs[0])
  {
    if |bs| == 0 then None
    else
      var n := LeadLength(bs[0]);
      if n == 0 || |bs| < n then None
      else if n == 1 then Some((bs[0] as char, 1))
      else if !IsContinuation(bs[1]) || (n >= 3 && !IsContinuation(bs[2]))
              || (n == 4 && !IsContinuation(bs[3])) then None
      else
        var cp := Payload(bs[..n]);
        if cp < MinCodePoint(n) || 0x11_0000 <= cp || (0xD800 <= cp < 0xE000) then None
        else Some((cp as char, n))
  }

  /** Decodes a whole byte sequence, or None when it is not well-formed UTF-8. */
  function Decode(bs: seq<Byte>): Option<string>
    decreases |bs|
  {
    if bs == [] then Some([])
    else match DecodeChar(bs)
      case None => None
      case Some((c, n)) =>
        match Decode(bs[n..])
        case None => None
        case Some(s) => Some([c] + s)
  }

  /** Splits a number below 64^k into base-64 digits; used by the per-character lemmas. */
  lemma DivMod64(q: int, r: int)
    requires 0 <= q && 0 <= r < 64
    ensures (q * 64 + r) / 64 == q && (q * 64 + r) % 64 == r
  {
  }

  /** Dividing by 64 twice or three times is dividing by 4096 or 262144. */
  lemma DivDiv64(x: nat)
    ensures (x / 64) / 64 == x / 4096
    ensures (x / 4096) / 64 == x / 262144
  {
    var q, r := x / 4096, x % 4096;
    assert x == q * 4096 + r && 0 <= r < 4096;
    DivMod64(q * 64 + r / 64, r % 64);
    assert x == (q * 64 + r / 64) * 64 + r % 64;
    DivMod64(q, r / 64);
    var q', r' := x / 262144, x % 262144;
    assert x == q' * 262144 + r' && 0 <= r' < 262144;
    assert x / 4096 == q' * 64 + r' / 4096;
    DivMod64(q', r' / 4096);
  }

  /** Decoding the encoding of one character gives that character back, whatever follows. */
  lemma DecodeEncodeChar(c: char, rest: seq<Byte>)
    ensures DecodeChar(EncodeChar(c) + rest) == Some((c, |EncodeChar(c)|))
  {
    var cp := CodePoint(c);
    if cp < 0x80 {
      assert (EncodeChar(c) + rest)[0] == cp;
    } else if cp < 0x800 {
      DecodeEncodeTwo(c, rest);
    } else if cp < 0x1_0000 {
      DecodeEncodeThree(c, rest);
    } else {
      DecodeEncodeFour(c, rest);
    }
  }

  lemma DecodeEncodeTwo(c: char, rest: seq<Byte>)
    requires 0x80 <= CodePoint(c) < 0x800
    ensures DecodeChar(EncodeChar(c) + rest) == Some((c, 2))
  {
    var cp := CodePoint(c);
    var bs := EncodeChar(c) + rest;
    var d0, d1 := cp / 64, cp % 64;
    assert bs[0] == 0xC0 + d0 && bs[1] == 0x80 + d1;
    assert LeadLength(bs[0]) == 2 && IsContinuation(bs[1]);
    assert Payload(bs[..2]) == d0 * 64 + d1 == cp;
  }

  lemma DecodeEncodeThree(c: char, rest: seq<Byte>)
    requires 0x800 <= CodePoint(c) < 0x1_0000
    ensures DecodeChar(EncodeChar(c) + rest) == Some((c, 3))
  {
    var cp := CodePoint(c);
    var bs := EncodeChar(c) + rest;
    DivDiv64(cp);
    var d0, d1, d2 := cp / 4096, (cp / 64) % 64, cp % 64;
    assert bs[0] == 0xE0 + d0 && bs[1] == 0x80 + d1 && bs[2] == 0x80 + d2;
    assert LeadLength(bs[0]) == 3 && IsContinuation(bs[1]) && IsContinuation(bs[2]);
    assert cp / 64 == d0 * 64 + d1;
    assert Payload(bs[..3]) == (d0 * 64 + d1) * 64 + d2 == cp;
  }

  lemma DecodeEncodeFour(c: char, rest: seq<Byte>)
    requires 0x1_0000 <= CodePoint(c)
    ensures DecodeChar(EncodeChar(c) + rest) == Some((c, 4))
  {
    var cp := CodePoint(c);
    var bs := EncodeChar(c) + rest;
    DivDiv64(cp);
    DivDiv64(cp / 64);
    var d0, d1, d2, d3 := cp / 262144, (cp / 4096) % 64, (cp / 64) % 64, cp % 64;
    assert bs[0] == 0xF0 + d0 && bs[1] == 0x80 + d1 && bs[2] == 0x80 + d2 && bs[3] == 0x80 + d3;
    assert LeadLength(bs[0]) == 4;
    assert IsContinuation(bs[1]) && IsContinuation(bs[2]) && IsContinuation(bs[3]);
    assert cp / 4096 == d0 * 64 + d1;
    assert cp / 64 == (cp / 4096) * 64 + d2;
    assert Payload(bs[..4]) == ((d0 * 64 + d1) * 64 + d2) * 64 + d3 == cp;
  }

  /** Encoding distributes over concatenation. */
  lemma {:induction false} EncodeAppend(a: string, b: string)
    ensures Encode(a + b) == Encode(a) + Encode(b)
  {
    if a == [] {
      assert a + b == b;
    } else {
      assert (a + b)[0] == a[0];
      assert (a + b)[1..] == a[1..] + b;
      EncodeAppend(a[1..], b);
    }
  }

  /** The encoding of a non-empty string is non-empty. */
  lemma EncodeEmpty(s: string)
    ensures Encode(s) == [] <==> s == []
  {
  }

  /** Round trip: decoding the bytes of a string gives the string back. */
  lemma {:induction false} DecodeEncode(s: string)
    ensures Decode(Encode(s)) == Some(s)
  {
    if s != [] {
      var e := EncodeChar(s[0]);
      DecodeEncodeChar(s[0], Encode(s[1..]));
      assert (e + Encode(s[1..]))[|e|..] == Encode(s[1..]);
      DecodeEncode(s[1..]);
      assert [s[0]] + s[1..] == s;
    }
  }

  /**
   * A byte prefix of an encoding is the encoding of a character prefix: Rust's
   * byte-wise `starts_with` on UTF-8 strings agrees with a character-wise one.
   */
  lemma BytePrefixIsCharPrefix(p: string, s: string)
    ensures Encode(p) <= Encode(s) <==> p <= s
  {
    if p <= s {
      assert s == p + s[|p|..];
      EncodeAppend(p, s[|p|..]);
    }
    if Encode(p) <= Encode(s) {
      PrefixOfEncoding(p, s);
    }
  }

  lemma {:induction false} PrefixOfEncoding(p: string, s: string)
    requires Encode(p) <= Encode(s)
    ensures p <= s
  {
    if p != [] {
      assert s != [] by { EncodeEmpty(s); }
      SameFirstChar(p, s);
      assert Encode(p[1..]) <= Encode(s[1..]);
      PrefixOfEncoding(p[1..], s[1..]);
      assert p == [p[0]] + p[1..];
      assert s == [s[0]] + s[1..];
    }
  }

  /** Two non-empty strings whose encodings are prefix-related start with the same character. */
  lemma SameFirstChar(p: string, s: string)
    requires p != [] && s != [] && Encode(p) <= Encode(s)
    ensures p[0] == s[0]
    ensures Encode(p[1..]) <= Encode(s[1..])
  {
    var e := EncodeChar(p[0]);
    var bs := Encode(s);
    assert Encode(p) == e + Encode(p[1..]);
    PrefixSplit(e, Encode(p[1..]), bs);
    assert bs == EncodeChar(s[0]) + Encode(s[1..]);
    CharCodesArePrefixFree(p[0], bs[|e|..], s[0], Encode(s[1..]));
  }

  /** A prefix `e + x` of `bs` splits `bs` after `e`. */
  lemma PrefixSplit(e: seq<Byte>, x: seq<Byte>, bs: seq<Byte>)
    requires e + x <= bs
    ensures bs == e + bs[|e|..] && x <= bs[|e|..]
  {
    assert bs[..|e|] == (e + x)[..|e|] == e;
    assert bs == bs[..|e|] + bs[|e|..];
  }

  /** No character's bytes are a prefix of another character's bytes. */
  lemma CharCodesArePrefixFree(c: char, x: seq<Byte>, d: char, y: seq<Byte>)
    requires EncodeChar(c) + x == EncodeChar(d) + y
    ensures c == d && x == y
  {
    DecodeEncodeChar(c, x);
    DecodeEncodeChar(d, y);
    assert |EncodeChar(c)| == |EncodeChar(d)|;
    assert x == (EncodeChar(c) + x)[|EncodeChar(c)|..];
    assert y == (EncodeChar(d) + y)[|EncodeChar(d)|..];
  }

  /**
   * Slicing the bytes of `s` after the bytes of its prefix `p` (Rust's
   * `&input[prefix.len()..]`) gives the bytes of the remaining characters.
   */
  lemma ByteSliceIsCharSlice(p: string, s: string)
    requires p <= s
    ensures |Encode(p)| <= |Encode(s)|
    ensures Encode(s)[|Encode(p)|..] == Encode(s[|p|..])
  {
    assert s == p + s[|p|..];
    EncodeAppend(p, s[|p|..]);
  }
}
