/** UTF-8 encoding of a string (RFC 3629, section 3), which is what
    `Buffer.from(string)` produces for every present signing segment and
    for the API secret used as the HMAC key. Dafny characters are Unicode
    scalar values, so no surrogate handling arises. */
module Utf8 {
  import opened Wrappers

  /** True of a continuation byte `10xxxxxx`. */
  predicate IsContinuation(b: byte) {
    0x80 <= b < 0xC0
  }

  /** The encoding of one scalar value, in 1 to 4 bytes. */
  function EncodeChar(c: char): (r: seq<byte>)
    ensures c as int < 0x80 ==> r == [c as int as byte]
    ensures 0x80 <= c as int < 0x800 ==> |r| == 2
    ensures 0x800 <= c as int < 0x10000 ==> |r| == 3
    ensures 0x10000 <= c as int ==> |r| == 4
    ensures |r| > 1 ==> 0xC2 <= r[0] <= 0xF4
    ensures forall i :: 1 <= i < |r| ==> IsContinuation(r[i])
    ensures 0 in r <==> c == '\0'
  {
    var n := c as int;
    if n < 0x80 then
      [n as byte]
    else if n < 0x800 then
      [(0xC0 + n / 0x40) as byte, (0x80 + n % 0x40) as byte]
    else if n < 0x10000 then
      [(0xE0 + n / 0x1000) as byte, (0x80 + n / 0x40 % 0x40) as byte, (0x80 + n % 0x40) as byte]
    else
      [(0xF0 + n / 0x40000) as byte, (0x80 + n / 0x1000 % 0x40) as byte,
       (0x80 + n / 0x40 % 0x40) as byte, (0x80 + n % 0x40) as byte]
  }

  /** The encoding of a whole string, character by character. */
  function Encode(s: string): (r: seq<byte>)
    ensures |s| <= |r| <= 4 * |s|
  {
    if |s| == 0 then [] else EncodeChar(s[0]) + Encode(s[1..])
  }

  /** The scalar value carried by a two-, three- or four-byte sequence. */
  function Value2(b0: byte, b1: byte): int {
    (b0 as int - 0xC0) * 0x40 + (b1 as int - 0x80)
  }

  function Value3(b0: byte, b1: byte, b2: byte): int {
    (b0 as int - 0xE0) * 0x1000 + (b1 as int - 0x80) * 0x40 + (b2 as int - 0x80)
  }

  function Value4(b0: byte, b1: byte, b2: byte, b3: byte): int {
    (b0 as int - 0xF0) * 0x40000 + (b1 as int - 0x80) * 0x1000 + (b2 as int - 0x80) * 0x40 + (b3 as int - 0x80)
  }

  /** Decodes the first character of `b`, giving it and the number of bytes
      it occupies; rejects truncated, overlong and surrogate sequences and
      values beyond U+10FFFF. */
  function DecodeChar(b: seq<byte>): (r: Option<(char, nat)>)
    ensures r.Some? ==> 1 <= r.value.1 <= |b| && r.value.1 <= 4
  {
    if |b| == 0 then None
    else if b[0] < 0x80 then
      Some((b[0] as int as char, 1))
    else if 0xC0 <= b[0] < 0xE0 then
      if |b| < 2 || !IsContinuation(b[1]) then None
      else
        var v := Value2(b[0], b[1]);
        if v < 0x80 then None else Some((v as char, 2))
    else if 0xE0 <= b[0] < 0xF0 then
      if |b| < 3 || !IsContinuation(b[1]) || !IsContinuation(b[2]) then None
      else
        var v := Value3(b[0], b[1], b[2]);
        if v < 0x800 || (0xD800 <= v < 0xE000) then None else Some((v as char, 3))
    else if 0xF0 <= b[0] < 0xF8 then
      if |b| < 4 || !IsContinuation(b[1]) || !IsContinuation(b[2]) || !IsContinuation(b[3]) then None
      else
        var v := Value4(b[0], b[1], b[2], b[3]);
        if v < 0x10000 || v >= 0x110000 then None else Some((v as char, 4))
    else
      None
  }

  /** Decodes a whole byte string, or fails on the first malformed sequence. */
  function Decode(b: seq<byte>): Option<string>
    decreases |b|
  {
    if |b| == 0 then Some("")
    else
      var first := DecodeChar(b);
      if first.None? then None
      else
        var rest := Decode(b[first.value.1..]);
        if rest.None? then None else Some([first.value.0] + rest.value)
  }

  /** Decoding the encoding of a character recovers it, whatever follows. */
  lemma DecodeEncodeChar(c: char, rest: seq<byte>)
    ensures DecodeChar(EncodeChar(c) + rest) == Some((c, |EncodeChar(c)|))
  {
    var n := c as int;
    if n < 0x80 {
    } else if n < 0x800 {
      DecodeEncodeTwo(c, rest);
    } else if n < 0x10000 {
      DecodeEncodeThree(c, rest);
    } else {
      DecodeEncodeFour(c, rest);
    }
  }

  lemma DecodeEncodeTwo(c: char, rest: seq<byte>)
    requires 0x80 <= c as int < 0x800
    ensures DecodeChar(EncodeChar(c) + rest) == Some((c, 2))
  {
    var n := c as int;
    var b := EncodeChar(c) + rest;
    assert b[0] as int == 0xC0 + n / 0x40 && b[1] as int == 0x80 + n % 0x40;
    assert Value2(b[0], b[1]) == n;
  }

  lemma DecodeEncodeThree(c: char, rest: seq<byte>)
    requires 0x800 <= c as int < 0x10000
    ensures DecodeChar(EncodeChar(c) + rest) == Some((c, 3))
  {
    var n := c as int;
    var b := EncodeChar(c) + rest;
    SplitBase64(n);
    assert b[0] as int == 0xE0 + n / 0x1000;
    assert b[1] as int == 0x80 + n / 0x40 % 0x40 && b[2] as int == 0x80 + n % 0x40;
    assert Value3(b[0], b[1], b[2]) == n;
  }

  lemma DecodeEncodeFour(c: char, rest: seq<byte>)
    requires 0x10000 <= c as int
    ensures DecodeChar(EncodeChar(c) + rest) == Some((c, 4))
  {
    var n := c as int;
    var b := EncodeChar(c) + rest;
    SplitBase64(n);
    SplitBase64(n / 0x40);
    assert n / 0x40 / 0x40 == n / 0x1000;
    assert n / 0x1000 == (n / 0x40000) * 0x40 + n / 0x1000 % 0x40;
    assert b[0] as int == 0xF0 + n / 0x40000;
    assert b[1] as int == 0x80 + n / 0x1000 % 0x40;
    assert b[2] as int == 0x80 + n / 0x40 % 0x40 && b[3] as int == 0x80 + n % 0x40;
    assert Value4(b[0], b[1], b[2], b[3]) == n;
  }

  /** Splitting off the two lowest base-64 digits of a natural number. */
  lemma SplitBase64(n: nat)
    ensures n == (n / 0x1000) * 0x1000 + (n / 0x40 % 0x40) * 0x40 + n % 0x40
  {
    assert n == (n / 0x40) * 0x40 + n % 0x40;
    assert n / 0x40 == (n / 0x40 / 0x40) * 0x40 + n / 0x40 % 0x40;
    assert n / 0x40 / 0x40 == n / 0x1000;
  }

  /** Decoding inverts encoding, so distinct strings have distinct bytes. */
  lemma {:induction false} DecodeEncode(s: string)
    ensures Decode(Encode(s)) == Some(s)
  {
    if |s| > 0 {
      var e := EncodeChar(s[0]);
      DecodeEncodeChar(s[0], Encode(s[1..]));
      assert (e + Encode(s[1..]))[|e|..] == Encode(s[1..]);
      DecodeEncode(s[1..]);
      assert [s[0]] + s[1..] == s;
    }
  }

  /** Conversely, the bytes a successful decode consumed are exactly the
      encoding of the character it produced. */
  lemma EncodeDecodeChar(b: seq<byte>)
    requires DecodeChar(b).Some?
    ensures EncodeChar(DecodeChar(b).value.0) == b[..DecodeChar(b).value.1]
  {
    if b[0] < 0x80 {
    } else if b[0] < 0xE0 {
      EncodeValue2(b[0], b[1]);
    } else if b[0] < 0xF0 {
      EncodeValue3(b[0], b[1], b[2]);
    } else {
      EncodeValue4(b[0], b[1], b[2], b[3]);
    }
  }

  lemma EncodeValue2(b0: byte, b1: byte)
    requires 0xC0 <= b0 < 0xE0 && IsContinuation(b1) && Value2(b0, b1) >= 0x80
    ensures EncodeChar(Value2(b0, b1) as char) == [b0, b1]
  {
    var hi, lo := b0 as int - 0xC0, b1 as int - 0x80;
    DivMod64(hi, lo);
  }

  lemma EncodeValue3(b0: byte, b1: byte, b2: byte)
    requires 0xE0 <= b0 < 0xF0 && IsContinuation(b1) && IsContinuation(b2)
    requires Value3(b0, b1, b2) >= 0x800 && !(0xD800 <= Value3(b0, b1, b2) < 0xE000)
    ensures EncodeChar(Value3(b0, b1, b2) as char) == [b0, b1, b2]
  {
    var hi, mid, lo := b0 as int - 0xE0, b1 as int - 0x80, b2 as int - 0x80;
    var n := Value3(b0, b1, b2);
    assert n == (hi * 0x40 + mid) * 0x40 + lo;
    DivMod64(hi * 0x40 + mid, lo);
    DivMod64(hi, mid);
    assert n / 0x1000 == n / 0x40 / 0x40;
  }

  lemma EncodeValue4(b0: byte, b1: byte, b2: byte, b3: byte)
    requires 0xF0 <= b0 < 0xF8 && IsContinuation(b1) && IsContinuation(b2) && IsContinuation(b3)
    requires 0x10000 <= Value4(b0, b1, b2, b3) < 0x110000
    ensures EncodeChar(Value4(b0, b1, b2, b3) as char) == [b0, b1, b2, b3]
  {
    var top, hi, mid, lo := b0 as int - 0xF0, b1 as int - 0x80, b2 as int - 0x80, b3 as int - 0x80;
    var n := Value4(b0, b1, b2, b3);
    assert n == ((top * 0x40 + hi) * 0x40 + mid) * 0x40 + lo;
    DivMod64((top * 0x40 + hi) * 0x40 + mid, lo);
    DivMod64(top * 0x40 + hi, mid);
    DivMod64(top, hi);
    assert n / 0x1000 == n / 0x40 / 0x40;
    assert n / 0x40000 == n / 0x40 / 0x40 / 0x40;
  }

  lemma DivMod64(q: int, r: int)
    requires 0 <= r < 0x40
    ensures (q * 0x40 + r) / 0x40 == q && (q * 0x40 + r) % 0x40 == r
  {
  }

  /** Every successfully decoded byte string is the encoding of its result:
      together with `DecodeEncode`, encoding is a bijection between strings
      and well-formed UTF-8. */
  lemma {:induction false} EncodeDecode(b: seq<byte>)
    requires Decode(b).Some?
    ensures Encode(Decode(b).value) == b
    decreases |b|
  {
    if |b| > 0 {
      var c, k, tail := DecodeStep(b);
      EncodeDecode(b[k..]);
      EncodeCons(c, tail);
      assert b == b[..k] + b[k..];
    }
  }

  /** One step of a successful decode: the first character, the bytes it
      came from, and the rest. */
  lemma DecodeStep(b: seq<byte>) returns (c: char, k: nat, tail: string)
    requires |b| > 0 && Decode(b).Some?
    ensures 1 <= k <= |b| && EncodeChar(c) == b[..k]
    ensures Decode(b[k..]) == Some(tail) && Decode(b) == Some([c] + tail)
  {
    c, k := DecodeChar(b).value.0, DecodeChar(b).value.1;
    tail := Decode(b[k..]).value;
    EncodeDecodeChar(b);
  }

  lemma EncodeCons(c: char, s: string)
    ensures Encode([c] + s) == EncodeChar(c) + Encode(s)
  {
    assert ([c] + s)[1..] == s;
  }

  /** The encoding contains a zero byte exactly when the string contains
      U+0000; a segment without NUL can therefore never forge a separator. */
  lemma {:induction false} EncodeHasZero(s: string)
    ensures 0 in Encode(s) <==> '\0' in s
  {
    if |s| > 0 {
      EncodeHasZero(s[1..]);
      assert s == [s[0]] + s[1..];
    }
  }
}
