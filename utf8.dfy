/**
 * UTF-8 as Rust's standard library reads it: `String::from_utf8_lossy`, which
 * replaces every maximal ill-formed subsequence by U+FFFD, the validity test that
 * `read_line` applies to a line, and the encoder that `String` uses.
 */
module Utf8 {

  /** A `u8`. */
  type byte = x: int | 0 <= x < 256

  /** U+FFFD REPLACEMENT CHARACTER. */
  const Replacement: char := '\U{FFFD}'

  /** What the decoder makes of the bytes at the head of its input. */
  datatype Scan = Decoded(c: char, width: nat) | Invalid(width: nat)

  predicate IsContinuation(b: byte) {
    0x80 <= b <= 0xBF
  }

  /**
   * The range allowed for the byte after a 3- or 4-byte lead byte: it excludes
   * overlong forms (after E0, F0), surrogates (after ED) and code points above
   * U+10FFFF (after F4).
   */
  predicate SecondOk(b0: byte, b1: byte) {
    if b0 == 0xE0 then 0xA0 <= b1 <= 0xBF
    else if b0 == 0xED then 0x80 <= b1 <= 0x9F
    else if b0 == 0xF0 then 0x90 <= b1 <= 0xBF
    else if b0 == 0xF4 then 0x80 <= b1 <= 0x8F
    else IsContinuation(b1)
  }

  /**
   * Decodes one scalar value at the head of `s`, or reports the length of the
   * maximal prefix of a well-formed sequence that is found there instead.
   */
  function ScanChar(s: seq<byte>): (r: Scan)
    requires |s| > 0
    ensures 1 <= r.width <= 4 && r.width <= |s|
    ensures s[0] < 0x80 <==> r == Decoded(s[0] as char, 1)
  {
    var b0: int := s[0];
    if b0 < 0x80 then
      Decoded(b0 as char, 1)
    else if 0xC2 <= b0 <= 0xDF then
      if 1 < |s| && IsContinuation(s[1])
      then Decoded(((b0 - 0xC0) * 64 + (s[1] as int - 0x80)) as char, 2)
      else Invalid(1)
    else if 0xE0 <= b0 <= 0xEF then
      if !(1 < |s| && SecondOk(b0, s[1])) then Invalid(1)
      else if !(2 < |s| && IsContinuation(s[2])) then Invalid(2)
      else Decoded(((b0 - 0xE0) * 4096 + (s[1] as int - 0x80) * 64 + (s[2] as int - 0x80)) as char, 3)
    else if 0xF0 <= b0 <= 0xF4 then
      if !(1 < |s| && SecondOk(b0, s[1])) then Invalid(1)
      else if !(2 < |s| && IsContinuation(s[2])) then Invalid(2)
      else if !(3 < |s| && IsContinuation(s[3])) then Invalid(3)
      else Decoded(((b0 - 0xF0) * 262144 + (s[1] as int - 0x80) * 4096 + (s[2] as int - 0x80) * 64 + (s[3] as int - 0x80)) as char, 4)
    else
      Invalid(1)
  }

  /** `String::from_utf8_lossy`. */
  function DecodeLossy(s: seq<byte>): (r: string)
    ensures |r| <= |s|
    decreases |s|
  {
    if s == [] then []
    else
      var sc := ScanChar(s);
      (if sc.Decoded? then [sc.c] else [Replacement]) + DecodeLossy(s[sc.width..])
  }

  /** Well-formed UTF-8: `str::from_utf8` succeeds. */
  predicate IsValid(s: seq<byte>)
    decreases |s|
  {
    s == [] || (ScanChar(s).Decoded? && IsValid(s[ScanChar(s).width..]))
  }

  /** The UTF-8 encoding of one scalar value. */
  function EncodeChar(c: char): (bs: seq<byte>)
    ensures 1 <= |bs| <= 4
  {
    var v := c as int;
    if v < 0x80 then [v]
    else if v < 0x800 then [0xC0 + v / 64, 0x80 + v % 64]
    else if v < 0x10000 then [0xE0 + v / 4096, 0x80 + (v / 64) % 64, 0x80 + v % 64]
    else [0xF0 + v / 262144, 0x80 + (v / 4096) % 64, 0x80 + (v / 64) % 64, 0x80 + v % 64]
  }

  /** The UTF-8 encoding of a string. */
  function Encode(s: string): seq<byte> {
    if s == [] then [] else EncodeChar(s[0]) + Encode(s[1..])
  }

  /** Bytes below 0x80 only. */
  predicate IsAscii(s: seq<byte>) {
    forall i :: 0 <= i < |s| ==> s[i] < 0x80
  }

  /** Base-64 digits of a value below 2^24: `v` is rebuilt from its top digit and two 6-bit digits. */
  lemma Digits(v: int)
    requires 0 <= v
    ensures (v / 64) * 64 + v % 64 == v
    ensures (v / 4096) * 64 + (v / 64) % 64 == v / 64
    ensures (v / 262144) * 64 + (v / 4096) % 64 == v / 4096
  {
  }

  lemma ScanTwo(v: int, rest: seq<byte>)
    requires 0x80 <= v < 0x800
    ensures ScanChar([0xC0 + v / 64, 0x80 + v % 64] + rest) == Decoded(v as char, 2)
  {
    Digits(v);
  }

  lemma ScanThree(v: int, rest: seq<byte>)
    requires 0x800 <= v < 0x10000 && !(0xD800 <= v < 0xE000)
    ensures ScanChar([0xE0 + v / 4096, 0x80 + (v / 64) % 64, 0x80 + v % 64] + rest) == Decoded(v as char, 3)
  {
    Digits(v);
    var hi, mid, lo := v / 4096, (v / 64) % 64, v % 64;
    assert hi * 4096 + mid * 64 + lo == v;
  }

  lemma ScanFour(v: int, rest: seq<byte>)
    requires 0x10000 <= v < 0x110000
    ensures ScanChar([0xF0 + v / 262144, 0x80 + (v / 4096) % 64, 0x80 + (v / 64) % 64, 0x80 + v % 64] + rest)
      == Decoded(v as char, 4)
  {
    Digits(v);
    var top, hi, mid, lo := v / 262144, (v / 4096) % 64, (v / 64) % 64, v % 64;
    assert top * 262144 + hi * 4096 + mid * 64 + lo == v;
  }

  /** Decoding reads back the encoding of one scalar value, whatever follows it. */
  lemma ScanEncodedChar(c: char, rest: seq<byte>)
    ensures ScanChar(EncodeChar(c) + rest) == Decoded(c, |EncodeChar(c)|)
  {
    var v := c as int;
    if v < 0x80 {
    } else if v < 0x800 {
      ScanTwo(v, rest);
    } else if v < 0x10000 {
      ScanThree(v, rest);
    } else {
      ScanFour(v, rest);
    }
  }

  /** Round trip: the lossy decoder gives back every encoded string, which is well-formed. */
  lemma {:induction false} DecodeEncode(s: string)
    ensures DecodeLossy(Encode(s)) == s
    ensures IsValid(Encode(s))
  {
    if s != [] {
      ScanEncodedChar(s[0], Encode(s[1..]));
      var e := Encode(s);
      assert e[|EncodeChar(s[0])|..] == Encode(s[1..]);
      DecodeEncode(s[1..]);
    }
  }

  /** `q * 64 + r` splits back into `q` and `r` for a 6-bit `r`. */
  lemma SixBits(q: int, r: int)
    requires 0 <= q && 0 <= r < 64
    ensures (q * 64 + r) / 64 == q && (q * 64 + r) % 64 == r
  {
  }

  lemma EncodeTwo(b0: int, b1: int)
    requires 0xC2 <= b0 <= 0xDF && 0x80 <= b1 <= 0xBF
    ensures var v := (b0 - 0xC0) * 64 + (b1 - 0x80);
      0x80 <= v < 0x800 && EncodeChar(v as char) == [b0, b1]
  {
    SixBits(b0 - 0xC0, b1 - 0x80);
  }

  lemma EncodeThree(b0: int, b1: int, b2: int)
    requires 0xE0 <= b0 <= 0xEF && 0 <= b1 < 256 && SecondOk(b0, b1) && 0x80 <= b2 <= 0xBF
    ensures var v := (b0 - 0xE0) * 4096 + (b1 - 0x80) * 64 + (b2 - 0x80);
      0x800 <= v < 0x10000 && (v < 0xD800 || 0xE000 <= v) && EncodeChar(v as char) == [b0, b1, b2]
  {
    var hi := (b0 - 0xE0) * 64 + (b1 - 0x80);
    SixBits(hi, b2 - 0x80);
    SixBits(b0 - 0xE0, b1 - 0x80);
    var v := hi * 64 + (b2 - 0x80);
    assert v / 4096 == hi / 64 by {
      assert v == (b0 - 0xE0) * 4096 + ((b1 - 0x80) * 64 + (b2 - 0x80));
    }
  }

  lemma EncodeFour(b0: int, b1: int, b2: int, b3: int)
    requires 0xF0 <= b0 <= 0xF4 && 0 <= b1 < 256 && SecondOk(b0, b1) && 0x80 <= b2 <= 0xBF && 0x80 <= b3 <= 0xBF
    ensures var v := (b0 - 0xF0) * 262144 + (b1 - 0x80) * 4096 + (b2 - 0x80) * 64 + (b3 - 0x80);
      0x10000 <= v < 0x110000 && EncodeChar(v as char) == [b0, b1, b2, b3]
  {
    var top := (b0 - 0xF0) * 64 + (b1 - 0x80);
    var mid := top * 64 + (b2 - 0x80);
    var v := mid * 64 + (b3 - 0x80);
    SixBits(mid, b3 - 0x80);
    SixBits(top, b2 - 0x80);
    SixBits(b0 - 0xF0, b1 - 0x80);
    assert v / 4096 == top by {
      assert v == top * 4096 + ((b2 - 0x80) * 64 + (b3 - 0x80));
    }
    assert v / 262144 == b0 - 0xF0 by {
      assert v == (b0 - 0xF0) * 262144 + ((b1 - 0x80) * 4096 + (b2 - 0x80) * 64 + (b3 - 0x80));
    }
  }

  /** A decoded scalar value re-encodes to exactly the bytes it was read from. */
  lemma EncodeScanned(s: seq<byte>)
    requires |s| > 0 && ScanChar(s).Decoded?
    ensures EncodeChar(ScanChar(s).c) == s[..ScanChar(s).width]
  {
    var b0: int := s[0];
    if b0 < 0x80 {
    } else if b0 <= 0xDF {
      EncodeTwo(b0, s[1]);
    } else if b0 <= 0xEF {
      EncodeThree(b0, s[1], s[2]);
    } else {
      EncodeFour(b0, s[1], s[2], s[3]);
    }
  }

  lemma EncodeCons(c: char, rest: string)
    ensures Encode([c] + rest) == EncodeChar(c) + Encode(rest)
  {
    assert ([c] + rest)[1..] == rest;
  }

  lemma SplitAt<T>(s: seq<T>, i: nat)
    requires i <= |s|
    ensures s[..i] + s[i..] == s
  {
  }

  /** Well-formed bytes start with a scalar value, followed by well-formed bytes. */
  lemma DecodeValidStep(s: seq<byte>)
    requires s != [] && IsValid(s)
    ensures ScanChar(s).Decoded? && IsValid(s[ScanChar(s).width..])
    ensures DecodeLossy(s) == [ScanChar(s).c] + DecodeLossy(s[ScanChar(s).width..])
  {
  }

  /** Round trip the other way: well-formed bytes are exactly the encoding of their decoding. */
  lemma {:induction false} EncodeDecodeValid(s: seq<byte>)
    requires IsValid(s)
    ensures Encode(DecodeLossy(s)) == s
  {
    if s != [] {
      var sc := ScanChar(s);
      DecodeValidStep(s);
      EncodeDecodeValid(s[sc.width..]);
      EncodeScanned(s);
      EncodeCons(sc.c, DecodeLossy(s[sc.width..]));
      SplitAt(s, sc.width);
    }
  }

  /** Encoding distributes over concatenation. */
  lemma {:induction false} EncodeAppend(a: string, b: string)
    ensures Encode(a + b) == Encode(a) + Encode(b)
  {
    if a == [] {
      assert a + b == b;
    } else {
      assert (a + b)[1..] == a[1..] + b;
      EncodeAppend(a[1..], b);
      assert (a + b)[0] == a[0];
    }
  }

  /** ASCII bytes decode one character per byte, each to the character with that code. */
  lemma {:induction false} DecodeAscii(s: seq<byte>)
    requires IsAscii(s)
    ensures |DecodeLossy(s)| == |s|
    ensures forall i :: 0 <= i < |s| ==> DecodeLossy(s)[i] == s[i] as char
  {
    if s != [] {
      DecodeAscii(s[1..]);
    }
  }
}
