/**
 * The strings `str::parse::<f64>` accepts. Rust's grammar, read case-insensitively:
 *   Float    ::= Sign? ( 'inf' | 'infinity' | 'nan' | Number )
 *   Number   ::= ( Digit+ | Digit+ '.' Digit* | Digit* '.' Digit+ ) Exp?
 *   Exp      ::= 'e' Sign? Digit+
 * No surrounding whitespace is allowed. The value of an accepted literal (the
 * nearest double) is left to a caller-supplied conversion.
 */
module FloatSyntax {
  import opened Wrappers
  import Text

  predicate IsDigit(c: char) {
    '0' <= c <= '9'
  }

  predicate AllDigits(s: string) {
    forall i :: 0 <= i < |s| ==> IsDigit(s[i])
  }

  predicate IsSign(c: char) {
    c == '+' || c == '-'
  }

  /** The text without its leading sign, if it has one. */
  function Unsigned(s: string): string {
    if |s| > 0 && IsSign(s[0]) then s[1..] else s
  }

  function LowerAscii(c: char): char {
    if 'A' <= c <= 'Z' then (c as int + 32) as char else c
  }

  function LowerAsciiString(s: string): (r: string)
    ensures |r| == |s| && forall i :: 0 <= i < |s| ==> r[i] == LowerAscii(s[i])
    ensures forall i :: 0 <= i < |r| ==> !('A' <= r[i] <= 'Z')
    ensures forall i :: 0 <= i < |s| && !('A' <= s[i] <= 'Z') ==> r[i] == s[i]
  {
    seq(|s|, i requires 0 <= i < |s| => LowerAscii(s[i]))
  }

  predicate IsSpecial(t: string) {
    var l := LowerAsciiString(t);
    l == "inf" || l == "infinity" || l == "nan"
  }

  /** Digits with at most one '.', and at least one digit. */
  predicate IsMantissa(m: string) {
    && Text.Count(m, '.') <= 1
    && (forall i :: 0 <= i < |m| ==> IsDigit(m[i]) || m[i] == '.')
    && (exists i :: 0 <= i < |m| && IsDigit(m[i]))
  }

  predicate IsExponent(x: string) {
    var y := Unsigned(x);
    |y| > 0 && AllDigits(y)
  }

  /** Index of the first 'e' or 'E', or the length when there is none. */
  function ExponentMark(t: string): (k: nat)
    ensures k <= |t|
    ensures forall i :: 0 <= i < k ==> t[i] != 'e' && t[i] != 'E'
    ensures k < |t| ==> t[k] == 'e' || t[k] == 'E'
  {
    if t == [] || t[0] == 'e' || t[0] == 'E' then 0 else 1 + ExponentMark(t[1..])
  }

  predicate IsNumber(t: string) {
    var k := ExponentMark(t);
    IsMantissa(t[..k]) && (k == |t| || IsExponent(t[k + 1..]))
  }

  /** `s.parse::<f64>()` succeeds. */
  predicate IsRustFloat(s: string) {
    var t := Unsigned(s);
    IsSpecial(t) || IsNumber(t)
  }

  /**
   * `s.parse::<f64>().ok()`, with `toF64` giving the value of an accepted literal.
   * No text holding a NUL parses.
   */
  function ParseF64(s: string, toF64: string -> real): (r: Option<real>)
    ensures r.Some? <==> IsRustFloat(s)
    ensures r.Some? ==> r.value == toF64(s)
    ensures r.Some? ==> '\0' !in s
  {
    if IsRustFloat(s) then
      RustFloatHasNoNul(s);
      Some(toF64(s))
    else None
  }

  lemma SpecialHasNoNul(t: string)
    requires IsSpecial(t)
    ensures '\0' !in t
  {
    var l := LowerAsciiString(t);
    forall i | 0 <= i < |t|
      ensures t[i] != '\0'
    {
      assert l[i] == LowerAscii(t[i]) && l[i] != '\0';
    }
  }

  lemma NumberHasNoNul(t: string)
    requires IsNumber(t)
    ensures '\0' !in t
  {
    var k := ExponentMark(t);
    forall i | 0 <= i < |t|
      ensures t[i] != '\0'
    {
      if i < k {
        assert t[..k][i] == t[i];
      } else if i > k {
        var x := t[k + 1..];
        var y := Unsigned(x);
        assert x[i - k - 1] == t[i];
        if |x| > 0 && IsSign(x[0]) && i - k - 1 > 0 {
          assert y[i - k - 2] == t[i];
        }
      }
    }
  }

  /** No accepted literal contains a NUL character. */
  lemma RustFloatHasNoNul(s: string)
    requires IsRustFloat(s)
    ensures '\0' !in s
  {
    var t := Unsigned(s);
    if IsSpecial(t) {
      SpecialHasNoNul(t);
    } else {
      NumberHasNoNul(t);
    }
    assert s == t || s == [s[0]] + t;
  }

  /** Digits, a '.', and digits (such as `42.5`) are an `f64` literal. */
  lemma DecimalIsFloat(a: string, b: string)
    requires a != [] && AllDigits(a) && AllDigits(b)
    ensures IsRustFloat(a + ['.'] + b)
  {
    var s := a + ['.'] + b;
    assert Unsigned(s) == s;
    forall i | 0 <= i < |s|
      ensures s[i] != 'e' && s[i] != 'E' && (IsDigit(s[i]) || s[i] == '.')
    {
      if i < |a| {
        assert s[i] == a[i];
      } else if i > |a| {
        assert s[i] == b[i - |a| - 1];
      }
    }
    assert ExponentMark(s) == |s|;
    assert s[..|s|] == s;
    Text.CountAppend(a, ['.'] + b, '.');
    Text.CountAppend(['.'], b, '.');
    assert a + (['.'] + b) == s;
    assert IsDigit(s[0]);
  }
}
