/**
 * The parts of JavaScript's string and number semantics that the two browser
 * clients rely on: `String.prototype.trim`, `Number(...)`/`isNaN` on strings,
 * `parseInt`, `startsWith`, `includes` and decimal formatting of integers.
 *
 * Numbers are modelled exactly (as rationals); the rounding of IEEE doubles is
 * not modelled.
 */
module JsText {
  import opened Wrappers

  /** The WhiteSpace and LineTerminator code points that `trim`, `Number` and `parseInt` skip. */
  predicate IsSpace(c: char) {
    || c == '\t' || c == '\n' || c == '\U{000B}' || c == '\U{000C}' || c == '\r' || c == ' '
    || c == '\U{00A0}' || c == '\U{1680}' || ('\U{2000}' <= c <= '\U{200A}')
    || c == '\U{2028}' || c == '\U{2029}' || c == '\U{202F}' || c == '\U{205F}'
    || c == '\U{3000}' || c == '\U{FEFF}'
  }

  /** `s.trimStart()`: what is left after dropping leading white space. */
  function TrimStart(s: string): string {
    if s != [] && IsSpace(s[0]) then TrimStart(s[1..]) else s
  }

  /** `s.trimEnd()`: what is left after dropping trailing white space. */
  function TrimEnd(s: string): string {
    if s != [] && IsSpace(s[|s| - 1]) then TrimEnd(s[..|s| - 1]) else s
  }

  /** `s.trim()`. */
  function Trim(s: string): string {
    TrimEnd(TrimStart(s))
  }

  /** `trimStart` drops exactly the leading white space: the rest is a suffix that starts with a non-space. */
  lemma {:induction false} TrimStartShape(s: string)
    ensures var r := TrimStart(s);
      |r| <= |s| && r == s[|s| - |r|..]
      && (r == [] || !IsSpace(r[0]))
      && forall i :: 0 <= i < |s| - |r| ==> IsSpace(s[i])
  {
    if s != [] && IsSpace(s[0]) {
      var t := s[1..];
      TrimStartShape(t);
      var r := TrimStart(t);
      assert s[|s| - |r|..] == t[|t| - |r|..];
      forall i | 0 < i < |s| - |r| ensures IsSpace(s[i]) {
        assert s[i] == t[i - 1];
      }
    }
  }

  /** `trimEnd` drops exactly the trailing white space: the rest is a prefix that ends with a non-space. */
  lemma {:induction false} TrimEndShape(s: string)
    ensures var r := TrimEnd(s);
      |r| <= |s| && r == s[..|r|]
      && (r == [] || !IsSpace(r[|r| - 1]))
      && forall i :: |r| <= i < |s| ==> IsSpace(s[i])
  {
    if s != [] && IsSpace(s[|s| - 1]) {
      var t := s[..|s| - 1];
      TrimEndShape(t);
      var r := TrimEnd(t);
      assert s[..|r|] == t[..|r|];
      forall i | |r| <= i < |s| - 1 ensures IsSpace(s[i]) {
        assert s[i] == t[i];
      }
    }
  }

  /** A trimmed string neither starts nor ends with white space, and is empty exactly when the whole string was white space. */
  lemma TrimShape(s: string)
    ensures var r := Trim(s);
      (r == [] || (!IsSpace(r[0]) && !IsSpace(r[|r| - 1])))
      && ((forall i :: 0 <= i < |s| ==> IsSpace(s[i])) <==> r == [])
  {
    var t := TrimStart(s);
    TrimStartShape(s);
    TrimEndShape(t);
    var r := TrimEnd(t);
    if r != [] {
      assert r[0] == t[0];
    }
  }

  /** Trimming twice trims nothing more. */
  lemma TrimIdempotent(s: string)
    ensures Trim(Trim(s)) == Trim(s)
  {
    var r := Trim(s);
    TrimShape(s);
    assert TrimStart(r) == r;
    assert TrimEnd(r) == r;
  }

  function StartsWith(s: string, prefix: string): bool {
    |prefix| <= |s| && s[..|prefix|] == prefix
  }

  predicate OccursAt(s: string, sub: string, i: nat) {
    i + |sub| <= |s| && s[i..i + |sub|] == sub
  }

  /** `s.includes(sub)`. */
  predicate Includes(s: string, sub: string) {
    exists i: nat :: i <= |s| && OccursAt(s, sub, i)
  }

  /** `toLowerCase` on the ASCII letters; other characters are kept as they are. */
  function LowerChar(c: char): char {
    if 'A' <= c <= 'Z' then (c as int - 'A' as int + 'a' as int) as char else c
  }

  function Lower(s: string): (r: string)
    ensures |r| == |s| && forall i :: 0 <= i < |s| ==> r[i] == LowerChar(s[i])
  {
    seq(|s|, i requires 0 <= i < |s| => LowerChar(s[i]))
  }

  /** `s.replaceAll(a, b)` for single characters. */
  function ReplaceChar(s: string, a: char, b: char): string {
    seq(|s|, i requires 0 <= i < |s| => if s[i] == a then b else s[i])
  }

  lemma ReplaceCharConcat(s: string, t: string, a: char, b: char)
    ensures ReplaceChar(s + t, a, b) == ReplaceChar(s, a, b) + ReplaceChar(t, a, b)
  {
  }

  lemma ReplaceCharAbsent(s: string, a: char, b: char)
    requires a !in s
    ensures ReplaceChar(s, a, b) == s
  {
  }

  // ---------------------------------------------------------------- digits

  predicate IsDigit(c: char) { '0' <= c <= '9' }

  predicate AllDigits(s: string) { forall i :: 0 <= i < |s| ==> IsDigit(s[i]) }

  /** The value of `c` as a digit of the given radix (2, 8, 10 or 16), if it is one. */
  function DigitIn(c: char, radix: nat): Option<nat> {
    var v :=
      if '0' <= c <= '9' then c as int - '0' as int
      else if 'a' <= c <= 'f' then c as int - 'a' as int + 10
      else if 'A' <= c <= 'F' then c as int - 'A' as int + 10
      else 99;
    if v < radix then Some(v) else None
  }

  predicate AllDigitsIn(s: string, radix: nat) {
    forall i :: 0 <= i < |s| ==> DigitIn(s[i], radix).Some?
  }

  /** The value of a numeral in the given radix, most significant digit first. */
  function RadixValue(s: string, radix: nat): nat
    requires AllDigitsIn(s, radix)
  {
    if s == [] then 0
    else RadixValue(s[..|s| - 1], radix) * radix + DigitIn(s[|s| - 1], radix).value
  }

  /** The longest prefix of `s` made of digits of the radix. */
  function DigitPrefix(s: string, radix: nat): (p: string)
    ensures |p| <= |s| && p == s[..|p|] && AllDigitsIn(p, radix)
    ensures |p| == |s| || DigitIn(s[|p|], radix).None?
  {
    if s != [] && DigitIn(s[0], radix).Some? then [s[0]] + DigitPrefix(s[1..], radix) else []
  }

  function DigitChar(d: nat): char
    requires d < 10
  {
    ('0' as int + d) as char
  }

  /** Decimal notation of a natural number, as `String(n)` writes it. */
  function NatToString(n: nat): (s: string)
    ensures s != [] && AllDigits(s)
    ensures s[0] == '0' ==> n == 0
  {
    if n < 10 then [DigitChar(n)] else NatToString(n / 10) + [DigitChar(n % 10)]
  }

  function IntToString(i: int): string {
    if i < 0 then "-" + NatToString(-i) else NatToString(i)
  }

  lemma AllDigitsInDecimal(s: string)
    requires AllDigits(s)
    ensures AllDigitsIn(s, 10)
  {
  }

  /** Reading back the decimal notation gives the number. */
  lemma {:induction false} NatToStringValue(n: nat)
    ensures AllDigitsIn(NatToString(n), 10) && RadixValue(NatToString(n), 10) == n
  {
    var s := NatToString(n);
    AllDigitsInDecimal(s);
    if n >= 10 {
      NatToStringValue(n / 10);
      assert s[..|s| - 1] == NatToString(n / 10);
    }
  }

  /** A whole string of digits is its own longest digit prefix. */
  lemma {:induction false} DigitPrefixWhole(s: string, radix: nat)
    requires AllDigitsIn(s, radix)
    ensures DigitPrefix(s, radix) == s
  {
    if s != [] {
      DigitPrefixWhole(s[1..], radix);
    }
  }

  /** `("0" + n).slice(-2)`: the last two characters of `n` written after a `0`. */
  function Pad2(n: nat): (r: string)
    ensures n < 10 ==> r == ['0', DigitChar(n)]
    ensures 10 <= n < 100 ==> r == NatToString(n)
  {
    var t := "0" + NatToString(n);
    assert n >= 10 ==> |NatToString(n)| >= 2;
    t[|t| - 2..]
  }

  /** The two characters of `Pad2(n)` are the tens and the units digit of `n`. */
  lemma Pad2Chars(n: nat)
    requires n < 100
    ensures var p := Pad2(n);
      |p| == 2 && IsDigit(p[0]) && IsDigit(p[1])
      && (p[0] as int - '0' as int) * 10 + (p[1] as int - '0' as int) == n
  {
    if n >= 10 {
      assert NatToString(n / 10) == [DigitChar(n / 10)];
    }
  }

  /** A number below 100 reads back from its two-character form. */
  lemma Pad2Value(n: nat)
    requires n < 100
    ensures AllDigits(Pad2(n)) && AllDigitsIn(Pad2(n), 10) && RadixValue(Pad2(n), 10) == n
  {
    var p := Pad2(n);
    if n < 10 {
      assert p[..1] == ['0'] && p[..1][..0] == [];
      assert RadixValue(p[..1], 10) == 0;
      assert DigitIn(p[1], 10) == Some(n);
    } else {
      NatToStringValue(n);
    }
  }

  // ---------------------------------------------------------------- parseInt

  /** Strips one leading `+` or `-`; the flag says whether it was `-`. */
  function SplitSign(t: string): (r: (bool, string))
    ensures r.1 == t || (t != [] && (t[0] == '+' || t[0] == '-') && r.1 == t[1..])
    ensures r.0 <==> t != [] && t[0] == '-'
  {
    if t != [] && (t[0] == '+' || t[0] == '-') then (t[0] == '-', t[1..]) else (false, t)
  }

  /** The unsigned part of `parseInt`: an optional `0x`/`0X`, then the longest run of digits. */
  function ParseIntDigits(u: string): Option<nat> {
    var hex := |u| >= 2 && u[0] == '0' && (u[1] == 'x' || u[1] == 'X');
    var radix := if hex then 16 else 10;
    var p := DigitPrefix(if hex then u[2..] else u, radix);
    if p == [] then None else Some(RadixValue(p, radix))
  }

  /**
   * `parseInt(s)` with no radix: leading white space and one sign are skipped, a
   * `0x`/`0X` prefix selects radix 16, and the longest run of digits is read;
   * `None` is `NaN`.
   */
  function ParseInt(s: string): (r: Option<int>)
    ensures r.Some? && r.value < 0 ==> TrimStart(s) != [] && TrimStart(s)[0] == '-'
    ensures TrimStart(s) == [] ==> r.None?
  {
    var sign := SplitSign(TrimStart(s));
    match ParseIntDigits(sign.1)
    case None => None
    case Some(v) => Some(if sign.0 then 0 - v else v)
  }

  /** A non-empty run of decimal digits has no white space to trim. */
  lemma DigitsUntrimmed(s: string)
    requires s != [] && AllDigits(s)
    ensures TrimStart(s) == s && Trim(s) == s
  {
    assert IsDigit(s[0]) && IsDigit(s[|s| - 1]);
  }

  /** A non-empty run of decimal digits has no sign and no `0x` prefix. */
  lemma DigitsUnsigned(s: string)
    requires s != [] && AllDigits(s)
    ensures SplitSign(s) == (false, s)
    ensures !(|s| >= 2 && s[0] == '0' && s[1] in "xXoObB")
  {
    assert IsDigit(s[0]);
    if |s| >= 2 { assert IsDigit(s[1]); }
  }

  /** `parseInt(String(n))` is `n` for every natural number. */
  lemma ParseIntOfDecimal(n: nat)
    ensures ParseInt(NatToString(n)) == Some(n)
  {
    var s := NatToString(n);
    NatToStringValue(n);
    DigitsUntrimmed(s);
    DigitsUnsigned(s);
    DigitPrefixWhole(s, 10);
    assert ParseIntDigits(s) == Some(n);
  }

  // ---------------------------------------------------------------- Number()

  /** A JavaScript number value: NaN, a signed infinity, or a finite value (held exactly). */
  datatype Num = NaN | Infinity(negative: bool) | Finite(value: real)

  function Pow10(n: nat): (r: nat)
    ensures r >= 1
  {
    if n == 0 then 1 else 10 * Pow10(n - 1)
  }

  function Scale(m: real, e: int): real {
    if e >= 0 then m * (Pow10(e) as real) else m / (Pow10(-e) as real)
  }

  function IndexOf(s: string, c: char): (r: Option<nat>)
    ensures r.Some? ==> r.value < |s| && s[r.value] == c && forall j :: 0 <= j < r.value ==> s[j] != c
    ensures r.None? ==> forall j :: 0 <= j < |s| ==> s[j] != c
  {
    if s == [] then None
    else if s[0] == c then Some(0)
    else match IndexOf(s[1..], c)
      case None => None
      case Some(k) => Some(k + 1)
  }

  /** The first index of an exponent marker `e` or `E`. */
  function ExponentIndex(s: string): (r: Option<nat>)
    ensures r.Some? ==> r.value < |s| && (s[r.value] == 'e' || s[r.value] == 'E')
    ensures r.Some? ==> forall j :: 0 <= j < r.value ==> s[j] != 'e' && s[j] != 'E'
    ensures r.None? ==> forall j :: 0 <= j < |s| ==> s[j] != 'e' && s[j] != 'E'
  {
    if s == [] then None
    else if s[0] == 'e' || s[0] == 'E' then Some(0)
    else match ExponentIndex(s[1..])
      case None => None
      case Some(k) => Some(k + 1)
  }

  /** An optionally signed, non-empty run of decimal digits (the exponent of a literal). */
  function SignedDigits(s: string): Option<int> {
    var sign := SplitSign(s);
    if sign.1 != [] && AllDigits(sign.1) then
      AllDigitsInDecimal(sign.1);
      var v := RadixValue(sign.1, 10);
      Some(if sign.0 then 0 - v else v)
    else None
  }

  /** The value of `digits [. digits]` or `. digits`, the mantissa of a decimal literal. */
  function Mantissa(m: string): Option<real> {
    var dot := IndexOf(m, '.');
    var whole := if dot.Some? then m[..dot.value] else m;
    var fraction := if dot.Some? then m[dot.value + 1..] else [];
    if AllDigits(whole) && AllDigits(fraction) && |whole| + |fraction| > 0 then
      AllDigitsInDecimal(whole + fraction);
      Some(RadixValue(whole + fraction, 10) as real / Pow10(|fraction|) as real)
    else None
  }

  /**
   * The value of an unsigned decimal literal, a mantissa optionally followed by
   * `e` or `E` and a signed exponent; `None` if `u` is not one.
   */
  function UnsignedDecimal(u: string): Option<real> {
    var e := ExponentIndex(u);
    var mantissa := Mantissa(if e.Some? then u[..e.value] else u);
    var exponent := if e.Some? then SignedDigits(u[e.value + 1..]) else Some(0);
    if mantissa.Some? && exponent.Some? then Some(Scale(mantissa.value, exponent.value)) else None
  }

  /** A `0x`, `0o` or `0b` literal (which takes no sign). */
  predicate HasRadixPrefix(t: string) {
    |t| >= 2 && t[0] == '0' && t[1] in "xXoObB"
  }

  function RadixLiteral(t: string): Num
    requires HasRadixPrefix(t)
  {
    var radix := if t[1] in "xX" then 16 else if t[1] in "oO" then 8 else 2;
    var digits := t[2..];
    if digits != [] && AllDigitsIn(digits, radix) then Finite(RadixValue(digits, radix) as real) else NaN
  }

  /** An optionally signed `Infinity` or unsigned decimal literal. */
  function DecimalLiteral(t: string): Num {
    var sign := SplitSign(t);
    if sign.1 == "Infinity" then Infinity(sign.0)
    else match UnsignedDecimal(sign.1)
      case None => NaN
      case Some(v) => Finite(if sign.0 then -v else v)
  }

  /** `Number(s)` for a string `s` (the StringNumericLiteral grammar). */
  function StringToNumber(s: string): (r: Num)
    ensures Trim(s) == [] ==> r == Finite(0.0)
  {
    var t := Trim(s);
    if t == [] then Finite(0.0)
    else if HasRadixPrefix(t) then RadixLiteral(t)
    else DecimalLiteral(t)
  }

  /** `isNaN(s)` for a string `s`. */
  predicate IsNaNString(s: string) {
    StringToNumber(s).NaN?
  }

  /** A run of decimal digits, read as a decimal literal, has the value it has as a numeral. */
  lemma {:induction false} DigitsAsDecimal(s: string)
    requires s != [] && AllDigits(s)
    ensures AllDigitsIn(s, 10) && DecimalLiteral(s) == Finite(RadixValue(s, 10) as real)
  {
    AllDigitsInDecimal(s);
    DigitsUnsigned(s);
    assert s != "Infinity" by { assert IsDigit(s[0]); }
    assert ExponentIndex(s).None? by {
      forall j | 0 <= j < |s| ensures s[j] != 'e' && s[j] != 'E' { assert IsDigit(s[j]); }
    }
    assert IndexOf(s, '.').None? by {
      forall j | 0 <= j < |s| ensures s[j] != '.' { assert IsDigit(s[j]); }
    }
    var empty: string := [];
    assert s + empty == s;
    assert AllDigits(empty);
    assert Pow10(|empty|) == 1;
    assert Mantissa(s) == Some(RadixValue(s, 10) as real);
    assert UnsignedDecimal(s) == Some(RadixValue(s, 10) as real);
  }

  /** The number that `String(n)` denotes reads back as `n`. */
  lemma DecimalReadsBack(n: nat)
    ensures StringToNumber(NatToString(n)) == Finite(n as real)
  {
    var s := NatToString(n);
    NatToStringValue(n);
    DigitsUntrimmed(s);
    DigitsUnsigned(s);
    DigitsAsDecimal(s);
  }

  /** `digits.digits` is a finite number: the digits read together, scaled down by the length of the fraction. */
  lemma DigitsDotDigits(w: string, f: string)
    requires w != [] && f != [] && AllDigits(w) && AllDigits(f)
    ensures var s := w + "." + f;
      Trim(s) == s && AllDigitsIn(w + f, 10)
      && StringToNumber(s) == Finite(RadixValue(w + f, 10) as real / Pow10(|f|) as real)
  {
    var s := w + "." + f;
    DotNumeralShape(w, f);
    AllDigitsInDecimal(w + f);
    var v := RadixValue(w + f, 10) as real / Pow10(|f|) as real;
    assert Mantissa(s) == Some(v);
    assert Pow10(0) == 1 && Scale(v, 0) == v;
    assert UnsignedDecimal(s) == Some(v);
    assert DecimalLiteral(s) == Finite(v);
  }

  lemma DotNumeralShape(w: string, f: string)
    requires w != [] && f != [] && AllDigits(w) && AllDigits(f)
    ensures var s := w + "." + f;
      Trim(s) == s && SplitSign(s) == (false, s) && !HasRadixPrefix(s) && s != "Infinity"
      && ExponentIndex(s).None? && IndexOf(s, '.') == Some(|w|) && s[..|w|] == w && s[|w| + 1..] == f
  {
    var s := w + "." + f;
    assert Trim(s) == s by {
      assert s[0] == w[0] && IsDigit(s[0]) && s[|s| - 1] == f[|f| - 1] && IsDigit(s[|s| - 1]);
    }
    assert SplitSign(s) == (false, s) && s != "Infinity" by {
      assert s[0] == w[0] && IsDigit(s[0]);
    }
    assert !HasRadixPrefix(s) by {
      if |w| >= 2 { assert s[1] == w[1]; } else { assert s[1] == '.'; }
    }
    assert ExponentIndex(s).None? by {
      forall j | 0 <= j < |s| ensures s[j] != 'e' && s[j] != 'E' {
        if j < |w| { assert s[j] == w[j]; } else if j > |w| { assert s[j] == f[j - |w| - 1]; }
      }
    }
    assert IndexOf(s, '.') == Some(|w|) by {
      assert s[|w|] == '.';
      forall j | 0 <= j < |w| ensures s[j] != '.' {
        assert s[j] == w[j];
      }
    }
    assert s[..|w|] == w && s[|w| + 1..] == f;
  }

  // ---------------------------------------------------------------- split

  /**
   * `s.split(sep)` for a one-character separator, which JavaScript's `split`
   * and Python's `str.split` compute alike: the pieces between separators,
   * empty ones included.
   */
  function Split(s: string, sep: char): (r: seq<string>)
    ensures |r| >= 1
    ensures forall i :: 0 <= i < |r| ==> sep !in r[i]
  {
    match IndexOf(s, sep)
    case None => [s]
    case Some(i) => [s[..i]] + Split(s[i + 1..], sep)
  }

  lemma SplitNone(s: string, sep: char)
    requires sep !in s
    ensures Split(s, sep) == [s]
  {
    assert IndexOf(s, sep).None?;
  }

  lemma SplitFirst(a: string, sep: char, b: string)
    requires sep !in a
    ensures Split(a + [sep] + b, sep) == [a] + Split(b, sep)
  {
    var s := a + [sep] + b;
    assert IndexOf(s, sep) == Some(|a|) by {
      forall j | 0 <= j < |a| ensures s[j] != sep { assert s[j] == a[j]; }
      assert s[|a|] == sep;
    }
    assert s[..|a|] == a && s[|a| + 1..] == b;
  }

  lemma DigitsHaveNo(s: string, c: char)
    requires AllDigits(s) && !IsDigit(c)
    ensures c !in s
  {
  }
}
