/** The JavaScript string built-ins the applications depend on: the `\s` character class and
    `trim`, `split` on one character, `length` counted in UTF-16 code units, and `parseInt`. */
module JsText {
  import opened Wrappers

  /** The characters of `\s` in a regular expression, which are also the ones `trim` removes
      (ECMAScript's WhiteSpace and LineTerminator characters). */
  predicate IsWhitespace(c: char) {
    || c == '\t' || c == '\n' || c == '\U{000B}' || c == '\U{000C}' || c == '\r' || c == ' '
    || c == '\U{00A0}' || c == '\U{1680}' || ('\U{2000}' <= c <= '\U{200A}')
    || c == '\U{2028}' || c == '\U{2029}' || c == '\U{202F}' || c == '\U{205F}'
    || c == '\U{3000}' || c == '\U{FEFF}'
  }

  predicate AllWhitespace(s: string) {
    forall i :: 0 <= i < |s| ==> IsWhitespace(s[i])
  }

  // ---------------------------------------------------------------------------
  // split and join

  /** `s.split(sep)` for a one-character separator: the pieces between the separators. */
  function Split(s: string, sep: char): (parts: seq<string>)
    ensures |parts| >= 1
    ensures forall i :: 0 <= i < |parts| ==> sep !in parts[i]
  {
    if s == [] then [""]
    else
      var rest := Split(s[1..], sep);
      if s[0] == sep then [""] + rest
      else [[s[0]] + rest[0]] + rest[1..]
  }

  /** `parts.join(sep)`. */
  function Join(parts: seq<string>, sep: char): string {
    if parts == [] then ""
    else if |parts| == 1 then parts[0]
    else parts[0] + [sep] + Join(parts[1..], sep)
  }

  /** Joining the pieces of a split gives the string back. */
  lemma {:induction false} JoinSplit(s: string, sep: char)
    ensures Join(Split(s, sep), sep) == s
  {
    if s != [] {
      JoinSplit(s[1..], sep);
      var rest := Split(s[1..], sep);
      if s[0] == sep {
        assert Split(s, sep) == [""] + rest;
        assert ([""] + rest)[1..] == rest;
      } else {
        var parts := [[s[0]] + rest[0]] + rest[1..];
        assert Split(s, sep) == parts;
        if |rest| > 1 {
          assert parts[1..] == rest[1..];
          assert Join(rest, sep) == rest[0] + [sep] + Join(rest[1..], sep);
        }
      }
    }
  }

  /** A string without the separator is one piece. */
  lemma {:induction false} SplitWithoutSeparator(s: string, sep: char)
    requires sep !in s
    ensures Split(s, sep) == [s]
  {
    if s != [] {
      SplitWithoutSeparator(s[1..], sep);
      assert s[0] != sep;
      assert [s[0]] + s[1..] == s;
    }
  }

  /** A separator after a separator-free prefix ends that piece. */
  lemma {:induction false} SplitAfterPiece(a: string, sep: char, b: string)
    requires sep !in a
    ensures Split(a + [sep] + b, sep) == [a] + Split(b, sep)
  {
    var x := a + [sep] + b;
    if a == [] {
      assert x[1..] == b;
    } else {
      assert x[0] == a[0];
      assert x[1..] == a[1..] + [sep] + b;
      SplitAfterPiece(a[1..], sep, b);
      assert [a[0]] + a[1..] == a;
    }
  }

  /** Splitting a join of separator-free pieces gives the pieces back. */
  lemma {:induction false} SplitJoin(parts: seq<string>, sep: char)
    requires |parts| >= 1
    requires forall i :: 0 <= i < |parts| ==> sep !in parts[i]
    ensures Split(Join(parts, sep), sep) == parts
  {
    if |parts| == 1 {
      SplitWithoutSeparator(parts[0], sep);
    } else {
      SplitJoin(parts[1..], sep);
      SplitAfterPiece(parts[0], sep, Join(parts[1..], sep));
      assert [parts[0]] + parts[1..] == parts;
    }
  }

  // ---------------------------------------------------------------------------
  // trim

  /** Removes the leading white space. */
  function TrimStart(s: string): (t: string)
    ensures |t| <= |s| && t == s[|s| - |t|..]
    ensures t == [] || !IsWhitespace(t[0])
    ensures AllWhitespace(s[..|s| - |t|])
  {
    if s != [] && IsWhitespace(s[0]) then TrimStart(s[1..]) else s
  }

  /** Removes the trailing white space. */
  function TrimEnd(s: string): (t: string)
    ensures |t| <= |s| && t == s[..|t|]
    ensures t == [] || !IsWhitespace(t[|t| - 1])
    ensures AllWhitespace(s[|t|..])
  {
    if s != [] && IsWhitespace(s[|s| - 1]) then TrimEnd(s[..|s| - 1]) else s
  }

  /** `s.trim()`. */
  function Trim(s: string): string {
    TrimEnd(TrimStart(s))
  }

  /** `s.trim()` is empty (falsy) exactly when every character of `s` is white space. */
  lemma TrimEmptyIffBlank(s: string)
    ensures Trim(s) == [] <==> AllWhitespace(s)
  {
    var t := TrimStart(s);
    if Trim(s) == [] {
      assert AllWhitespace(t[0..]);
      assert t == [];
      assert s[..|s|] == s;
    } else {
      assert t != [];
      assert s[|s| - |t|] == t[0];
    }
  }

  // ---------------------------------------------------------------------------
  // length

  /** `s.length`: a character outside the Basic Multilingual Plane takes two UTF-16 code units. */
  function Utf16Length(s: string): (n: nat)
    ensures |s| <= n <= 2 * |s|
  {
    if s == [] then 0
    else (if s[0] as int >= 0x1_0000 then 2 else 1) + Utf16Length(s[1..])
  }

  /** On text inside the Basic Multilingual Plane `length` counts characters. */
  lemma {:induction false} Utf16LengthOfBmp(s: string)
    requires forall i :: 0 <= i < |s| ==> s[i] as int < 0x1_0000
    ensures Utf16Length(s) == |s|
  {
    if s != [] {
      Utf16LengthOfBmp(s[1..]);
    }
  }

  // ---------------------------------------------------------------------------
  // parseInt

  /** The value of a digit in bases up to 36; 36 for any other character. */
  function DigitValue(c: char): (d: nat)
    ensures d <= 36
  {
    if '0' <= c <= '9' then c as int - '0' as int
    else if 'a' <= c <= 'z' then c as int - 'a' as int + 10
    else if 'A' <= c <= 'Z' then c as int - 'A' as int + 10
    else 36
  }

  predicate IsDecimalDigit(c: char) {
    '0' <= c <= '9'
  }

  /** The longest prefix of `s` made of digits of the radix. */
  function DigitPrefix(s: string, radix: nat): (ds: string)
    ensures |ds| <= |s| && ds == s[..|ds|]
    ensures forall i :: 0 <= i < |ds| ==> DigitValue(ds[i]) < radix
    ensures |ds| < |s| ==> DigitValue(s[|ds|]) >= radix
  {
    if s != [] && DigitValue(s[0]) < radix then [s[0]] + DigitPrefix(s[1..], radix) else []
  }

  /** The number that the digits spell in the radix, most significant digit first. */
  function DigitsValue(ds: string, radix: nat): nat {
    if ds == [] then 0 else DigitsValue(ds[..|ds| - 1], radix) * radix + DigitValue(ds[|ds| - 1])
  }

  /** The text after an optional leading sign. */
  function AfterSign(t: string): string {
    if t != [] && (t[0] == '-' || t[0] == '+') then t[1..] else t
  }

  /** A `0x` or `0X` prefix, which makes `parseInt` read base 16. */
  predicate HexPrefixed(u: string) {
    |u| >= 2 && u[0] == '0' && (u[1] == 'x' || u[1] == 'X')
  }

  /** The leading unsigned number of `u`, in base 16 after a `0x` prefix and base 10 otherwise. */
  function LeadingNumber(u: string): Option<nat> {
    var radix := if HexPrefixed(u) then 16 else 10;
    var ds := DigitPrefix(if HexPrefixed(u) then u[2..] else u, radix);
    if ds == [] then None else Some(DigitsValue(ds, radix))
  }

  /** `parseInt(s)` with no radix: leading white space skipped, an optional sign, a `0x` prefix
      selecting base 16, then the longest run of digits; no digits gives NaN (`None`). */
  function ParseInt(s: string): Option<int> {
    var t := TrimStart(s);
    match LeadingNumber(AfterSign(t))
    case None => None
    case Some(v) => Some(if t != [] && t[0] == '-' then -(v as int) else v as int)
  }

  /** The decimal rendering of a number, as a template literal prints it. */
  function Decimal(n: nat): (s: string)
    ensures |s| >= 1
    ensures forall i :: 0 <= i < |s| ==> IsDecimalDigit(s[i])
  {
    if n < 10 then [('0' as int + n) as char]
    else Decimal(n / 10) + [('0' as int + n % 10) as char]
  }

  /** Reading back a decimal rendering gives the number. */
  lemma {:induction false} DecimalValue(n: nat)
    ensures DigitsValue(Decimal(n), 10) == n
  {
    var s := Decimal(n);
    if n >= 10 {
      DecimalValue(n / 10);
      assert s[..|s| - 1] == Decimal(n / 10);
    }
  }

  /** On a run of decimal digits `parseInt` reads exactly those digits. */
  lemma ParseIntOfDigits(s: string)
    requires |s| >= 1 && forall i :: 0 <= i < |s| ==> IsDecimalDigit(s[i])
    ensures ParseInt(s) == Some(DigitsValue(s, 10))
  {
    assert !IsWhitespace(s[0]);
    assert TrimStart(s) == s;
    assert AfterSign(s) == s;
    assert !HexPrefixed(s) by {
      if |s| >= 2 { assert IsDecimalDigit(s[1]); }
    }
    DigitPrefixAll(s);
  }

  /** `parseInt` reads back the decimal rendering of a number. */
  lemma ParseIntOfDecimal(n: nat)
    ensures ParseInt(Decimal(n)) == Some(n as int)
  {
    ParseIntOfDigits(Decimal(n));
    DecimalValue(n);
  }

  lemma {:induction false} DigitPrefixAll(s: string)
    requires forall i :: 0 <= i < |s| ==> IsDecimalDigit(s[i])
    ensures DigitPrefix(s, 10) == s
  {
    if s != [] {
      DigitPrefixAll(s[1..]);
    }
  }

  /** `parseInt` reads a leading number and ignores what follows it ("12abc" is 12). */
  lemma ParseIntIgnoresTrailing(digits: string, tail: string)
    requires |digits| >= 1 && forall i :: 0 <= i < |digits| ==> IsDecimalDigit(digits[i])
    requires tail == [] || !IsDecimalDigit(tail[0])
    requires |digits| == 1 ==> digits[0] != '0' || tail == [] || (tail[0] != 'x' && tail[0] != 'X')
    ensures ParseInt(digits + tail) == Some(DigitsValue(digits, 10))
  {
    var s := digits + tail;
    assert s[0] == digits[0];
    LeadingDigits(digits, tail);
    ParseIntOfUnsigned(s);
  }

  /** The leading number of digits followed by a non-digit is the value of the digits. */
  lemma LeadingDigits(digits: string, tail: string)
    requires |digits| >= 1 && forall i :: 0 <= i < |digits| ==> IsDecimalDigit(digits[i])
    requires tail == [] || !IsDecimalDigit(tail[0])
    requires |digits| == 1 ==> digits[0] != '0' || tail == [] || (tail[0] != 'x' && tail[0] != 'X')
    ensures !HexPrefixed(digits + tail)
    ensures LeadingNumber(digits + tail) == Some(DigitsValue(digits, 10))
  {
    NotHexPrefixed(digits, tail);
    DecimalLeadingNumber(digits + tail);
    DigitPrefixStops(digits, tail);
  }

  lemma NotHexPrefixed(digits: string, tail: string)
    requires |digits| >= 1 && forall i :: 0 <= i < |digits| ==> IsDecimalDigit(digits[i])
    requires |digits| == 1 ==> digits[0] != '0' || tail == [] || (tail[0] != 'x' && tail[0] != 'X')
    ensures !HexPrefixed(digits + tail)
  {
    var s := digits + tail;
    if |digits| >= 2 { assert s[1] == digits[1]; }
    else if |s| >= 2 { assert s[0] == digits[0] && s[1] == tail[0]; }
  }

  /** Without a `0x` prefix the leading number is the leading run of decimal digits. */
  lemma DecimalLeadingNumber(u: string)
    requires !HexPrefixed(u)
    ensures var ds := DigitPrefix(u, 10); LeadingNumber(u) == if ds == [] then None else Some(DigitsValue(ds, 10))
  {
  }

  /** `parseInt` reads the decimal rendering of `n` at the start of a text and ignores the rest
      from the first character that is neither a digit nor an `x`. */
  lemma ParseIntOfDecimalPrefix(n: nat, tail: string)
    requires tail == [] || (!IsDecimalDigit(tail[0]) && tail[0] != 'x' && tail[0] != 'X')
    ensures ParseInt(Decimal(n) + tail) == Some(n as int)
  {
    ParseIntIgnoresTrailing(Decimal(n), tail);
    DecimalValue(n);
  }

  /** Text that starts with a decimal digit and no `0x` is read in base 10 from its start. */
  lemma ParseIntOfUnsigned(s: string)
    requires s != [] && IsDecimalDigit(s[0]) && !HexPrefixed(s)
    ensures LeadingNumber(s).None? ==> ParseInt(s).None?
    ensures LeadingNumber(s).Some? ==> ParseInt(s) == Some(LeadingNumber(s).value as int)
  {
    assert !IsWhitespace(s[0]);
    assert TrimStart(s) == s;
    assert AfterSign(s) == s;
  }

  lemma {:induction false} DigitPrefixStops(digits: string, tail: string)
    requires forall i :: 0 <= i < |digits| ==> IsDecimalDigit(digits[i])
    requires tail == [] || !IsDecimalDigit(tail[0])
    ensures DigitPrefix(digits + tail, 10) == digits
  {
    if digits != [] {
      assert (digits + tail)[1..] == digits[1..] + tail;
      DigitPrefixStops(digits[1..], tail);
    } else if tail != [] {
      assert DigitValue(tail[0]) >= 10;
    }
  }
}
