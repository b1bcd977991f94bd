/** How SQLite reads the text bound to `WHERE id = ?` when it compares it with an INTEGER
    PRIMARY KEY. NUMERIC affinity turns text that is a complete number literal into a number:
    optional white space around it, an optional sign, decimal digits with an optional
    fraction, and an optional exponent. The row with that id is selected when the number is
    an integer. Any other text is compared as text and selects no row. */
module SqliteText {
  import opened Wrappers
  import opened JsText

  /** The white space SQLite skips around a number. */
  predicate IsSqlSpace(c: char) {
    c == ' ' || c == '\t' || c == '\n' || c == '\U{000B}' || c == '\U{000C}' || c == '\r'
  }

  function SkipSpaces(s: string): string {
    if s != [] && IsSqlSpace(s[0]) then SkipSpaces(s[1..]) else s
  }

  function DropTrailingSpaces(s: string): string {
    if s != [] && IsSqlSpace(s[|s| - 1]) then DropTrailingSpaces(s[..|s| - 1]) else s
  }

  function Pow10(k: nat): (p: nat)
    ensures p >= 1
  {
    if k == 0 then 1 else 10 * Pow10(k - 1)
  }

  /** `mantissa * 10^shift`, with the sign applied, when that is an integer. */
  function ScaledInteger(negative: bool, mantissa: nat, shift: int): Option<int> {
    var magnitude: Option<nat> :=
      if shift >= 0 then Some(mantissa * Pow10(shift))
      else if mantissa % Pow10(-shift) == 0 then Some(mantissa / Pow10(-shift))
      else None;
    match magnitude
    case None => None
    case Some(v) => Some(if negative then -(v as int) else v as int)
  }

  /** The value of the text after `e` or `E`: an optional sign and at least one digit. */
  function ExponentValue(x: string): Option<int> {
    var digits := AfterSign(x);
    if digits != [] && DigitPrefix(digits, 10) == digits then
      var v: int := DigitsValue(digits, 10);
      Some(if x[0] == '-' then -v else v)
    else None
  }

  /** What may follow the digits and the fraction: nothing, or a well-formed exponent. */
  function ExponentPart(x: string): Option<int> {
    if x == [] then Some(0)
    else if x[0] == 'e' || x[0] == 'E' then ExponentValue(x[1..])
    else None
  }

  /** Whether what follows the whole part starts a fraction. */
  predicate Dotted(x: string) {
    x != [] && x[0] == '.'
  }

  /** The digits after a `.` that follows the whole part. */
  function FractionDigits(x: string): string {
    if Dotted(x) then DigitPrefix(x[1..], 10) else []
  }

  /** The text after the fraction. */
  function AfterFraction(x: string): string {
    if Dotted(x) then x[1 + |FractionDigits(x)|..] else x
  }

  /** A number literal without its sign: all its digits, read as one integer, times ten to `shift`. */
  datatype Scaled = Scaled(mantissa: nat, shift: int)

  /** The literal made of a whole part, a fraction and an exponent: none without any digit or
      with a malformed exponent. */
  function Literal(whole: string, fraction: string, e: Option<int>): Option<Scaled> {
    if |whole| + |fraction| == 0 || e.None? then None
    else Some(Scaled(DigitsValue(whole + fraction, 10), e.value - |fraction|))
  }

  /** The literal whose whole part is `whole`, given the text after it. */
  function AfterWhole(whole: string, x: string): Option<Scaled> {
    Literal(whole, FractionDigits(x), ExponentPart(AfterFraction(x)))
  }

  function UnsignedLiteral(u: string): Option<Scaled> {
    var whole := DigitPrefix(u, 10);
    AfterWhole(whole, u[|whole|..])
  }

  /** The text without the white space SQLite skips around a number. */
  function Trimmed(s: string): string {
    DropTrailingSpaces(SkipSpaces(s))
  }

  /** The integer the text stands for under NUMERIC affinity, or `None` when the text is not a
      complete number literal or its value is not an integer. */
  function SqliteInteger(s: string): Option<int> {
    var t := Trimmed(s);
    match UnsignedLiteral(AfterSign(t))
    case None => None
    case Some(l) => ScaledInteger(t != [] && t[0] == '-', l.mantissa, l.shift)
  }

  // ---------------------------------------------------------------------------
  // What particular texts select

  /** Text that neither starts nor ends with white space is read as it is. */
  lemma NoSpacesToSkip(s: string)
    requires s != [] && !IsSqlSpace(s[0]) && !IsSqlSpace(s[|s| - 1])
    ensures Trimmed(s) == s
  {
  }

  /** Without a `.` after the whole part there is no fraction. */
  lemma AfterWholeUndotted(whole: string, x: string)
    requires |whole| >= 1 && !Dotted(x)
    ensures AfterWhole(whole, x) ==
              if ExponentPart(x).None? then None else Some(Scaled(DigitsValue(whole, 10), ExponentPart(x).value))
  {
    assert FractionDigits(x) == [] && AfterFraction(x) == x;
    WithoutFraction(whole, ExponentPart(x));
  }

  lemma WithoutFraction(whole: string, e: Option<int>)
    requires |whole| >= 1
    ensures Literal(whole, [], e) == if e.None? then None else Some(Scaled(DigitsValue(whole, 10), e.value))
  {
    assert whole + [] == whole;
  }

  /** A run of digits is the whole part of the literal it starts. */
  lemma WholePart(ds: string, rest: string)
    requires forall i :: 0 <= i < |ds| ==> IsDecimalDigit(ds[i])
    requires rest == [] || !IsDecimalDigit(rest[0])
    ensures UnsignedLiteral(ds + rest) == AfterWhole(ds, rest)
  {
    DigitPrefixStops(ds, rest);
    assert (ds + rest)[|ds|..] == rest;
  }

  /** An unsigned run of digits, followed by what the lexer is given next. */
  lemma UnsignedDigits(ds: string, rest: string)
    requires |ds| >= 1 && forall i :: 0 <= i < |ds| ==> IsDecimalDigit(ds[i])
    requires rest == [] || !IsDecimalDigit(rest[0])
    requires !Dotted(rest)
    ensures UnsignedLiteral(ds + rest) ==
              if ExponentPart(rest).None? then None else Some(Scaled(DigitsValue(ds, 10), ExponentPart(rest).value))
  {
    WholePart(ds, rest);
    AfterWholeUndotted(ds, rest);
  }

  /** A run of decimal digits is the integer it spells. */
  lemma SqliteIntegerOfDigits(s: string)
    requires |s| >= 1 && forall i :: 0 <= i < |s| ==> IsDecimalDigit(s[i])
    ensures SqliteInteger(s) == Some(DigitsValue(s, 10) as int)
  {
    assert IsDecimalDigit(s[0]) && IsDecimalDigit(s[|s| - 1]);
    DigitEdged(s);
    UnsignedDigits(s, []);
    assert s + [] == s;
  }

  /** The decimal rendering of an id is that id. */
  lemma SqliteIntegerOfDecimal(n: nat)
    ensures SqliteInteger(Decimal(n)) == Some(n as int)
  {
    SqliteIntegerOfDigits(Decimal(n));
    DecimalValue(n);
  }

  /** White space before the text changes nothing. */
  lemma LeadingSpaceIgnored(c: char, s: string)
    requires IsSqlSpace(c)
    ensures SqliteInteger([c] + s) == SqliteInteger(s)
  {
    assert ([c] + s)[1..] == s;
    assert Trimmed([c] + s) == Trimmed(s);
  }

  /** Text that starts and ends with a digit reaches the lexer unchanged. */
  lemma DigitEdged(s: string)
    requires s != [] && IsDecimalDigit(s[0]) && IsDecimalDigit(s[|s| - 1])
    ensures AfterSign(Trimmed(s)) == s
    ensures Trimmed(s) != [] && Trimmed(s)[0] != '-'
  {
    NoSpacesToSkip(s);
  }

  /** `e<b>` is the exponent `b`. */
  lemma ExponentOfDecimal(b: nat)
    ensures ExponentPart("e" + Decimal(b)) == Some(b as int)
  {
    var db := Decimal(b);
    assert ("e" + db)[1..] == db;
    assert AfterSign(db) == db by { assert IsDecimalDigit(db[0]); }
    DigitPrefixAll(db);
    DecimalValue(b);
  }

  /** `<a>e<b>` is `a` times ten to the `b`: the exponent is part of the number. */
  lemma SqliteIntegerWithExponent(a: nat, b: nat)
    ensures SqliteInteger(Decimal(a) + "e" + Decimal(b)) == Some(a * Pow10(b))
  {
    var da, db := Decimal(a), Decimal(b);
    var s := da + ("e" + db);
    assert da + "e" + db == s;
    assert s[0] == da[0] && s[|s| - 1] == db[|db| - 1];
    DigitEdged(s);
    ExponentOfDecimal(b);
    UnsignedDigits(da, "e" + db);
    DecimalValue(a);
  }

  /** `<a>.5` is not an integer, so it selects no row. */
  lemma HalfSelectsNothing(a: nat)
    ensures SqliteInteger(Decimal(a) + ".5").None?
  {
    var s := Decimal(a) + ".5";
    assert s[0] == Decimal(a)[0] && s[|s| - 1] == '5';
    DigitEdged(s);
    HalfLiteral(a);
    HalfNotInteger(a);
  }

  /** `10a + 5` tenths is not an integer. */
  lemma HalfNotInteger(a: nat)
    ensures ScaledInteger(false, 10 * a + 5, -1).None?
  {
    assert Pow10(1) == 10;
    assert (10 * a + 5) % 10 == 5;
  }

  /** `<a>.5` reads as `10a + 5` tenths. */
  lemma HalfLiteral(a: nat)
    ensures UnsignedLiteral(Decimal(a) + ".5") == Some(Scaled(10 * a + 5, -1))
  {
    WholePart(Decimal(a), ".5");
    HalfAfterWhole(Decimal(a));
    HalfMantissa(a);
  }

  lemma HalfAfterWhole(whole: string)
    requires |whole| >= 1
    ensures AfterWhole(whole, ".5") == Some(Scaled(DigitsValue(whole + "5", 10), -1))
  {
    assert ".5"[1..] == "5";
    DigitPrefixAll("5");
  }

  lemma HalfMantissa(a: nat)
    ensures DigitsValue(Decimal(a) + "5", 10) == 10 * a + 5
  {
    var m := Decimal(a) + "5";
    assert m[..|m| - 1] == Decimal(a);
    DecimalValue(a);
  }
}
