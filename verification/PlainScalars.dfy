/** How an unquoted YAML scalar becomes a JSON value: keywords, integers in three
    bases, floats, and otherwise the text itself. */
module PlainScalars {
  import opened Json
  import opened Text
  import opened YamlEvents

  const MAX_U64 := 0xFFFF_FFFF_FFFF_FFFF
  const MAX_I64 := 0x7FFF_FFFF_FFFF_FFFF

  datatype Integer = NotInteger | OutOfRange | IntegerIs(value: int)

  /** Value of a digit in any base up to 16, or 16. */
  function DigitValue(c: char): nat {
    if '0' <= c <= '9' then c as int - '0' as int
    else if 'a' <= c <= 'f' then c as int - 'a' as int + 10
    else if 'A' <= c <= 'F' then c as int - 'A' as int + 10
    else 16
  }

  predicate AreDigits(s: string, base: nat) { s != "" && forall c | c in s :: DigitValue(c) < base }

  function DigitsValue(s: string, base: nat): nat {
    if s == "" then 0 else DigitsValue(s[..|s| - 1], base) * base + DigitValue(s[|s| - 1])
  }

  function Unsigned(raw: string): string { if Begins(raw, '-') || Begins(raw, '+') then raw[1..] else raw }

  /** The base of an unsigned integer text, and its digits. */
  function BaseOf(unsigned: string): (nat, string) {
    if At(unsigned, 0, "0x") then (16, unsigned[2..])
    else if At(unsigned, 0, "0o") then (8, unsigned[2..])
    else (10, unsigned)
  }

  function TryInteger(raw: string): Integer {
    var (base, digits) := BaseOf(Unsigned(raw));
    if !AreDigits(digits, base) then NotInteger
    else
      var magnitude := DigitsValue(digits, base);
      if magnitude > MAX_U64 then OutOfRange
      else if Begins(raw, '-') then if magnitude > MAX_I64 + 1 then OutOfRange else IntegerIs(0 - magnitude as int)
      else IntegerIs(magnitude)
  }

  function NumberOf(i: int): Number { if i >= 0 then PosInt(i) else NegInt(-i) }

  predicate IsNumericChar(c: char) { IsDigit(c) || c == '+' || c == '-' || c == '.' || c == 'e' || c == 'E' }

  predicate IsNumeric(raw: string) {
    (forall c | c in raw :: IsNumericChar(c)) && exists c | c in raw :: IsDigit(c)
  }

  const NULLS := ["", "~", "null", "Null", "NULL"]
  const TRUES := ["true", "True", "TRUE"]
  const FALSES := ["false", "False", "FALSE"]

  function LowerCase(s: string): string {
    seq(|s|, i requires 0 <= i < |s| => if 'A' <= s[i] <= 'Z' then (s[i] as int + 32) as char else s[i])
  }

  predicate IsNonFinite(raw: string) { LowerCase(Unsigned(raw)) in [".inf", ".nan", "inf", "nan"] }

  /** `float` reads a decimal text: nothing, or its value, which may be infinite. */
  function ResolvePlain(float: string -> Option<Option<nat>>, raw: string): Result<Node, ParseError> {
    if raw in NULLS then Ok(NNull)
    else if raw in TRUES then Ok(NBool(true))
    else if raw in FALSES then Ok(NBool(false))
    else if IsNonFinite(raw) then Err(NonJsonScalar)
    else match TryInteger(raw)
      case OutOfRange => Err(NonJsonScalar)
      case IntegerIs(i) => Ok(NNumber(NumberOf(i)))
      case NotInteger =>
        if IsNumeric(raw) && float(raw).Some? then
          match float(raw).value case Some(bits) => Ok(NNumber(Float(bits))) case None => Err(NonJsonScalar)
        else Ok(NString(raw))
  }

  // Rendering ------------------------------------------------------------------------

  function Digit(d: nat): char
    requires d < 16
  {
    if d < 10 then ('0' as int + d) as char else ('a' as int + d - 10) as char
  }

  function Digits(n: nat, base: nat): (s: string)
    requires 2 <= base <= 16
    ensures s != ""
  {
    if n < base then [Digit(n)] else Digits(n / base, base) + [Digit(n % base)]
  }

  lemma DigitIsRead(d: nat)
    requires d < 16
    ensures DigitValue(Digit(d)) == d
  {}

  lemma AppendDigit(s: string, c: char, base: nat)
    requires AreDigits(s, base) && DigitValue(c) < base
    ensures AreDigits(s + [c], base) && DigitsValue(s + [c], base) == DigitsValue(s, base) * base + DigitValue(c)
  {
    assert (s + [c])[..|s + [c]| - 1] == s;
  }

  lemma Divide(n: nat, base: nat) returns (q: nat, r: nat)
    requires 2 <= base <= n
    ensures q == n / base && r == n % base && q < n && r < base && q * base + r == n
  {
    q, r := n / base, n % base;
  }

  lemma {:induction false} DigitsRead(n: nat, base: nat)
    requires 2 <= base <= 16
    ensures AreDigits(Digits(n, base), base) && DigitsValue(Digits(n, base), base) == n
  {
    if n < base {
      DigitIsRead(n);
      assert [Digit(n)][..0] == "" && DigitsValue("", base) == 0;
    } else {
      var q, r := Divide(n, base);
      DigitIsRead(r);
      DigitsRead(q, base);
      AppendDigit(Digits(q, base), Digit(r), base);
    }
  }

  /** How an integer of a base is introduced. */
  function BasePrefix(base: nat): string { if base == 16 then "0x" else if base == 8 then "0o" else "" }

  /** Every spelling of an integer: a sign or none, a base, and digits of that base,
      leading zeros and letters of either case included. */
  predicate Spells(sign: string, base: nat, digits: string) {
    sign in {"", "+", "-"} && base in {8, 10, 16} && AreDigits(digits, base)
  }

  function Spelling(sign: string, base: nat, digits: string): string { sign + (BasePrefix(base) + digits) }

  function SpelledValue(sign: string, base: nat, digits: string): int {
    if sign == "-" then 0 - DigitsValue(digits, base) as int else DigitsValue(digits, base)
  }

  lemma SpellingParts(sign: string, base: nat, digits: string)
    requires Spells(sign, base, digits)
    ensures var raw := Spelling(sign, base, digits);
      Unsigned(raw) == BasePrefix(base) + digits && BaseOf(Unsigned(raw)) == (base, digits) && (Begins(raw, '-') <==> sign == "-")
  {
    hide DigitsValue, BaseOf;
    assert digits[0] in digits;
    var raw, u := Spelling(sign, base, digits), BasePrefix(base) + digits;
    assert u[0] == if base == 10 then digits[0] else '0';
    if sign == "" { assert raw == u; } else { assert raw[1..] == u && raw[0] == sign[0]; }
    if base == 10 {
      assert u == digits;
      PlainBase(digits);
    } else {
      PrefixedBase(BasePrefix(base), digits);
    }
  }

  lemma PlainBase(digits: string)
    requires AreDigits(digits, 10)
    ensures BaseOf(digits) == (10, digits)
  {
    assert "0x"[1] == 'x' && "0o"[1] == 'o';
    if |digits| >= 2 { assert digits[1] in digits && digits[0 + 1] != 'x' && digits[0 + 1] != 'o'; }
  }

  lemma PrefixedBase(prefix: string, digits: string)
    requires prefix in {"0x", "0o"}
    ensures BaseOf(prefix + digits) == (if prefix == "0x" then 16 else 8, digits)
  {
    var u := prefix + digits;
    assert u[2..] == digits && "0x"[1] == 'x' && "0o"[1] == 'o';
    assert u[0 + 0] == prefix[0] && u[0 + 1] == prefix[1];
    assert At(u, 0, prefix);
  }

  /** Every spelling of an integer reads as exactly that integer if it is one of the
      JSON model, and is an error otherwise: never a float or a string. */
  lemma IntegersAreExact(float: string -> Option<Option<nat>>, sign: string, base: nat, digits: string)
    requires Spells(sign, base, digits)
    ensures var i := SpelledValue(sign, base, digits);
      ResolvePlain(float, Spelling(sign, base, digits))
      == if -(MAX_I64 + 1) <= i <= MAX_U64 then Ok(NNumber(NumberOf(i))) else Err(NonJsonScalar)
  {
    hide BaseOf, Unsigned, Spelling, AreDigits, IsNumeric, DigitsValue, IsNonFinite;
    SpellingParts(sign, base, digits);
    NotAWord(sign, base, digits);
  }

  /** Each integer has such a spelling in each base, with any number of zeros in
      front; so each is read back. */
  lemma {:induction false} EveryIntegerIsSpelled(i: int, base: nat, zeros: nat) returns (sign: string, digits: string)
    requires base in {8, 10, 16}
    ensures Spells(sign, base, digits) && SpelledValue(sign, base, digits) == i && |digits| > zeros
  {
    sign := if i < 0 then "-" else "";
    var magnitude: nat := if i < 0 then -i else i;
    DigitsRead(magnitude, base);
    digits := Digits(magnitude, base);
    var n := 0;
    while n < zeros
      invariant n <= zeros && |digits| > n && AreDigits(digits, base) && DigitsValue(digits, base) == magnitude
    {
      LeadingZero(digits, base);
      digits := "0" + digits;
      n := n + 1;
    }
  }

  lemma {:induction false} LeadingZero(digits: string, base: nat)
    requires base >= 2 && AreDigits(digits, base)
    ensures AreDigits("0" + digits, base) && DigitsValue("0" + digits, base) == DigitsValue(digits, base)
  {
    var s := "0" + digits;
    assert s[..|s| - 1] == "0" + digits[..|digits| - 1];
    if |digits| == 1 {
      assert digits[..0] == "" && "0" + "" == "0" && "0"[..0] == "";
      assert DigitsValue("0", base) == 0 && DigitsValue("", base) == 0;
    } else {
      var init := digits[..|digits| - 1];
      assert init[0] == digits[0];
      LeadingZero(init, base);
    }
  }

  lemma NotAWord(sign: string, base: nat, digits: string)
    requires Spells(sign, base, digits)
    ensures var raw := Spelling(sign, base, digits); raw !in NULLS && raw !in TRUES && raw !in FALSES && !IsNonFinite(raw)
  {
    hide DigitsValue, LowerCase, BaseOf;
    SpellingParts(sign, base, digits);
    var raw, u := Spelling(sign, base, digits), BasePrefix(base) + digits;
    assert digits[0] in digits;
    assert u[0] == if base == 10 then digits[0] else '0';
    UnlikeWords(raw);
    UnlikeNonFinite(u);
  }

  lemma UnlikeWords(raw: string)
    requires raw != "" && (IsDigit(raw[0]) || raw[0] == '-' || raw[0] == '+')
    ensures raw !in NULLS && raw !in TRUES && raw !in FALSES
  {}

  lemma UnlikeNonFinite(u: string)
    requires u != "" && IsDigit(u[0])
    ensures LowerCase(u) !in [".inf", ".nan", "inf", "nan"]
  {
    assert LowerCase(u)[0] == u[0];
  }
}
