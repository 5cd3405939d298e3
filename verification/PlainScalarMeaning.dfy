/** What every unquoted scalar that is no integer becomes. */
module PlainScalarMeaning {
  import opened Json
  import opened Text
  import opened YamlEvents
  import opened PlainScalars

  /** The text spells an integer. */
  ghost predicate IntegerText(raw: string) {
    exists sign, base, digits :: Spells(sign, base, digits) && raw == Spelling(sign, base, digits)
  }

  /** The letters of a word in either case. */
  predicate SameLetters(u: string, w: string) {
    |u| == |w| && forall i | 0 <= i < |w| :: u[i] == w[i] || ('A' <= u[i] <= 'Z' && u[i] as int + 32 == w[i] as int)
  }

  /** `.inf`, `.nan`, `inf` or `nan`, with a sign or without. */
  predicate NonFiniteText(raw: string) {
    exists w | w in {".inf", ".nan", "inf", "nan"} ::
      SameLetters(raw, w) || (raw != "" && (raw[0] == '-' || raw[0] == '+') && SameLetters(raw[1..], w))
  }

  /** Digits, signs, dots and exponent marks, at least one digit among them. */
  predicate DecimalText(raw: string) {
    (forall c | c in raw :: '0' <= c <= '9' || c in {'+', '-', '.', 'e', 'E'}) && exists c | c in raw :: '0' <= c <= '9'
  }

  lemma SpelledBack(raw: string)
    ensures TryInteger(raw).NotInteger? || IntegerText(raw)
  {
    hide DigitsValue;
    var u := Unsigned(raw);
    var sign := raw[..|raw| - |u|];
    var (base, digits) := BaseOf(u);
    if AreDigits(digits, base) {
      BasedBack(u);
      SignedBack(raw);
      assert Spells(sign, base, digits) && raw == Spelling(sign, base, digits);
    }
  }

  lemma SignedBack(raw: string)
    ensures var u := Unsigned(raw); |u| <= |raw| && raw == raw[..|raw| - |u|] + u && raw[..|raw| - |u|] in {"", "+", "-"}
  {
    if Unsigned(raw) != raw {
      assert raw[..1] == [raw[0]];
    }
  }

  lemma BasedBack(u: string)
    ensures var (base, digits) := BaseOf(u); base in {8, 10, 16} && u == BasePrefix(base) + digits
  {
    if At(u, 0, "0x") {
      PrefixSlice(u, "0x");
    } else if At(u, 0, "0o") {
      PrefixSlice(u, "0o");
    } else {
      assert "" + u == u;
    }
  }

  lemma PrefixSlice(u: string, p: string)
    requires At(u, 0, p)
    ensures u == p + u[|p|..]
  {
    forall j | 0 <= j < |p| ensures u[j] == p[j] { assert u[0 + j] == p[j]; }
  }

  lemma LettersLower(u: string, w: string)
    requires forall c | c in w :: !('A' <= c <= 'Z')
    ensures SameLetters(u, w) <==> LowerCase(u) == w
  {
    if SameLetters(u, w) {
      forall i | 0 <= i < |u| ensures LowerCase(u)[i] == w[i] { assert w[i] in w; }
    }
    if LowerCase(u) == w {
      forall i | 0 <= i < |w| ensures u[i] == w[i] || ('A' <= u[i] <= 'Z' && u[i] as int + 32 == w[i] as int) { assert LowerCase(u)[i] == w[i]; }
    }
  }

  lemma LowersTo(u: string)
    ensures LowerCase(u) in [".inf", ".nan", "inf", "nan"]
      <==> exists w | w in {".inf", ".nan", "inf", "nan"} :: SameLetters(u, w)
  {
    hide LowerCase, SameLetters;
    LettersLower(u, ".inf");
    LettersLower(u, ".nan");
    LettersLower(u, "inf");
    LettersLower(u, "nan");
    var words := {".inf", ".nan", "inf", "nan"};
    assert ".inf" in words && ".nan" in words && "inf" in words && "nan" in words;
    assert LowerCase(u) in [".inf", ".nan", "inf", "nan"] <==>
      LowerCase(u) == ".inf" || LowerCase(u) == ".nan" || LowerCase(u) == "inf" || LowerCase(u) == "nan";
  }

  lemma NonFiniteAgrees(raw: string)
    ensures IsNonFinite(raw) <==> NonFiniteText(raw)
  {
    hide LowerCase, SameLetters;
    var signed := raw != "" && (raw[0] == '-' || raw[0] == '+');
    assert Unsigned(raw) == if signed then raw[1..] else raw;
    LowersTo(Unsigned(raw));
    if signed {
      forall w | w in {".inf", ".nan", "inf", "nan"} ensures !SameLetters(raw, w) { SignedIsNoWord(raw, w); }
    }
  }

  lemma SignedIsNoWord(raw: string, w: string)
    requires raw != "" && (raw[0] == '-' || raw[0] == '+') && w in {".inf", ".nan", "inf", "nan"}
    ensures !SameLetters(raw, w)
  {
    assert w[0] == '.' || w[0] == 'i' || w[0] == 'n';
  }

  /** A scalar that spells no integer is null or a truth value if it is one of their
      words; an error if it is a non-finite number by name, or a decimal too large; a
      float if it is a decimal; and otherwise its own text. */
  lemma OthersAreExact(float: string -> Option<Option<nat>>, raw: string)
    requires !IntegerText(raw)
    ensures ResolvePlain(float, raw)
      == if raw in {"", "~", "null", "Null", "NULL"} then Ok(NNull)
         else if raw in {"true", "True", "TRUE"} then Ok(NBool(true))
         else if raw in {"false", "False", "FALSE"} then Ok(NBool(false))
         else if NonFiniteText(raw) then Err(NonJsonScalar)
         else if DecimalText(raw) && float(raw).Some? then
           var bits := float(raw).value;
           if bits.Some? then Ok(NNumber(Float(bits.value))) else Err(NonJsonScalar)
         else Ok(NString(raw))
  {
    hide IntegerText, TryInteger, IsNonFinite, NonFiniteText;
    SpelledBack(raw);
    NonFiniteAgrees(raw);
    assert IsNumeric(raw) <==> DecimalText(raw);
  }
}
