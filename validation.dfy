/**
 * StringPropertyValidationRules: a plugin property value is valid when it is
 * no longer than a maximum length and every character belongs to the mode's
 * class — letters, digits and '_' for a variable name; additionally
 * whitespace and - * % ( ) for a free string.
 */
module Validation {
  import opened CharClasses

  /** The rules: variable-name mode or string mode, and the maximum length. */
  datatype Rules = Rules(variable: bool, maxLen: int)

  /** The bracketed character class of one of the two patterns. */
  datatype CharClass = VarClass | StrClass

  /** [\p{L}\p{N}_] for VarClass, [\p{L}\p{N}\s\-_*%()] for StrClass. */
  predicate InClass(cls: CharClass, c: char)
  {
    match cls
    case VarClass => IsLetter(c) || IsNumber(c) || c == '_'
    case StrClass => IsLetter(c) || IsNumber(c) || IsWhitespace(c) || c in {'-', '_', '*', '%', '(', ')'}
  }

  /** Pattern.matcher(s).matches() for ^[class]*$: the star consumes the whole input one character at a time. */
  function MatchesStar(cls: CharClass, s: string): bool
  {
    s == [] || (InClass(cls, s[0]) && MatchesStar(cls, s[1..]))
  }

  /** isValueValid: the length bound first, then the mode's pattern. */
  function IsValueValid(r: Rules, value: string): bool
  {
    if |value| > r.maxLen then false
    else if r.variable then MatchesStar(VarClass, value)
    else MatchesStar(StrClass, value)
  }

  /** hasChoices: these rules never offer a list of choices. */
  function HasChoices(r: Rules): (b: bool)
    ensures !b
  {
    false
  }

  /** choices: always the empty list. */
  function Choices(r: Rules): (c: seq<string>)
    ensures |c| == 0
  {
    []
  }

  // ---------------------------------------------------------------------
  // Integer formatting, for toString

  function DigitChar(d: nat): (c: char)
    requires d < 10
    ensures '0' <= c <= '9'
  {
    ('0' as int + d) as char
  }

  /** Integer.toString for a non-negative value: decimal digits, most significant first, no leading zero. */
  function NatToString(n: nat): (s: string)
    ensures |s| > 0 && forall k :: 0 <= k < |s| ==> '0' <= s[k] <= '9'
  {
    if n < 10 then [DigitChar(n)] else NatToString(n / 10) + [DigitChar(n % 10)]
  }

  /** Integer.toString: a '-' before the digits of a negative value. */
  function IntToString(n: int): string
  {
    if n < 0 then "-" + NatToString(-n) else NatToString(n)
  }

  /** The value of a string of decimal digits. */
  function DigitsValue(s: string): int
  {
    if s == [] then 0 else 10 * DigitsValue(s[..|s| - 1]) + (s[|s| - 1] as int - '0' as int)
  }

  /** Integer.parseInt on what IntToString produces. */
  function ParseInt(s: string): int
  {
    if |s| > 0 && s[0] == '-' then -DigitsValue(s[1..]) else DigitsValue(s)
  }

  /** toString as written: the conditional binds last, so variable mode yields only "Variable ". */
  function ToStringAsWritten(r: Rules): string
  {
    if r.variable then "Variable " else "String " + "validator (max length " + IntToString(r.maxLen) + ")"
  }

  /** toString as intended: the mode's word, then the maximum length, in both modes. */
  function ToString(r: Rules): string
  {
    (if r.variable then "Variable " else "String ") + "validator (max length " + IntToString(r.maxLen) + ")"
  }

  // ---------------------------------------------------------------------
  // Lemmas

  /** ^[class]*$ matches exactly the strings whose every character is in the class. */
  lemma {:induction false} MatchesStarIff(cls: CharClass, s: string)
    ensures MatchesStar(cls, s) <==> forall k :: 0 <= k < |s| ==> InClass(cls, s[k])
  {
    if s != [] {
      MatchesStarIff(cls, s[1..]);
      assert forall k :: 1 <= k < |s| ==> s[k] == s[1..][k - 1];
    }
  }

  /** A value longer than the maximum is invalid whatever its characters. */
  lemma TooLongIsInvalid(r: Rules, value: string)
    requires |value| > r.maxLen
    ensures !IsValueValid(r, value)
  {
  }

  /** In variable mode a value within the bound is valid exactly when it has only letters, digits and '_'. */
  lemma VariableModeValid(r: Rules, value: string)
    requires r.variable && |value| <= r.maxLen
    ensures IsValueValid(r, value)
        <==> forall k :: 0 <= k < |value| ==> IsLetter(value[k]) || IsNumber(value[k]) || value[k] == '_'
  {
    MatchesStarIff(VarClass, value);
  }

  /**
   * In string mode a value within the bound is valid exactly when it has only
   * letters, digits, whitespace and the characters - _ * % ( ).
   */
  lemma StringModeValid(r: Rules, value: string)
    requires !r.variable && |value| <= r.maxLen
    ensures IsValueValid(r, value)
        <==> forall k :: 0 <= k < |value| ==>
               IsLetter(value[k]) || IsNumber(value[k]) || IsWhitespace(value[k])
               || value[k] in {'-', '_', '*', '%', '(', ')'}
  {
    MatchesStarIff(StrClass, value);
  }

  /** The empty value is valid in either mode exactly when the maximum is not negative. */
  lemma EmptyValid(r: Rules)
    ensures IsValueValid(r, "") <==> r.maxLen >= 0
  {
  }

  /** A value valid as a variable name is valid as a string under the same maximum. */
  lemma VariableValidIsStringValid(maxLen: int, value: string)
    requires IsValueValid(Rules(true, maxLen), value)
    ensures IsValueValid(Rules(false, maxLen), value)
  {
    MatchesStarIff(VarClass, value);
    MatchesStarIff(StrClass, value);
  }

  lemma {:induction false} DigitsValueOfNatToString(n: nat)
    ensures DigitsValue(NatToString(n)) == n
  {
    if n >= 10 {
      DigitsValueOfNatToString(n / 10);
      var s := NatToString(n);
      assert s[..|s| - 1] == NatToString(n / 10);
    }
  }

  /** Formatting an integer and parsing it back gives the integer. */
  lemma IntToStringRoundTrip(n: int)
    ensures ParseInt(IntToString(n)) == n
  {
    if n < 0 {
      DigitsValueOfNatToString(-n);
      assert IntToString(n)[1..] == NatToString(-n);
    } else {
      DigitsValueOfNatToString(n);
    }
  }

  /** The intended text tells any two rules apart: the mode and the maximum can be read back from it. */
  lemma ToStringInjective(r1: Rules, r2: Rules)
    requires ToString(r1) == ToString(r2)
    ensures r1 == r2
  {
    var s := ToString(r1);
    var mid := "validator (max length ";
    var p1, p2 := if r1.variable then "Variable " else "String ", if r2.variable then "Variable " else "String ";
    assert s[0] == p1[0] && s[0] == p2[0];
    assert r1.variable == r2.variable;
    var n1, n2 := IntToString(r1.maxLen), IntToString(r2.maxLen);
    assert s == p1 + mid + n1 + ")";
    assert ToString(r2) == p1 + mid + n2 + ")";
    assert n1 == s[|p1| + |mid|..|s| - 1];
    assert n2 == s[|p1| + |mid|..|s| - 1];
    IntToStringRoundTrip(r1.maxLen);
    IntToStringRoundTrip(r2.maxLen);
  }

  /**
   * As written, variable-mode rules with different maxima print the same
   * text, without the maximum; the intended text tells them apart.
   */
  lemma ToStringAsWrittenDropsLength()
    ensures ToStringAsWritten(Rules(true, 10)) == ToStringAsWritten(Rules(true, 20)) == "Variable "
    ensures ToString(Rules(true, 10)) != ToString(Rules(true, 20))
  {
    var at := |"Variable "| + |"validator (max length "|;
    assert NatToString(10) == NatToString(1) + ['0'] && NatToString(1) == ['1'];
    assert NatToString(20) == NatToString(2) + ['0'] && NatToString(2) == ['2'];
    assert ToString(Rules(true, 10))[at] == '1';
    assert ToString(Rules(true, 20))[at] == '2';
  }

  /** In string mode the text as written is the intended one. */
  lemma ToStringAsWrittenInStringMode(r: Rules)
    requires !r.variable
    ensures ToStringAsWritten(r) == ToString(r)
  {
  }
}
