/** `IntegerRule`: a WPF validation rule that accepts a text box's string
    when it is blank and blanks are allowed, or when it parses as a 32-bit
    integer within `Min .. Max` (both inclusive). */
module IntegerRule {
  import opened Options

  const Int32Min: int := -0x8000_0000
  const Int32Max: int := 0x7FFF_FFFF

  /** The rule's configuration: its `Min`, `Max` and `CanEmpty` properties. */
  datatype Rule = Rule(min: int, max: int, canEmpty: bool)

  /** `ValidationResult`: whether the input is valid and, when it is not,
      the message shown. */
  datatype ValidationResult = ValidationResult(isValid: bool, errorContent: Option<string>)

  /** `ValidationResult.ValidResult`. */
  const ValidResult := ValidationResult(true, None)

  // ---------------------------------------------------------------------
  // Blank input
  // ---------------------------------------------------------------------

  /** `char.IsWhiteSpace`: the Unicode white-space characters. */
  predicate IsWhiteSpace(c: char) {
    c == ' ' || '\t' <= c <= '\r' || c == '\U{0085}' || c == '\U{00A0}' || c == '\U{1680}' ||
    '\U{2000}' <= c <= '\U{200A}' || c == '\U{2028}' || c == '\U{2029}' || c == '\U{202F}' ||
    c == '\U{205F}' || c == '\U{3000}'
  }

  /** `string.IsNullOrWhiteSpace`: a null string, an empty one, or one of
      white space only. */
  predicate IsNullOrWhiteSpace(s: Option<string>) {
    s.None? || forall i :: 0 <= i < |s.value| ==> IsWhiteSpace(s.value[i])
  }

  // ---------------------------------------------------------------------
  // int.TryParse
  // ---------------------------------------------------------------------

  /** The white space `int.TryParse` skips around the number. */
  predicate IsParseWhite(c: char) {
    c == ' ' || '\t' <= c <= '\r'
  }

  predicate IsDigit(c: char) {
    '0' <= c <= '9'
  }

  function DigitValue(c: char): nat
    requires IsDigit(c)
  {
    c as int - '0' as int
  }

  /** `s` without its leading parse white space. */
  function TrimStart(s: string): (r: string)
    ensures |r| <= |s| && r == s[|s| - |r|..]
    ensures |r| > 0 ==> !IsParseWhite(r[0])
  {
    if |s| > 0 && IsParseWhite(s[0]) then TrimStart(s[1..]) else s
  }

  /** `s` without its trailing parse white space. */
  function TrimEnd(s: string): (r: string)
    ensures |r| <= |s| && r == s[..|r|]
    ensures |r| > 0 ==> !IsParseWhite(r[|r| - 1])
  {
    if |s| > 0 && IsParseWhite(s[|s| - 1]) then TrimEnd(s[..|s| - 1]) else s
  }

  /** `s` without the parse white space around it. */
  function Trim(s: string): string {
    TrimEnd(TrimStart(s))
  }

  predicate AllDigits(d: string) {
    forall i :: 0 <= i < |d| ==> IsDigit(d[i])
  }

  /** The value of a run of decimal digits, most significant first. */
  function DigitsValue(d: string): nat
    requires AllDigits(d)
  {
    if |d| == 0 then 0 else 10 * DigitsValue(d[..|d| - 1]) + DigitValue(d[|d| - 1])
  }

  /** The signed value of trimmed text: an optional `+` or `-` and one or
      more decimal digits, within 32 bits. */
  function ParseTrimmed(t: string): (r: Option<int>)
    ensures r.Some? ==> Int32Min <= r.value <= Int32Max
  {
    var signed := |t| > 0 && (t[0] == '-' || t[0] == '+');
    var digits := if signed then t[1..] else t;
    if |digits| == 0 || !AllDigits(digits) then None
    else
      var v: int := if signed && t[0] == '-' then -(DigitsValue(digits) as int) else DigitsValue(digits);
      if Int32Min <= v <= Int32Max then Some(v) else None
  }

  /** `int.TryParse(s, out n)` with the integer number style: optional
      white space, an optional `+` or `-`, one or more decimal digits,
      optional white space; `None` when the text has another shape or its
      value does not fit 32 bits. */
  function TryParse(s: string): (r: Option<int>)
    ensures r.Some? ==> Int32Min <= r.value <= Int32Max
  {
    ParseTrimmed(Trim(s))
  }

  /** `n.ToString()` for a natural number: its decimal digits. */
  function ShowNat(n: nat): (r: string)
    ensures |r| > 0 && AllDigits(r)
  {
    var d := ['0' + (n % 10) as char];
    if n < 10 then d else ShowNat(n / 10) + d
  }

  /** `n.ToString()`: a minus sign before the digits of a negative number. */
  function Show(n: int): string {
    if n < 0 then "-" + ShowNat(-n) else ShowNat(n)
  }

  lemma {:induction false} DigitsOfShowNat(n: nat)
    ensures DigitsValue(ShowNat(n)) == n
  {
    var s := ShowNat(n);
    var d := ['0' + (n % 10) as char];
    if n >= 10 {
      DigitsOfShowNat(n / 10);
      assert s[..|s| - 1] == ShowNat(n / 10);
    }
  }

  /** Formatted numbers have no white space to trim. */
  lemma TrimShow(n: int)
    ensures Trim(Show(n)) == Show(n)
  {
    var s := Show(n);
    var digits := ShowNat(if n < 0 then -n else n);
    assert s[|s| - 1] == digits[|digits| - 1];
    assert TrimStart(s) == s;
  }

  /** Formatting then parsing gives back every 32-bit integer. */
  lemma ParseShow(n: int)
    requires Int32Min <= n <= Int32Max
    ensures TryParse(Show(n)) == Some(n)
  {
    TrimShow(n);
    var s := Show(n);
    if n < 0 {
      assert s[1..] == ShowNat(-n);
      DigitsOfShowNat(-n);
    } else {
      DigitsOfShowNat(n);
    }
  }

  lemma {:induction false} TrimStartPadded(s: string)
    ensures TrimStart(" " + s) == TrimStart(s)
  {
    assert (" " + s)[1..] == s;
  }

  lemma {:induction false} TrimEndPadded(s: string)
    ensures TrimEnd(s + " ") == TrimEnd(s)
  {
    assert (s + " ")[..|s|] == s;
  }

  /** `TrimStart` keeps the end of the string: a trailing blank survives
      it unless the whole string is blank. */
  lemma {:induction false} TrimStartAppend(s: string)
    ensures TrimStart(s + " ") == TrimStart(s) + " " || (TrimStart(s) == [] && TrimStart(s + " ") == [])
  {
    if |s| > 0 && IsParseWhite(s[0]) {
      assert (s + " ")[1..] == s[1..] + " ";
      TrimStartAppend(s[1..]);
    } else if |s| == 0 {
      assert s + " " == " ";
      assert TrimStart(" ") == TrimStart("");
    }
  }

  /** A blank on either side does not change the trimmed text. */
  lemma TrimPadded(s: string)
    ensures Trim(" " + s) == Trim(s) && Trim(s + " ") == Trim(s)
  {
    TrimStartPadded(s);
    TrimStartAppend(s);
    var t := TrimStart(s);
    if TrimStart(s + " ") == t + " " {
      TrimEndPadded(t);
    } else {
      assert TrimEnd([]) == [];
    }
  }

  /** White space around the number does not change what it parses to. */
  lemma ParseIgnoresPadding(s: string)
    ensures TryParse(" " + s) == TryParse(s)
    ensures TryParse(s + " ") == TryParse(s)
  {
    TrimPadded(s);
  }

  // ---------------------------------------------------------------------
  // Validate
  // ---------------------------------------------------------------------

  /** The message of an invalid input: "the input must lie between Min and
      Max". */
  function RangeMessage(rule: Rule): string {
    "\U{8F38}\U{5165}\U{9808}\U{4ECB}\U{65BC} " + Show(rule.min) + " \U{548C} " + Show(rule.max) + " \U{4E4B}\U{9593}"
  }

  /** `Validate`; `value` is the text box's string, `None` when it is null. */
  function Validate(rule: Rule, value: Option<string>): (r: ValidationResult)
    ensures r.isValid <==> r == ValidResult
    ensures !r.isValid ==> r.errorContent == Some(RangeMessage(rule))
  {
    if IsNullOrWhiteSpace(value) then
      if rule.canEmpty then ValidResult else ValidationResult(false, Some(RangeMessage(rule)))
    else
      var n := TryParse(value.value);
      if n.None? || n.value < rule.min || n.value > rule.max then ValidationResult(false, Some(RangeMessage(rule)))
      else ValidResult
  }

  /** Blank input is valid exactly when the rule allows it. */
  lemma BlankInput(rule: Rule, value: Option<string>)
    requires IsNullOrWhiteSpace(value)
    ensures Validate(rule, value).isValid <==> rule.canEmpty
  {
  }

  /** Text that is not blank and does not parse is invalid. */
  lemma UnparsableInput(rule: Rule, s: string)
    requires !IsNullOrWhiteSpace(Some(s)) && TryParse(s).None?
    ensures !Validate(rule, Some(s)).isValid
  {
  }

  /** A number is valid exactly when it lies within `Min .. Max`, both
      bounds included. */
  lemma NumberInput(rule: Rule, n: int)
    requires Int32Min <= n <= Int32Max
    ensures Validate(rule, Some(Show(n))).isValid <==> rule.min <= n <= rule.max
  {
    ParseShow(n);
    ShowNotBlank(n);
  }

  /** A formatted number ends in a digit, so it is not blank. */
  lemma ShowNotBlank(n: int)
    ensures !IsNullOrWhiteSpace(Some(Show(n)))
  {
    var s := Show(n);
    var digits := ShowNat(if n < 0 then -n else n);
    assert s[|s| - 1] == digits[|digits| - 1];
    assert IsDigit(s[|s| - 1]);
  }

  /** The whole rule: valid when blank and allowed, or when the text parses
      to a number within the bounds. */
  lemma ValidExactly(rule: Rule, value: Option<string>)
    ensures Validate(rule, value).isValid <==>
      (IsNullOrWhiteSpace(value) && rule.canEmpty) ||
      (!IsNullOrWhiteSpace(value) && TryParse(value.value).Some? && rule.min <= TryParse(value.value).value <= rule.max)
  {
  }
}
