/**
 * The `pkg/userId` text form of a scope entry: `Scope.Converter.convert`, which
 * the `scope set` command uses to read its arguments, and the line format that
 * `scope ls` prints, with the round trip between the two.
 */
module ScopeConverter {
  import opened Scopes

  /** Why `convert` throws: `s[1]` does not exist, or `Integer.parseInt` rejects it. */
  datatype ConvertError = MissingUserId | NotAnInteger

  datatype Converted = Ok(scope: Scope) | Err(error: ConvertError)

  predicate IsDigit(c: char) { '0' <= c <= '9' }

  predicate AllDigits(s: string) { forall i :: 0 <= i < |s| ==> IsDigit(s[i]) }

  function DigitValue(c: char): nat
    requires IsDigit(c)
  {
    c as int - '0' as int
  }

  function DigitChar(d: nat): (c: char)
    requires d < 10
    ensures IsDigit(c) && DigitValue(c) == d
  {
    ('0' as int + d) as char
  }

  /** The value of a run of decimal digits, most significant first. */
  function DigitsValue(s: string): nat
    requires AllDigits(s)
  {
    if s == [] then 0 else DigitsValue(s[..|s| - 1]) * 10 + DigitValue(s[|s| - 1])
  }

  /**
   * `Integer.parseInt(s)`: an optional sign, then at least one digit, and the
   * value must fit in a Java `int`; anything else is a NumberFormatException.
   */
  function ParseInt(s: string): (r: Option<int>)
    ensures r.Some? ==> IsInt(r.value)
    ensures r.Some? ==> s != [] && (s[0] == '-' || s[0] == '+' || IsDigit(s[0]))
  {
    if s == [] then None
    else
      var digits := if s[0] == '-' || s[0] == '+' then s[1..] else s;
      if digits == [] || !AllDigits(digits) then None
      else
        var magnitude: int := DigitsValue(digits);
        var v := if s[0] == '-' then -magnitude else magnitude;
        if IsInt(v) then Some(v) else None
  }

  /**
   * What `Integer.parseInt` gives for a sign (or none) followed by decimal
   * digits: their value, negated after '-', when it fits in an `int`, and a
   * NumberFormatException otherwise.
   */
  lemma ParseIntSigned(sign: string, digits: string)
    requires sign == "" || sign == "+" || sign == "-"
    requires digits != [] && AllDigits(digits)
    ensures var v := if sign == "-" then -(DigitsValue(digits) as int) else DigitsValue(digits);
      ParseInt(sign + digits) == if IsInt(v) then Some(v) else None
  {
    var s := sign + digits;
    if sign == "" {
      assert s == digits;
    } else {
      assert s[1..] == digits;
    }
  }

  /** Every string `Integer.parseInt` accepts is a sign (or none) followed by at least one digit. */
  lemma ParseIntShape(s: string)
    requires ParseInt(s).Some?
    ensures exists sign: string, digits: string ::
      && (sign == "" || sign == "+" || sign == "-")
      && digits != [] && AllDigits(digits) && s == sign + digits
  {
    if s[0] == '-' || s[0] == '+' {
      assert s == s[..1] + s[1..];
    } else {
      assert s == "" + s;
    }
  }

  /** A leading zero does not change the value of a run of digits. */
  lemma {:induction false} LeadingZero(digits: string)
    requires AllDigits(digits)
    ensures AllDigits("0" + digits) && DigitsValue("0" + digits) == DigitsValue(digits)
    decreases |digits|
  {
    var s := "0" + digits;
    if digits == [] {
      assert s[..|s| - 1] == [];
    } else {
      var init := digits[..|digits| - 1];
      assert s[..|s| - 1] == "0" + init;
      LeadingZero(init);
    }
  }

  /** "+07" reads as 7, the value of "7". */
  lemma PlusLeadingZeroExample()
    ensures ParseInt("+07") == Some(7)
  {
    LeadingZero("7");
    ParseIntSigned("+", "07");
    assert "+" + "07" == "+07";
  }

  /** The decimal digits of `n` without leading zeros. */
  function NatToString(n: nat): (s: string)
    ensures s != [] && AllDigits(s) && DigitsValue(s) == n
  {
    if n < 10 then [DigitChar(n)]
    else
      var s := NatToString(n / 10) + [DigitChar(n % 10)];
      assert s[..|s| - 1] == NatToString(n / 10);
      s
  }

  /** `Integer.toString(n)`, as string concatenation writes an `int`. */
  function IntToString(n: int): string
  {
    if n < 0 then "-" + NatToString(-n) else NatToString(n)
  }

  lemma {:induction false} ParseIntToString(n: int)
    requires IsInt(n)
    ensures ParseInt(IntToString(n)) == Some(n)
  {
    if n < 0 {
      assert IntToString(n)[1..] == NatToString(-n);
    } else {
      assert IsDigit(NatToString(n)[0]);
    }
  }

  /**
   * `Scope.Converter.convert(value)`: `value.split("/", 2)` cuts at the first
   * slash; the part before it is the package and the rest must be an `int`.
   */
  function Convert(value: string): (r: Converted)
    ensures '/' !in value ==> r == Err(MissingUserId)
    ensures r.Ok? ==>
      var k := |r.scope.packageName|;
      k < |value| && value[..k] == r.scope.packageName && value[k] == '/'
      && '/' !in r.scope.packageName && ParseInt(value[k + 1..]) == Some(r.scope.userId)
    ensures '/' in value ==> (r.Ok? <==> ParseInt(value[IndexOf(value, '/').value + 1..]).Some?)
  {
    match IndexOf(value, '/')
    case None => Err(MissingUserId)
    case Some(k) =>
      match ParseInt(value[k + 1..])
      case None => Err(NotAnInteger)
      case Some(userId) => Ok(Scope(value[..k], userId))
  }

  /**
   * One line of `scope ls`: `packageName + "/" + userId`.  The package comes
   * first, then the slash, and what follows reads back as the user id.
   */
  function Format(s: Scope): (r: string)
    ensures |s.packageName| < |r| && r[..|s.packageName|] == s.packageName && r[|s.packageName|] == '/'
    ensures IsInt(s.userId) ==> ParseInt(r[|s.packageName| + 1..]) == Some(s.userId)
  {
    var r := s.packageName + "/" + IntToString(s.userId);
    assert r[|s.packageName| + 1..] == IntToString(s.userId);
    if IsInt(s.userId) then ParseIntToString(s.userId); r else r
  }

  /** What `scope ls` prints, `scope set` reads back, for package names without a slash. */
  lemma {:induction false} ConvertFormat(s: Scope)
    requires '/' !in s.packageName && IsInt(s.userId)
    ensures Convert(Format(s)) == Ok(s)
  {
    IndexOfAfter(s.packageName, '/', IntToString(s.userId));
    var text := Format(s);
    assert text == s.packageName + ['/'] + IntToString(s.userId);
    var k := |s.packageName|;
    assert text[..k] == s.packageName;
    assert text[k + 1..] == IntToString(s.userId);
    ParseIntToString(s.userId);
  }

  /** Every entry `convert` accepts prints back to a line that reads as the same entry. */
  lemma {:induction false} FormatConvert(value: string)
    requires Convert(value).Ok?
    ensures Convert(Format(Convert(value).scope)) == Convert(value)
  {
    ConvertFormat(Convert(value).scope);
  }
}
