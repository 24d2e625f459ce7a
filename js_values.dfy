/**
 * The slice of JavaScript value semantics that the table code relies on:
 * truthiness, optional property access, `String(v)`, ASCII `toLowerCase`,
 * the relational `<` on strings, and the leading-integer parse done by
 * `parseFloat`/`parseInt` on CSS widths such as "80px".
 */
module JsValues {
  import opened Wrappers

  /** A record field value: null, undefined, an integer, a string or a plain object. */
  datatype Value =
    | Null
    | Undef
    | Int(i: int)
    | Str(s: string)
    | Obj(fields: map<string, Value>)

  /** JavaScript truthiness: null, undefined, 0 and "" are falsy; every object is truthy. */
  predicate Truthy(v: Value) {
    match v
    case Null => false
    case Undef => false
    case Int(i) => i != 0
    case Str(s) => s != ""
    case Obj(_) => true
  }

  /** `v == null` with loose equality: holds for null and undefined only. */
  predicate IsNullish(v: Value) {
    v.Null? || v.Undef?
  }

  /**
   * `v?.[key]` for the own data properties of `v`: an object's fields, a
   * string's `length` and its characters at canonical index keys ("0", "1",
   * ..., never "01"). Anything else, a nullish base included, gives undefined.
   */
  function Prop(v: Value, key: string): Value {
    match v
    case Obj(fields) => if key in fields then fields[key] else Undef
    case Str(s) =>
      if key == "length" then Int(|s|)
      else if IsIndexKey(key) && ParseDigits(key) < |s| then Str([s[ParseDigits(key)]])
      else Undef
    case _ => Undef
  }

  // ---------------------------------------------------------------------------
  // Decimal printing and parsing

  predicate IsDigit(c: char) {
    '0' <= c <= '9'
  }

  predicate AllDigits(s: string) {
    forall k :: 0 <= k < |s| ==> IsDigit(s[k])
  }

  function DigitChar(d: nat): (c: char)
    requires d < 10
    ensures IsDigit(c) && c as int - '0' as int == d
  {
    (d + '0' as int) as char
  }

  function DigitValue(c: char): nat
    requires IsDigit(c)
  {
    c as int - '0' as int
  }

  /** The decimal digits of `n`, most significant first, without leading zeros. */
  function NatToString(n: nat): (s: string)
    ensures |s| >= 1 && AllDigits(s)
    ensures s[0] == '0' <==> n == 0
    ensures |s| > 1 ==> s[0] != '0'
    decreases n
  {
    if n < 10 then [DigitChar(n)] else NatToString(n / 10) + [DigitChar(n % 10)]
  }

  /** `String(i)` for an integer. */
  function IntToString(i: int): string {
    if i < 0 then "-" + NatToString(-i) else NatToString(i)
  }

  /** The number a string of decimal digits denotes. */
  function ParseDigits(s: string): nat
    requires AllDigits(s)
  {
    if s == [] then 0 else ParseDigits(s[..|s| - 1]) * 10 + DigitValue(s[|s| - 1])
  }

  /** Reads back what IntToString printed. */
  function ParseIntString(s: string): int
    requires |s| >= 1 && (s[0] == '-' ==> AllDigits(s[1..])) && (s[0] != '-' ==> AllDigits(s))
  {
    if s[0] == '-' then 0 - ParseDigits(s[1..]) else ParseDigits(s)
  }

  lemma {:induction false} ParseNatToString(n: nat)
    ensures ParseDigits(NatToString(n)) == n
    decreases n
  {
    if n >= 10 {
      var s := NatToString(n);
      assert s[..|s| - 1] == NatToString(n / 10);
      ParseNatToString(n / 10);
    }
  }

  /** Printing an integer in decimal and reading it back gives the integer. */
  lemma IntToStringRoundTrip(i: int)
    ensures var s := IntToString(i);
      |s| >= 1 && (s[0] == '-' ==> AllDigits(s[1..])) && (s[0] != '-' ==> AllDigits(s))
      && ParseIntString(s) == i
  {
    var s := IntToString(i);
    if i < 0 {
      assert s[1..] == NatToString(-i);
      ParseNatToString(-i);
    } else {
      assert IsDigit(s[0]);
      ParseNatToString(i);
    }
  }

  /** Distinct integers print differently. */
  lemma IntToStringInjective(i: int, j: int)
    requires i != j
    ensures IntToString(i) != IntToString(j)
  {
    IntToStringRoundTrip(i);
    IntToStringRoundTrip(j);
  }

  /** A canonical array-index key: decimal digits without a leading zero, as `String(k)` prints them. */
  predicate IsIndexKey(key: string) {
    |key| >= 1 && AllDigits(key) && (|key| > 1 ==> key[0] != '0')
  }

  /**
   * A string's `length` is its length, `String(k)` reads its k-th character
   * up to the end of the string and nothing beyond, and a key with a leading
   * zero reads nothing.
   */
  lemma PropOfString(s: string, k: nat, d: string)
    ensures Prop(Str(s), "length") == Int(|s|)
    ensures k < |s| ==> Prop(Str(s), IntToString(k)) == Str([s[k]])
    ensures k >= |s| ==> Prop(Str(s), IntToString(k)) == Undef
    ensures AllDigits(d) && d != [] ==> Prop(Str(s), "0" + d) == Undef
  {
    ParseNatToString(k);
    assert IsIndexKey(IntToString(k));
    assert !IsIndexKey("0" + d) || d == [];
  }

  /** `String(v)`. */
  function ToJsString(v: Value): string {
    match v
    case Null => "null"
    case Undef => "undefined"
    case Int(i) => IntToString(i)
    case Str(s) => s
    case Obj(_) => "[object Object]"
  }

  // ---------------------------------------------------------------------------
  // Case folding and string order

  function LowerChar(c: char): char {
    if 'A' <= c <= 'Z' then (c as int + 32) as char else c
  }

  /** `s.toLowerCase()` restricted to the ASCII letters. */
  function ToLower(s: string): (r: string)
    ensures |r| == |s|
    ensures forall k :: 0 <= k < |s| ==> r[k] == LowerChar(s[k])
  {
    seq(|s|, k requires 0 <= k < |s| => LowerChar(s[k]))
  }

  /**
   * Lower-casing leaves no ASCII capital behind, turns each capital into its
   * small letter, keeps every other character, and is idempotent.
   */
  lemma ToLowerSpec(s: string)
    ensures |ToLower(s)| == |s|
    ensures forall k :: 0 <= k < |s| ==> !('A' <= ToLower(s)[k] <= 'Z')
    ensures forall k :: 0 <= k < |s| && 'A' <= s[k] <= 'Z' ==> ToLower(s)[k] as int == s[k] as int + 'a' as int - 'A' as int
    ensures forall k :: 0 <= k < |s| && !('A' <= s[k] <= 'Z') ==> ToLower(s)[k] == s[k]
    ensures ToLower(ToLower(s)) == ToLower(s)
  {
  }

  /** JavaScript's `a < b` on strings: code-point lexicographic order, a proper prefix first. */
  predicate LexLess(a: string, b: string)
    decreases |a|
  {
    if |a| == 0 then |b| > 0
    else if |b| == 0 then false
    else if a[0] != b[0] then a[0] < b[0]
    else LexLess(a[1..], b[1..])
  }

  lemma {:induction false} LexLessIrreflexive(a: string)
    ensures !LexLess(a, a)
    decreases |a|
  {
    if |a| > 0 {
      LexLessIrreflexive(a[1..]);
    }
  }

  lemma {:induction false} LexLessAsymmetric(a: string, b: string)
    ensures LexLess(a, b) ==> !LexLess(b, a)
    decreases |a|
  {
    if |a| > 0 && |b| > 0 && a[0] == b[0] {
      LexLessAsymmetric(a[1..], b[1..]);
    }
  }

  /** Any two different strings are ordered one way or the other. */
  lemma {:induction false} LexLessTrichotomy(a: string, b: string)
    ensures a == b || LexLess(a, b) || LexLess(b, a)
    decreases |a|
  {
    if |a| > 0 && |b| > 0 && a[0] == b[0] {
      LexLessTrichotomy(a[1..], b[1..]);
      if a[1..] == b[1..] {
        assert a == [a[0]] + a[1..] && b == [b[0]] + b[1..];
      }
    }
  }

  lemma {:induction false} LexLessTransitive(a: string, b: string, c: string)
    requires LexLess(a, b) && LexLess(b, c)
    ensures LexLess(a, c)
    decreases |a|
  {
    if |a| > 0 && a[0] == b[0] && b[0] == c[0] {
      LexLessTransitive(a[1..], b[1..], c[1..]);
    }
  }

  // ---------------------------------------------------------------------------
  // Leading-integer parsing of CSS widths

  /**
   * The characters `parseInt` and `parseFloat` skip: white space (tab,
   * vertical tab, form feed, the byte order mark and the space separators of
   * Unicode category Zs) and the line terminators.
   */
  predicate IsSpace(c: char) {
    || c == '\t' || c == '\U{000B}' || c == '\U{000C}' || c == '\U{FEFF}'
    || c == '\n' || c == '\r' || c == '\U{2028}' || c == '\U{2029}'
    || c == ' ' || c == '\U{00A0}' || c == '\U{1680}' || ('\U{2000}' <= c <= '\U{200A}')
    || c == '\U{202F}' || c == '\U{205F}' || c == '\U{3000}'
  }

  /** `s` without its leading white space. */
  function SkipSpaces(s: string): string
  {
    if |s| > 0 && IsSpace(s[0]) then SkipSpaces(s[1..]) else s
  }

  /** The longest prefix of `s` made of decimal digits. */
  function DigitPrefix(s: string): string
  {
    if |s| > 0 && IsDigit(s[0]) then [s[0]] + DigitPrefix(s[1..]) else []
  }

  /** `DigitPrefix(s)` is a prefix of `s`, all digits, and cannot be extended by a digit. */
  lemma {:induction false} DigitPrefixIsLongest(s: string)
    ensures AllDigits(DigitPrefix(s)) && DigitPrefix(s) <= s
    ensures |DigitPrefix(s)| < |s| ==> !IsDigit(s[|DigitPrefix(s)|])
    decreases |s|
  {
    if |s| > 0 && IsDigit(s[0]) {
      DigitPrefixIsLongest(s[1..]);
      assert s == [s[0]] + s[1..];
    }
  }

  /**
   * The integer part that `parseFloat(s)` and `parseInt(s)` read: white space,
   * an optional sign, then at least one digit; None stands for NaN.
   */
  function ParseLeadingInt(s: string): Option<int> {
    var t := SkipSpaces(s);
    if |t| > 0 && (t[0] == '-' || t[0] == '+') then
      var d := DigitPrefix(t[1..]);
      DigitPrefixIsLongest(t[1..]);
      if d == [] then None
      else if t[0] == '-' then Some(0 - ParseDigits(d) as int)
      else Some(ParseDigits(d))
    else
      var d := DigitPrefix(t);
      DigitPrefixIsLongest(t);
      if d == [] then None else Some(ParseDigits(d))
  }

  lemma {:induction false} DigitPrefixOfDigits(d: string, unit: string)
    requires AllDigits(d)
    requires unit == [] || !IsDigit(unit[0])
    ensures DigitPrefix(d + unit) == d
    decreases |d|
  {
    if |d| > 0 {
      assert (d + unit)[1..] == d[1..] + unit;
      DigitPrefixOfDigits(d[1..], unit);
      assert d == [d[0]] + d[1..];
    }
  }

  lemma ParseUnsigned(s: string, d: string)
    requires |s| > 0 && IsDigit(s[0])
    requires DigitPrefix(s) == d && AllDigits(d)
    ensures ParseLeadingInt(s) == Some(ParseDigits(d))
  {
    assert SkipSpaces(s) == s;
  }

  lemma ParseNegative(s: string, rest: string, d: string)
    requires s == "-" + rest
    requires |rest| > 0 && IsDigit(rest[0])
    requires DigitPrefix(rest) == d && AllDigits(d)
    ensures ParseLeadingInt(s) == Some(0 - ParseDigits(d))
  {
    assert SkipSpaces(s) == s;
    assert s[1..] == rest;
  }

  lemma ParsePrintedNat(n: nat, unit: string)
    requires unit == [] || !IsDigit(unit[0])
    ensures ParseLeadingInt(NatToString(n) + unit) == Some(n)
  {
    var d := NatToString(n);
    var s := d + unit;
    assert IsDigit(s[0]);
    DigitPrefixOfDigits(d, unit);
    ParseNatToString(n);
    ParseUnsigned(s, d);
  }

  /** A negative integer prints as "-" and its magnitude; with a unit after it, the unit follows the digits. */
  lemma NegativeToString(i: int, unit: string)
    requires i < 0
    ensures IntToString(i) + unit == "-" + (NatToString(-i) + unit)
  {
    assert IntToString(i) == "-" + NatToString(-i);
  }

  lemma ParsePrintedNegative(i: int, unit: string)
    requires i < 0
    requires unit == [] || !IsDigit(unit[0])
    ensures ParseLeadingInt(IntToString(i) + unit) == Some(i)
  {
    var d := NatToString(-i);
    NegativeToString(i, unit);
    assert (d + unit)[0] == d[0];
    DigitPrefixOfDigits(d, unit);
    ParseNatToString(-i);
    assert 0 - ParseDigits(d) == i;
    ParseNegative(IntToString(i) + unit, d + unit, d);
  }

  /** A width written as a decimal integer followed by a unit, as in "80px", parses to that integer. */
  lemma ParseLeadingIntOfPrinted(n: int, unit: string)
    requires unit == [] || !IsDigit(unit[0])
    ensures ParseLeadingInt(IntToString(n) + unit) == Some(n)
  {
    if n < 0 {
      ParsePrintedNegative(n, unit);
    } else {
      ParsePrintedNat(n, unit);
    }
  }

  /** `s.replace(pat, rep)` with a string pattern: only the first occurrence is replaced. */
  function ReplaceFirst(s: string, pat: string, rep: string): string
    decreases |s|
  {
    if |pat| > |s| then s
    else if s[..|pat|] == pat then rep + s[|pat|..]
    else [s[0]] + ReplaceFirst(s[1..], pat, rep)
  }
}
