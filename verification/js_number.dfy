/** Integer text conversions: `Number.prototype.toString` for the ids and
    line numbers the program prints, and `parseInt` for the radius field. */
module JsNumber {
  import opened JsString

  /** A JavaScript integer-valued number, or `NaN`. */
  datatype Num = NaN | Int(value: int)

  function DigitChar(d: nat): (c: char)
    requires d < 10
    ensures IsDigit(c)
  {
    ('0' as int + d) as char
  }

  /** Value of an alphanumeric character as a digit: 0-9, then a/A = 10 up to z/Z = 35. */
  function DigitValue(c: char): nat
  {
    if IsDigit(c) then c as int - '0' as int
    else if IsLower(c) then c as int - 'a' as int + 10
    else if IsUpper(c) then c as int - 'A' as int + 10
    else 36
  }

  predicate IsRadixDigit(c: char, radix: nat) {
    DigitValue(c) < radix
  }

  /** Value of a string of radix-`radix` digits, most significant first. */
  function ValueIn(s: string, radix: nat): nat
  {
    if |s| == 0 then 0
    else ValueIn(s[..|s| - 1], radix) * radix + DigitValue(s[|s| - 1])
  }

  /** Length of the longest prefix of `s` made of radix-`radix` digits. */
  function DigitRun(s: string, radix: nat): (k: nat)
    ensures k <= |s|
    ensures forall i :: 0 <= i < k ==> IsRadixDigit(s[i], radix)
    ensures k < |s| ==> !IsRadixDigit(s[k], radix)
  {
    if |s| > 0 && IsRadixDigit(s[0], radix) then 1 + DigitRun(s[1..], radix) else 0
  }

  /** Decimal text of a non-negative integer, as `n.toString()` prints it. */
  function NatToString(n: nat): (r: string)
    ensures AllDigits(r)
    ensures r[0] == '0' ==> r == "0"
    ensures ValueIn(r, 10) == n
  {
    if n < 10 then [DigitChar(n)]
    else
      var r := NatToString(n / 10) + [DigitChar(n % 10)];
      assert r[..|r| - 1] == NatToString(n / 10);
      r
  }

  /** `parseInt(s)` with no radix: leading whitespace and one sign are
      skipped, a `0x`/`0X` prefix switches to hexadecimal, and the longest
      digit prefix is read; no digits at all gives `NaN`. */
  function ParseInt(s: string): (r: Num)
    ensures r.Int? ==> exists i :: 0 <= i < |s| && IsRadixDigit(s[i], 16)
  {
    var t := s[LeadingSpace(s)..];
    var negative := |t| > 0 && t[0] == '-';
    var u := if |t| > 0 && (t[0] == '-' || t[0] == '+') then t[1..] else t;
    var hex := |u| >= 2 && u[0] == '0' && (u[1] == 'x' || u[1] == 'X');
    var radix := if hex then 16 else 10;
    var body := if hex then u[2..] else u;
    var k := DigitRun(body, radix);
    if k == 0 then NaN
    else
      assert IsRadixDigit(body[0], 16);
      var magnitude: int := ValueIn(body[..k], radix);
      Int(if negative then -magnitude else magnitude)
  }

  /** Decimal digits alone are read as their decimal value: no blank, no
      sign and no `0x` prefix is there to change the reading. */
  lemma ParseIntDigits(s: string)
    requires AllDigits(s)
    ensures ParseInt(s) == Int(ValueIn(s, 10))
  {
    assert LeadingSpace(s) == 0;
    assert s[0..] == s;
    assert DigitRun(s, 10) == |s| by {
      DigitRunAll(s, 10);
    }
    assert s[..|s|] == s;
  }

  /** Reading back the decimal text of a number gives the number: the
      timeline's `unique_id` strings parse back to the ids they were made from. */
  lemma ParseIntNatToString(n: nat)
    ensures ParseInt(NatToString(n)) == Int(n)
  {
    ParseIntDigits(NatToString(n));
  }

  lemma DigitRunAll(s: string, radix: nat)
    requires forall i :: 0 <= i < |s| ==> IsRadixDigit(s[i], radix)
    ensures DigitRun(s, radix) == |s|
  {
  }

  /** Text with a non-digit first character (after any blanks and sign) is `NaN`. */
  lemma ParseIntNoDigits(s: string)
    requires forall i :: 0 <= i < |s| ==> !IsDigit(s[i])
    ensures ParseInt(s) == NaN
  {
  }
}
