/** `String.prototype.format`, the placeholder substitution every message of
    the validator is built with: each `{n}` in the template is replaced by
    argument `n` when there is one, and left as it is otherwise. */
module StringFormat {
  import opened JsString
  import opened JsNumber

  /** A digit string that names an array index: `"0"`, or digits without a
      leading zero (`args["01"]` is `undefined`). */
  predicate IsCanonicalIndex(d: string) {
    AllDigits(d) && (d[0] != '0' || d == "0")
  }

  /** The replacement for the placeholder whose digits are `d`. */
  function Argument(d: string, args: seq<string>): string
  {
    if IsCanonicalIndex(d) && ValueIn(d, 10) < |args| then args[ValueIn(d, 10)]
    else "{" + d + "}"
  }

  /** Substitutes the arguments into `t`, scanning left to right; substituted
      text is not scanned again. */
  function Format(t: string, args: seq<string>): (r: string)
    ensures '{' !in t ==> r == t
    decreases |t|
  {
    if |t| == 0 then ""
    else if t[0] == '{' then
      var k := DigitRun(t[1..], 10);
      if 0 < k && k + 1 < |t| && t[k + 1] == '}' then
        Argument(t[1..k + 1], args) + Format(t[k + 2..], args)
      else [t[0]] + Format(t[1..], args)
    else [t[0]] + Format(t[1..], args)
  }

  /** With no arguments every placeholder stays as written, so the
      template comes back unchanged. */
  lemma {:induction false} FormatNoArguments(t: string)
    ensures Format(t, []) == t
    decreases |t|
  {
    if |t| > 0 {
      var k := DigitRun(t[1..], 10);
      if t[0] == '{' && 0 < k && k + 1 < |t| && t[k + 1] == '}' {
        FormatNoArguments(t[k + 2..]);
        PlaceholderKept(t, k);
      } else {
        FormatNoArguments(t[1..]);
        CharKept(t);
      }
    }
  }

  /** A placeholder with no argument is put back as it was written. */
  lemma PlaceholderKept(t: string, k: nat)
    requires |t| > 0 && t[0] == '{'
    requires k == DigitRun(t[1..], 10) && 0 < k && k + 1 < |t| && t[k + 1] == '}'
    requires Format(t[k + 2..], []) == t[k + 2..]
    ensures Format(t, []) == t
  {
    var d, rest := t[1..k + 1], t[k + 2..];
    assert Format(t, []) == Argument(d, []) + rest;
    assert Argument(d, []) == "{" + d + "}";
    Bracketed(t, k);
  }

  lemma Bracketed(t: string, k: nat)
    requires k + 1 < |t|
    ensures t == [t[0]] + t[1..k + 1] + [t[k + 1]] + t[k + 2..]
  {
    assert t == t[..k + 2] + t[k + 2..];
    assert t[..k + 2] == t[..k + 1] + [t[k + 1]];
    assert t[..k + 1] == [t[0]] + t[1..k + 1];
  }

  /** A character that does not open a placeholder is copied. */
  lemma CharKept(t: string)
    requires |t| > 0
    requires !(t[0] == '{' && 0 < DigitRun(t[1..], 10) && DigitRun(t[1..], 10) + 1 < |t| && t[DigitRun(t[1..], 10) + 1] == '}')
    requires Format(t[1..], []) == t[1..]
    ensures Format(t, []) == t
  {
    assert Format(t, []) == [t[0]] + t[1..];
    assert t == [t[0]] + t[1..];
  }

  lemma FormatPlainChar(c: char, rest: string, args: seq<string>)
    requires c != '{'
    ensures Format([c] + rest, args) == [c] + Format(rest, args)
  {
    assert ([c] + rest)[1..] == rest;
  }

  lemma OneDigitArgument(n: nat, args: seq<string>)
    requires n < 10
    ensures Argument([DigitChar(n)], args)
         == if n < |args| then args[n] else ['{', DigitChar(n), '}']
  {
    assert [DigitChar(n)][..0] == [];
    assert ValueIn([DigitChar(n)], 10) == n;
  }

  lemma FormatLeadingPlaceholder(n: nat, q: string, args: seq<string>)
    requires n < 10
    ensures Format(['{', DigitChar(n), '}'] + q, args)
         == (if n < |args| then args[n] else ['{', DigitChar(n), '}']) + Format(q, args)
  {
    var t := ['{', DigitChar(n), '}'] + q;
    assert t[1..][0] == DigitChar(n);
    assert t[1..][1..][0] == '}';
    assert DigitRun(t[1..], 10) == 1;
    assert t[1..2] == [DigitChar(n)];
    assert t[3..] == q;
    OneDigitArgument(n, args);
  }

  /** The placeholder's replacement: its argument, or the placeholder itself. */
  function Slot(n: nat, args: seq<string>): string
    requires n < 10
  {
    if n < |args| then args[n] else ['{', DigitChar(n), '}']
  }

  lemma Reassociate(p: string, v: string, f: string)
    requires |p| > 0
    ensures [p[0]] + (p[1..] + v + f) == p + v + f
  {
    assert [p[0]] + p[1..] == p;
  }

  lemma PlaceholderStep(p: string, n: nat, q: string, args: seq<string>)
    requires |p| > 0 && p[0] != '{'
    requires n < 10
    requires Format(p[1..] + ['{', DigitChar(n), '}'] + q, args) == p[1..] + Slot(n, args) + Format(q, args)
    ensures Format(p + ['{', DigitChar(n), '}'] + q, args) == p + Slot(n, args) + Format(q, args)
  {
    var rest := p[1..] + ['{', DigitChar(n), '}'] + q;
    Reassociate(p, ['{', DigitChar(n), '}'], q);
    FormatPlainChar(p[0], rest, args);
    Reassociate(p, Slot(n, args), Format(q, args));
  }

  lemma EmptyPrefix(p: string, a: string, b: string)
    requires |p| == 0
    ensures p + a + b == a + b
  {
  }

  /** A one-digit placeholder after placeholder-free text: the text is kept,
      the placeholder becomes its argument (or stays when there is none), and
      formatting carries on after it. */
  lemma {:induction false} FormatPlaceholder(p: string, n: nat, q: string, args: seq<string>)
    requires '{' !in p
    requires n < 10
    ensures Format(p + ['{', DigitChar(n), '}'] + q, args) == p + Slot(n, args) + Format(q, args)
    decreases |p|
  {
    if |p| == 0 {
      EmptyPrefix(p, ['{', DigitChar(n), '}'], q);
      EmptyPrefix(p, Slot(n, args), Format(q, args));
      FormatLeadingPlaceholder(n, q, args);
    } else {
      FormatPlaceholder(p[1..], n, q, args);
      PlaceholderStep(p, n, q, args);
    }
  }
}
