/** `getTargetRatio` (app.js): a preset ratio, or a custom `W:H` typed with a
    decimal comma or point. A JavaScript number is modelled as
    `Option<real>`, with `None` for NaN and the infinities. */
module Ratio {
  import opened Wrappers
  import opened Decimal

  /** The index of the first `c` in `s`, or `|s|` when there is none
      (`indexOf`, with `|s|` in place of -1). */
  function FirstIndex(s: string, c: char): (k: nat)
    ensures k <= |s|
    ensures k < |s| ==> s[k] == c
    ensures forall j :: 0 <= j < k ==> s[j] != c
  {
    if s == [] then 0 else if s[0] == c then 0 else 1 + FirstIndex(s[1..], c)
  }

  /** `s.replace(from, to)` with a one-character string pattern: only the
      first occurrence is replaced. */
  function ReplaceFirst(s: string, from: char, to: char): (r: string)
    ensures |r| == |s|
    ensures forall i :: 0 <= i < |s| ==> r[i] == if i == FirstIndex(s, from) then to else s[i]
    ensures from !in s ==> r == s
  {
    if s == [] then []
    else if s[0] == from then [to] + s[1..]
    else [s[0]] + ReplaceFirst(s[1..], from, to)
  }

  /** The number of digits `s` starts with. */
  function DigitRun(s: string): (n: nat)
    ensures n <= |s| && AllDigits(s[..n])
    ensures n < |s| ==> !IsDigit(s[n])
  {
    if s == [] || !IsDigit(s[0]) then 0
    else
      var n := 1 + DigitRun(s[1..]);
      assert s[..n] == [s[0]] + s[1..][..n - 1];
      n
  }

  /** The longest prefix `digits [ "." digits ]` holding at least one digit,
      read as a real; `None` when there is no such prefix (NaN). */
  function UnsignedDecimal(s: string): Option<real>
  {
    var i := DigitRun(s);
    if i < |s| && s[i] == '.' then
      var j := DigitRun(s[i + 1..]);
      if i == 0 && j == 0 then None
      else Some(DigitsValue(s[..i]) as real + FractionValue(s[i + 1..][..j]))
    else if i == 0 then None
    else Some(DigitsValue(s[..i]) as real)
  }

  /** `parseFloat(s)` for an optional sign followed by a decimal prefix; the
      rest of the string is ignored. */
  function ParseFloat(s: string): Option<real>
  {
    if |s| > 0 && s[0] == '-' then
      match UnsignedDecimal(s[1..])
      case None => None
      case Some(v) => Some(-v)
    else if |s| > 0 && s[0] == '+' then UnsignedDecimal(s[1..])
    else UnsignedDecimal(s)
  }

  /** Lines 30-33: none unless both sides are finite and the height is
      positive; then the ratio, which times the height gives the width. */
  function CustomRatio(w: Option<real>, h: Option<real>): (r: Option<real>)
    ensures r.Some? <==> w.Some? && h.Some? && h.value > 0.0
    ensures r.Some? ==> r.value * h.value == w.value
  {
    if w.None? || h.None? || h.value <= 0.0 then None else Some(w.value / h.value)
  }

  /** One custom field, `parseFloat(field.value.replace(',', '.'), 10)`. */
  function ParseCustomSide(text: string): Option<real>
  {
    ParseFloat(ReplaceFirst(text, ',', '.'))
  }

  /** `getTargetRatio()` for the `format` select's value and the two custom
      text fields: a preset is parsed as it is; a custom ratio exists exactly
      when both fields parse and the height is positive, and then it is
      width over height. */
  function GetTargetRatio(format: string, widthText: string, heightText: string): (r: Option<real>)
    ensures format != "custom" ==> r == ParseFloat(format)
    ensures format == "custom" ==> r == CustomRatio(ParseCustomSide(widthText), ParseCustomSide(heightText))
    ensures format == "custom" ==>
      (r.Some? <==> ParseCustomSide(widthText).Some? && ParseCustomSide(heightText).Some?
                    && ParseCustomSide(heightText).value > 0.0)
  {
    if format != "custom" then ParseFloat(format)
    else CustomRatio(ParseCustomSide(widthText), ParseCustomSide(heightText))
  }

  /** The callers' `!ratio` test, read positively: a ratio they go on with.
      NaN, null and 0 are turned away; a negative ratio is not. */
  predicate TruthyRatio(r: Option<real>)
  {
    r.Some? && r.value != 0.0
  }

  /** A digit run stops at the first non-digit. */
  lemma {:induction false} DigitRunOfDigits(a: string, t: string)
    requires AllDigits(a) && (t == [] || !IsDigit(t[0]))
    ensures DigitRun(a + t) == |a|
  {
    if a != [] {
      assert (a + t)[1..] == a[1..] + t;
      DigitRunOfDigits(a[1..], t);
    }
  }

  /** Only the first comma is changed: text before it has none. */
  lemma {:induction false} ReplaceFirstComma(a: string, b: string)
    requires ',' !in a
    ensures ReplaceFirst(a + "," + b, ',', '.') == a + "." + b
  {
    var s := a + "," + b;
    assert FirstIndex(s, ',') == |a| by {
      assert s[|a|] == ',';
      assert forall j :: 0 <= j < |a| ==> s[j] == a[j];
    }
    var r := ReplaceFirst(s, ',', '.');
    assert forall i :: 0 <= i < |s| ==> r[i] == (a + "." + b)[i];
  }

  /** The unsigned value of `digits "." digits` followed by text that is no
      digit. */
  lemma UnsignedPointDecimal(a: string, b: string, t: string)
    requires AllDigits(a) && AllDigits(b) && (a != [] || b != [])
    requires t == [] || !IsDigit(t[0])
    ensures UnsignedDecimal(a + "." + b + t) == Some(DigitsValue(a) as real + FractionValue(b))
  {
    var u := b + t;
    var s := a + ['.'] + u;
    assert a + "." + b + t == s;
    SplitAt(a, '.', u);
    DigitRunOfDigits(a, ['.'] + u);
    assert s == a + (['.'] + u);
    var i := DigitRun(s);
    DigitRunOfDigits(b, t);
    var j := DigitRun(s[i + 1..]);
    assert s[i + 1..][..j] == b by {
      assert s[i + 1..] == u;
      assert u[..|b|] == b;
    }
    assert i == |a| && s[..i] == a;
    UnsignedDecimalWithPoint(s, i, j, a, b);
  }

  /** The three parts of `a + [c] + u`. */
  lemma SplitAt(a: string, c: char, u: string)
    ensures var s := a + [c] + u; s[..|a|] == a && s[|a|] == c && s[|a| + 1..] == u
  {
  }

  /** One unfolding of `UnsignedDecimal` when a point follows the digits. */
  lemma UnsignedDecimalWithPoint(s: string, i: nat, j: nat, a: string, b: string)
    requires i == DigitRun(s) && i < |s| && s[i] == '.'
    requires j == DigitRun(s[i + 1..]) && (i != 0 || j != 0)
    requires a == s[..i] && b == s[i + 1..][..j]
    ensures AllDigits(a) && AllDigits(b)
    ensures UnsignedDecimal(s) == Some(DigitsValue(a) as real + FractionValue(b))
  {
  }

  /** The same, read by `parseFloat`: no sign comes first. */
  lemma ParsePointDecimal(a: string, b: string, t: string)
    requires AllDigits(a) && AllDigits(b) && (a != [] || b != [])
    requires t == [] || !IsDigit(t[0])
    ensures ParseFloat(a + "." + b + t) == Some(DigitsValue(a) as real + FractionValue(b))
  {
    UnsignedPointDecimal(a, b, t);
    var s := a + "." + b + t;
    if a == [] {
      assert s[0] == '.';
    } else {
      assert s[0] == a[0] && IsDigit(a[0]);
    }
  }

  /** The value of a digit string followed by text that is no digit and no
      point. */
  lemma ParseWholeDecimal(a: string, t: string)
    requires AllDigits(a) && a != []
    requires t == [] || (!IsDigit(t[0]) && t[0] != '.')
    ensures ParseFloat(a + t) == Some(DigitsValue(a) as real)
  {
    DigitRunOfDigits(a, t);
    assert (a + t)[..|a|] == a;
    assert IsDigit((a + t)[0]);
  }

  /** `parseFloat` reads back the decimal form of a whole number. */
  lemma ParseRenderedNat(n: nat)
    ensures ParseFloat(NatToString(n)) == Some(n as real)
  {
    ParseWholeDecimal(NatToString(n), []);
    assert NatToString(n) + [] == NatToString(n);
    NatToStringRoundTrip(n);
  }

  /** A decimal comma reads as a decimal point: "a,b" and "a.b" give the same
      number. */
  lemma CommaReadsAsPoint(a: string, b: string, t: string)
    requires AllDigits(a) && AllDigits(b) && (a != [] || b != [])
    requires t == [] || !IsDigit(t[0])
    ensures var v := Some(DigitsValue(a) as real + FractionValue(b));
      && ParseFloat(ReplaceFirst(a + "," + b + t, ',', '.')) == v
      && ParseFloat(a + "." + b + t) == v
  {
    assert a + "," + b + t == a + "," + (b + t);
    assert a + "." + b + t == a + "." + (b + t);
    assert ',' !in a by {
      assert forall i :: 0 <= i < |a| ==> IsDigit(a[i]);
    }
    ReplaceFirstComma(a, b + t);
    ParsePointDecimal(a, b, t);
  }

  /** Scaling both custom sides by the same positive factor keeps the
      ratio. */
  lemma CustomRatioScaleInvariant(w: real, h: real, k: real)
    requires k > 0.0
    ensures CustomRatio(Some(k * w), Some(k * h)) == CustomRatio(Some(w), Some(h))
  {
    if h > 0.0 {
      assert k * h > 0.0;
      assert (k * w) / (k * h) == w / h;
    } else {
      assert k * h <= 0.0;
    }
  }

  /** A width of 0 gives the ratio 0, which every caller's `!ratio` test
      rejects. */
  lemma ZeroWidth()
    ensures GetTargetRatio("custom", "0", "9") == Some(0.0)
    ensures !TruthyRatio(GetTargetRatio("custom", "0", "9"))
  {
    ParseRenderedNat(0);
    ParseRenderedNat(9);
    assert NatToString(0) == "0";
    assert NatToString(9) == "9";
  }

  /** A negative width gives a negative ratio, which passes every check. */
  lemma NegativeWidth()
    ensures GetTargetRatio("custom", "-16", "9") == Some(-16.0 / 9.0)
    ensures TruthyRatio(GetTargetRatio("custom", "-16", "9"))
  {
    ParseRenderedNat(9);
    ParseRenderedNat(16);
    assert NatToString(9) == "9";
    assert NatToString(16) == "16" by {
      assert NatToString(1) == "1";
    }
    assert "-16"[1..] == "16";
    assert ParseFloat("-16") == Some(-16.0);
  }
}
