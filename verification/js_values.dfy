/**
 * The JavaScript values that polygon ids and layer ids take in the editor, with
 * the three comparisons the reducers use on them: strict equality (`===`, also
 * used by `Array.prototype.indexOf`), loose equality (`==`) and the `Number(v)`
 * conversion, plus `Math.round`.
 */
module JsValues {

  /** A primitive JavaScript value; `Num` is a finite number, `NaN` is the number NaN. */
  datatype JsValue =
    | Undefined
    | Null
    | Num(x: real)
    | NaN
    | Str(s: string)

  predicate IsNumber(v: JsValue) {
    v.Num? || v.NaN?
  }

  /** `typeof v === 'number'` and `v` is a mathematically whole number. */
  predicate IsWholeNumber(v: JsValue) {
    v.Num? && v.x.Floor as real == v.x
  }

  /** `a === b`: same type and same value; NaN equals nothing, not even itself. */
  predicate StrictEquals(a: JsValue, b: JsValue) {
    match (a, b)
    case (Undefined, Undefined) => true
    case (Null, Null) => true
    case (Num(x), Num(y)) => x == y
    case (Str(s), Str(t)) => s == t
    case _ => false
  }

  /**
   * `a == b` (the abstract equality comparison) on these values: `null` and
   * `undefined` equal each other, a string compared with a number is first
   * converted with `Number`, otherwise as `===`.
   */
  predicate LooseEquals(a: JsValue, b: JsValue) {
    match (a, b)
    case (Undefined, Null) => true
    case (Null, Undefined) => true
    case (Str(s), Num(_)) => StrictEquals(StringToNumber(s), b)
    case (Num(_), Str(t)) => StrictEquals(a, StringToNumber(t))
    case _ => StrictEquals(a, b)
  }

  /** JavaScript truthiness: `undefined`, `null`, `0`, `NaN` and `""` are falsy. */
  predicate Truthy(v: JsValue) {
    match v
    case Undefined => false
    case Null => false
    case Num(x) => x != 0.0
    case NaN => false
    case Str(s) => s != ""
  }

  /** `Number(v)`. */
  function ToNumber(v: JsValue): (r: JsValue)
    ensures IsNumber(r)
    ensures IsNumber(v) ==> r == v
  {
    match v
    case Undefined => NaN
    case Null => Num(0.0)
    case Num(_) => v
    case NaN => NaN
    case Str(s) => StringToNumber(s)
  }

  /** `Math.round(v)`: the nearest integer, halves rounded up; NaN for what is not a number. */
  function MathRound(v: JsValue): (r: JsValue)
    ensures ToNumber(v).NaN? <==> r.NaN?
    ensures ToNumber(v).Num? ==> r.Num? && r.x == r.x.Floor as real
                                 && r.x - 0.5 <= ToNumber(v).x < r.x + 0.5
  {
    var n := ToNumber(v);
    if n.Num? then Num((n.x + 0.5).Floor as real) else NaN
  }

  // ----- strings to numbers -----

  predicate IsDigit(c: char) {
    '0' <= c <= '9'
  }

  predicate IsDigits(s: string) {
    forall i :: 0 <= i < |s| ==> IsDigit(s[i])
  }

  /** The value of a string of decimal digits, most significant first. */
  function DigitsValue(s: string): nat
    requires IsDigits(s)
  {
    if s == [] then 0
    else DigitsValue(s[..|s| - 1]) * 10 + (s[|s| - 1] as int - '0' as int)
  }

  function Pow10(n: nat): (r: nat)
    ensures r > 0
  {
    if n == 0 then 1 else 10 * Pow10(n - 1)
  }

  /** Index of the first '.' in `s`, or `|s|` when there is none. */
  function DotIndex(s: string): (k: nat)
    ensures k <= |s|
    ensures k < |s| ==> s[k] == '.'
    ensures forall i :: 0 <= i < k ==> s[i] != '.'
  {
    if s == [] then 0
    else if s[0] == '.' then 0
    else 1 + DotIndex(s[1..])
  }

  /** Digits with an optional fraction part (`12`, `12.`, `.5`, `12.5`); NaN otherwise. */
  function UnsignedDecimal(s: string): (r: JsValue)
    ensures IsNumber(r)
    ensures r.Num? ==> forall i :: 0 <= i < |s| ==> IsDigit(s[i]) || s[i] == '.'
    ensures |s| > 0 && IsDigits(s) ==> r == Num(DigitsValue(s) as real)
  {
    var k := DotIndex(s);
    assert IsDigits(s) ==> k == |s| && s[..k] == s;
    var whole := s[..k];
    var frac := if k < |s| then s[k + 1..] else "";
    if |whole| + |frac| > 0 && IsDigits(whole) && IsDigits(frac) then
      Num(DigitsValue(whole) as real + DigitsValue(frac) as real / Pow10(|frac|) as real)
    else
      NaN
  }

  function Negate(v: JsValue): JsValue {
    if v.Num? then Num(-v.x) else v
  }

  /**
   * `Number(s)` for a string: the empty string is 0, an optional sign followed by
   * a decimal number is that number, anything else is NaN.
   */
  function StringToNumber(s: string): (r: JsValue)
    ensures IsNumber(r)
    ensures s == "" ==> r == Num(0.0)
    ensures |s| > 0 && IsDigits(s) ==> r == Num(DigitsValue(s) as real)
    ensures |s| > 1 && s[0] == '-' && IsDigits(s[1..]) ==> r == Num(-(DigitsValue(s[1..]) as real))
    ensures r.Num? ==> forall i :: 0 <= i < |s| ==> IsDigit(s[i]) || s[i] == '.' || (i == 0 && (s[i] == '-' || s[i] == '+'))
  {
    if s == "" then Num(0.0)
    else if s[0] == '-' then Negate(UnsignedDecimal(s[1..]))
    else if s[0] == '+' then UnsignedDecimal(s[1..])
    else UnsignedDecimal(s)
  }

  // ----- numbers to strings (`String(n)` for whole numbers) -----

  function DigitChar(d: nat): (c: char)
    requires d < 10
    ensures IsDigit(c) && c as int - '0' as int == d
  {
    ('0' as int + d) as char
  }

  function NatToDecimal(n: nat): (s: string)
    ensures |s| > 0 && IsDigits(s)
  {
    if n < 10 then [DigitChar(n)] else NatToDecimal(n / 10) + [DigitChar(n % 10)]
  }

  /** `String(n)` for a whole number `n`, e.g. the `polygon_id` attribute the editing form carries. */
  function IntToDecimal(n: int): string {
    if n < 0 then "-" + NatToDecimal(-n) else NatToDecimal(n)
  }

  lemma {:induction false} DigitsValueOfDecimal(n: nat)
    ensures DigitsValue(NatToDecimal(n)) == n
  {
    if n >= 10 {
      var s := NatToDecimal(n / 10);
      var t := NatToDecimal(n);
      assert t == s + [DigitChar(n % 10)];
      assert t[..|t| - 1] == s;
      DigitsValueOfDecimal(n / 10);
    }
  }

  lemma DotIndexOfDigits(s: string)
    requires IsDigits(s)
    ensures DotIndex(s) == |s|
  {
  }

  /** The digits of `n` read back as an unsigned decimal are `n`. */
  lemma UnsignedDecimalOfDigits(m: nat)
    ensures UnsignedDecimal(NatToDecimal(m)) == Num(m as real)
  {
    var digits := NatToDecimal(m);
    DigitsValueOfDecimal(m);
    DotIndexOfDigits(digits);
    assert digits[..|digits|] == digits;
  }

  /** `Number(String(n)) === n` for every whole number `n`. */
  lemma DecimalRoundTrip(n: int)
    ensures StringToNumber(IntToDecimal(n)) == Num(n as real)
  {
    var m: nat := if n < 0 then -n else n;
    var digits := NatToDecimal(m);
    UnsignedDecimalOfDigits(m);
    if n < 0 {
      assert IntToDecimal(n)[1..] == digits;
    } else {
      assert IsDigit(digits[0]);
    }
  }

  /**
   * A persisted polygon id `n` and the text `String(n)` that the editing form
   * hands back compare equal under `==` but not under `===`.
   */
  lemma LooseMatchOfIdText(n: int)
    ensures LooseEquals(Num(n as real), Str(IntToDecimal(n)))
    ensures !StrictEquals(Num(n as real), Str(IntToDecimal(n)))
  {
    DecimalRoundTrip(n);
  }

  /** `Math.round(v) === v` holds exactly for whole numbers. */
  lemma MathRoundFixedIffWhole(v: JsValue)
    ensures StrictEquals(MathRound(v), v) <==> IsWholeNumber(v)
  {
    if v.Num? {
      if IsWholeNumber(v) {
        assert (v.x + 0.5).Floor == v.x.Floor;
      }
    }
  }

  // ----- Array.prototype.indexOf -----

  /** `xs.indexOf(v)`: the first index whose element is `=== v`, or -1. */
  function IndexOf(xs: seq<JsValue>, v: JsValue): (r: int)
    ensures -1 <= r < |xs|
    ensures r == -1 <==> forall i :: 0 <= i < |xs| ==> !StrictEquals(xs[i], v)
    ensures r >= 0 ==> StrictEquals(xs[r], v) && forall i :: 0 <= i < r ==> !StrictEquals(xs[i], v)
  {
    if xs == [] then -1
    else if StrictEquals(xs[0], v) then 0
    else
      var r := IndexOf(xs[1..], v);
      if r == -1 then -1 else r + 1
  }
}
