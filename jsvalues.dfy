/** JavaScript values as the event list uses them for identifiers: the id a
    record carries (a number or a string, as the JSON server sends it), the
    string an `id` attribute holds after `setAttribute` has stringified it,
    and the number `parseInt` reads back out of that string. */
module JsValues {
  import opened Options

  /** An identifier as a JavaScript value. Numbers are the integers a JSON
      server assigns; `NaN` is what `parseInt` returns when it finds no digit. */
  datatype JsId = Num(n: int) | Str(s: string) | NaN

  /** JavaScript `===` on identifiers: same type and same value, and `NaN`
      equal to nothing, itself included. */
  function StrictEquals(a: JsId, b: JsId): (r: bool)
    ensures r ==> a == b
    ensures a == b && !a.NaN? ==> r
    ensures a.NaN? || b.NaN? ==> !r
    ensures a.Num? && b.Str? ==> !r
  {
    !a.NaN? && a == b
  }

  // ---------------------------------------------------------------------
  // Stringification, as `setAttribute("id", value)` performs it

  function DigitChar(d: nat): (c: char)
    requires d < 10
    ensures '0' <= c <= '9'
    ensures DigitValue(c, 10) == Some(d)
  {
    (('0' as int) + d) as char
  }

  /** The decimal digits of `n`, most significant first, without leading zeros. */
  function NatToDecimal(n: nat): (r: string)
    ensures |r| > 0
    ensures forall k :: 0 <= k < |r| ==> '0' <= r[k] <= '9'
    ensures |r| > 1 ==> r[0] != '0'
  {
    if n < 10 then [DigitChar(n)] else NatToDecimal(n / 10) + [DigitChar(n % 10)]
  }

  /** `String(n)` for an integer: a minus sign exactly when `n` is negative,
      then the decimal digits of its magnitude. */
  function IntToDecimal(n: int): (r: string)
    ensures |r| > 0
    ensures r[0] == '-' <==> n < 0
    ensures forall k :: (if n < 0 then 1 else 0) <= k < |r| ==> '0' <= r[k] <= '9'
  {
    if n < 0 then "-" + NatToDecimal(-n) else NatToDecimal(n)
  }

  /** `String(id)`: the text an `id` attribute holds once a record's id has
      been written into it. */
  function ToAttr(id: JsId): (r: string)
    ensures id.Str? ==> r == id.s
    ensures id.Num? ==> |r| > 0 && (r[0] == '-' <==> id.n < 0)
    ensures id.Num? ==> forall k :: 0 < k < |r| ==> '0' <= r[k] <= '9'
    ensures id.NaN? ==> r == "NaN"
  {
    match id
    case Num(n) => IntToDecimal(n)
    case Str(s) => s
    case NaN => "NaN"
  }

  // ---------------------------------------------------------------------
  // parseInt(string) with no radix argument

  /** The characters `parseInt` skips at the start of its argument: the
      ECMAScript white space and line terminator code points. */
  predicate IsJsWhiteSpace(c: char) {
    c == '\t' || c == '\n' || c == '\U{000B}' || c == '\U{000C}' || c == '\r' ||
    c == ' ' || c == '\U{00A0}' || c == '\U{1680}' ||
    ('\U{2000}' <= c <= '\U{200A}') ||
    c == '\U{2028}' || c == '\U{2029}' || c == '\U{202F}' || c == '\U{205F}' ||
    c == '\U{3000}' || c == '\U{FEFF}'
  }

  function TrimStart(s: string): (r: string)
    ensures |r| <= |s| && r == s[|s| - |r|..]
    ensures r == [] || !IsJsWhiteSpace(r[0])
    ensures forall k :: 0 <= k < |s| - |r| ==> IsJsWhiteSpace(s[k])
  {
    if s != [] && IsJsWhiteSpace(s[0]) then TrimStart(s[1..]) else s
  }

  /** The value of `c` as a digit in base `radix` (10 or 16), if it is one. */
  function DigitValue(c: char, radix: nat): (r: Option<nat>)
    ensures r.Some? ==> r.value < radix
  {
    if '0' <= c <= '9' && (c as int) - ('0' as int) < radix then Some((c as int) - ('0' as int))
    else if radix == 16 && 'a' <= c <= 'f' then Some((c as int) - ('a' as int) + 10)
    else if radix == 16 && 'A' <= c <= 'F' then Some((c as int) - ('A' as int) + 10)
    else None
  }

  /** Length of the longest prefix of `s` made of base-`radix` digits. */
  function DigitRun(s: string, radix: nat): (k: nat)
    ensures k <= |s|
    ensures forall j :: 0 <= j < k ==> DigitValue(s[j], radix).Some?
    ensures k < |s| ==> DigitValue(s[k], radix).None?
  {
    if s != [] && DigitValue(s[0], radix).Some? then 1 + DigitRun(s[1..], radix) else 0
  }

  /** The number that the base-`radix` digits `s` denote. */
  function DigitsValue(s: string, radix: nat): nat
    requires forall j :: 0 <= j < |s| ==> DigitValue(s[j], radix).Some?
  {
    if s == [] then 0
    else DigitsValue(s[..|s| - 1], radix) * radix + DigitValue(s[|s| - 1], radix).value
  }

  /** The digits after the sign: base 16 after a `0x`/`0X` prefix, base 10
      otherwise; the value of the longest run of digits, or nothing when that
      run is empty. */
  function ParseUnsigned(u: string): Option<nat>
  {
    var hex := |u| >= 2 && u[0] == '0' && (u[1] == 'x' || u[1] == 'X');
    var radix := if hex then 16 else 10;
    var digits := if hex then u[2..] else u;
    var k := DigitRun(digits, radix);
    if k == 0 then None else Some(DigitsValue(digits[..k], radix))
  }

  /** The number an optional sign and a digit parse denote. */
  function Signed(negative: bool, v: Option<nat>): (r: JsId)
    ensures !r.Str?
  {
    match v
    case None => NaN
    case Some(n) => Num(if negative then -(n as int) else n)
  }

  /** What follows the white space: an optional `-` or `+`, then digits. */
  function ParseSigned(t: string): (r: JsId)
    ensures !r.Str?
  {
    if t != [] && t[0] == '-' then Signed(true, ParseUnsigned(t[1..]))
    else if t != [] && t[0] == '+' then Signed(false, ParseUnsigned(t[1..]))
    else Signed(false, ParseUnsigned(t))
  }

  /** `parseInt(s)`: skip leading white space, read an optional sign, then
      the digits; `NaN` when there are none. The result is never a string. */
  function ParseInt(s: string): (r: JsId)
    ensures !r.Str?
  {
    ParseSigned(TrimStart(s))
  }

  // ---------------------------------------------------------------------
  // Round trip and the two ways a row id is compared with a stored id

  lemma {:induction false} DecimalDigitsValue(n: nat)
    ensures DigitRun(NatToDecimal(n), 10) == |NatToDecimal(n)|
    ensures DigitsValue(NatToDecimal(n), 10) == n
  {
    var r := NatToDecimal(n);
    DigitRunAll(r, 10);
    if n >= 10 {
      var front, last := NatToDecimal(n / 10), DigitChar(n % 10);
      assert r == front + [last];
      DecimalDigitsValue(n / 10);
      assert r[..|r| - 1] == front;
      assert DigitsValue(r, 10) == DigitsValue(front, 10) * 10 + n % 10;
    }
  }

  lemma {:induction false} DigitRunAll(s: string, radix: nat)
    requires forall j :: 0 <= j < |s| ==> DigitValue(s[j], radix).Some?
    ensures DigitRun(s, radix) == |s|
  {
    if s != [] {
      DigitRunAll(s[1..], radix);
    }
  }

  lemma ParseUnsignedOfDecimal(m: nat)
    ensures ParseUnsigned(NatToDecimal(m)) == Some(m)
  {
    var d := NatToDecimal(m);
    DecimalDigitsValue(m);
    assert !(|d| >= 2 && d[0] == '0');
    assert d[..|d|] == d;
  }

  lemma TrimStartOfSignOrDigit(s: string)
    requires s != [] && (s[0] == '-' || '0' <= s[0] <= '9')
    ensures TrimStart(s) == s
  {
    assert !IsJsWhiteSpace(s[0]);
  }

  lemma ParseSignedOfNegative(m: nat)
    ensures ParseSigned("-" + NatToDecimal(m)) == Num(-(m as int))
  {
    var s := "-" + NatToDecimal(m);
    assert s[1..] == NatToDecimal(m);
    ParseUnsignedOfDecimal(m);
  }

  lemma ParseSignedOfNatural(m: nat)
    ensures ParseSigned(NatToDecimal(m)) == Num(m)
  {
    var s := NatToDecimal(m);
    assert '0' <= s[0] <= '9';
    ParseUnsignedOfDecimal(m);
  }

  /** `parseInt(String(n)) === n` for every integer id. */
  lemma ParseIntOfDecimal(n: int)
    ensures ParseInt(IntToDecimal(n)) == Num(n)
  {
    if n < 0 {
      var d := NatToDecimal(-n);
      var s := "-" + d;
      assert IntToDecimal(n) == s;
      assert s[0] == '-';
      TrimStartOfSignOrDigit(s);
      ParseSignedOfNegative(-n);
    } else {
      var s := NatToDecimal(n);
      assert IntToDecimal(n) == s;
      assert '0' <= s[0] <= '9';
      TrimStartOfSignOrDigit(s);
      ParseSignedOfNatural(n);
    }
  }

  /** A row's id attribute is `String(x)` for the stored id `x`. Deleting and
      saving compare `x` with that string itself; cancelling an edit compares
      `x` with `parseInt` of it. For every stored id exactly one of the two
      comparisons succeeds: the string one when `x` is a string, the numeric
      one when `x` is a number. */
  lemma StoredIdMatchesExactlyOnePath(x: JsId)
    requires !x.NaN?
    ensures StrictEquals(x, Str(ToAttr(x))) <==> x.Str?
    ensures StrictEquals(x, ParseInt(ToAttr(x))) <==> x.Num?
    ensures StrictEquals(x, Str(ToAttr(x))) != StrictEquals(x, ParseInt(ToAttr(x)))
  {
    if x.Num? {
      ParseIntOfDecimal(x.n);
    }
  }
}
