/** The typed-value model of `value.hpp`: the closed sum of six scalar kinds,
    the textual decoders of `default_value_parser`, the `type_name` labels and
    `to_string` rendering. `std::type_info` is replaced by the `Kind` tag. */
module Values {
  import opened Wrappers
  import opened CharConv

  /** The six alternatives of the `value` variant, standing for the
      `std::type_info` of the bound variable's canonical type. */
  datatype Kind = Bool | Int64 | UInt64 | Double | Str | Path

  /** The bit pattern of an IEEE binary64 number. Floating-point arithmetic is
      not modelled; a `double` is carried around without being inspected. */
  type Float64 = bv64

  /** `std::variant<bool, int64_t, uint64_t, double, std::string, fs::path>`. */
  datatype Value =
    | BoolV(b: bool)
    | Int64V(i: i64)
    | UInt64V(u: u64)
    | DoubleV(d: Float64)
    | StrV(s: string)
    | PathV(p: string)

  /** The active alternative of a value. */
  function KindOf(v: Value): Kind {
    match v
    case BoolV(_) => Bool
    case Int64V(_) => Int64
    case UInt64V(_) => UInt64
    case DoubleV(_) => Double
    case StrV(_) => Str
    case PathV(_) => Path
  }

  /** Why a token could not be decoded. `Custom` carries the text of an error
      produced by a caller-supplied value parser. */
  datatype DecodeError =
    | BadBool
    | BadNumber(kind: Kind)
    | NumberOutOfRange(kind: Kind)
    | TrailingCharacters(kind: Kind)
    | Custom(msg: string)

  /** The error text the default value parser returns. */
  function Message(e: DecodeError): string {
    match e
    case BadBool => "bad value (boolean)"
    case BadNumber(k) => "bad value (" + TypeName(k) + ")"
    case NumberOutOfRange(k) => "bad value (" + TypeName(k) + " out of range)"
    case TrailingCharacters(k) => "bad value (trailing characters in " + TypeName(k) + ")"
    case Custom(msg) => msg
  }

  /** `parse_as<bool>`: three literal spellings for each truth value,
      compared case-sensitively. */
  function ParseBool(s: string): (r: Result<bool, DecodeError>)
    ensures r.Ok? <==> s in {"true", "on", "yes", "false", "off", "no"}
    ensures r.Ok? ==> (r.value <==> s in {"true", "on", "yes"})
    ensures r.Err? ==> r.error == BadBool
  {
    if s == "true" || s == "on" || s == "yes" then Ok(true)
    else if s == "false" || s == "off" || s == "no" then Ok(false)
    else Err(BadBool)
  }

  /** The error ladder shared by `parse_as<int64_t>`, `parse_as<uint64_t>` and
      `parse_as<double>`: invalid first, then out of range, then trailing
      characters after the number. */
  function Ladder<T>(r: FromCharsResult<T>, len: nat, k: Kind): (d: Result<T, DecodeError>)
    ensures d.Ok? <==> r.Parsed? && r.end == len
    ensures d.Ok? ==> d.value == r.value
    ensures d == Err(BadNumber(k)) <==> r.Invalid?
    ensures d == Err(NumberOutOfRange(k)) <==> r.OutOfRange?
    ensures d == Err(TrailingCharacters(k)) <==> r.Parsed? && r.end != len
  {
    match r
    case Invalid => Err(BadNumber(k))
    case OutOfRange(_) => Err(NumberOutOfRange(k))
    case Parsed(v, end) => if end != len then Err(TrailingCharacters(k)) else Ok(v)
  }

  /** The body `parse_as<int64_t>` and `parse_as<uint64_t>` share: base-10
      `from_chars` into the target, then the error ladder. */
  function IntegerDecode(s: string, signed: bool): (r: Result<int, DecodeError>)
    ensures r.Ok? <==> IsDecimal(s, signed) && InRange(DecimalValue(s, signed), signed)
    ensures r.Ok? ==> r.value == DecimalValue(s, signed)
  {
    var fc := FromChars(s, signed);
    WholeDecimal(s, signed, fc);
    Ladder(fc, |s|, if signed then Int64 else UInt64)
  }

  /** `parse_as<int64_t>`. */
  function ParseInt64(s: string): (r: Result<i64, DecodeError>)
    ensures r.Ok? <==> IsDecimal(s, true) && InRange(DecimalValue(s, true), true)
    ensures r.Ok? ==> r.value == DecimalValue(s, true)
  {
    match IntegerDecode(s, true)
    case Ok(v) => Ok(v)
    case Err(e) => Err(e)
  }

  /** `parse_as<uint64_t>`: no sign is accepted at all. */
  function ParseUInt64(s: string): (r: Result<u64, DecodeError>)
    ensures r.Ok? <==> IsDecimal(s, false) && InRange(DecimalValue(s, false), false)
    ensures r.Ok? ==> r.value == DecimalValue(s, false)
  {
    match IntegerDecode(s, false)
    case Ok(v) => Ok(v)
    case Err(e) => Err(e)
  }

  /** `from_chars` read the whole of `s` exactly when `s` is one number. */
  lemma WholeDecimal(s: string, signed: bool, fc: FromCharsResult<int>)
    requires fc == FromChars(s, signed)
    ensures (fc.Parsed? && fc.end == |s|) <==> IsDecimal(s, signed) && InRange(DecimalValue(s, signed), signed)
    ensures fc.Parsed? && fc.end == |s| ==> fc.value == DecimalValue(s, signed)
  {
    assert s[..|s|] == s;
  }

  /** Floating-point decoding and rendering, which the model does not
      describe: `from_chars` into a `double` and `std::to_string(double)`. */
  datatype FloatCodec = FloatCodec(
    fromChars: string -> FromCharsResult<Float64>,
    render: Float64 -> string)

  /** `parse_as<double>`: the shared error ladder over the floating-point
      `from_chars`. */
  function ParseDouble(s: string, fc: FloatCodec): (r: Result<Float64, DecodeError>)
    ensures r.Ok? <==> fc.fromChars(s).Parsed? && fc.fromChars(s).end == |s|
    ensures r.Ok? ==> r.value == fc.fromChars(s).value
    ensures r == Err(BadNumber(Double)) <==> fc.fromChars(s).Invalid?
    ensures r == Err(NumberOutOfRange(Double)) <==> fc.fromChars(s).OutOfRange?
    ensures r == Err(TrailingCharacters(Double)) <==> fc.fromChars(s).Parsed? && fc.fromChars(s).end != |s|
  {
    Ladder(fc.fromChars(s), |s|, Double)
  }

  /** `default_value_parser::parse`: decode a token as the requested kind. */
  function Decode(s: string, k: Kind, fc: FloatCodec): (r: Result<Value, DecodeError>)
    ensures r.Ok? ==> KindOf(r.value) == k
    ensures k == Str ==> r == Ok(StrV(s))
    ensures k == Path ==> r == Ok(PathV(s))
    ensures k == Bool ==>
      && (r.Ok? <==> s in {"true", "on", "yes", "false", "off", "no"})
      && (r.Ok? ==> r.value == BoolV(s in {"true", "on", "yes"}))
      && (r.Err? ==> r.error == BadBool)
    ensures k == Int64 ==>
      && (r.Ok? <==> IsDecimal(s, true) && InRange(DecimalValue(s, true), true))
      && (r.Ok? ==> r.value.Int64V? && r.value.i == DecimalValue(s, true))
      && (r.Err? ==> ParseInt64(s).Err? && r.error == ParseInt64(s).error)
    ensures k == UInt64 ==>
      && (r.Ok? <==> IsDecimal(s, false) && InRange(DecimalValue(s, false), false))
      && (r.Ok? ==> r.value.UInt64V? && r.value.u == DecimalValue(s, false))
      && (r.Err? ==> ParseUInt64(s).Err? && r.error == ParseUInt64(s).error)
    ensures k == Double ==>
      && (r.Ok? <==> fc.fromChars(s).Parsed? && fc.fromChars(s).end == |s|)
      && (r.Ok? ==> r.value == DoubleV(fc.fromChars(s).value))
      && (r.Err? ==> ParseDouble(s, fc).Err? && r.error == ParseDouble(s, fc).error)
  {
    match k
    case Bool =>
      (match ParseBool(s) case Ok(b) => Ok(BoolV(b)) case Err(e) => Err(e))
    case Int64 =>
      (match ParseInt64(s) case Ok(i) => Ok(Int64V(i)) case Err(e) => Err(e))
    case UInt64 =>
      (match ParseUInt64(s) case Ok(u) => Ok(UInt64V(u)) case Err(e) => Err(e))
    case Double =>
      (match ParseDouble(s, fc) case Ok(d) => Ok(DoubleV(d)) case Err(e) => Err(e))
    case Str => Ok(StrV(s))
    case Path => Ok(PathV(s))
  }

  /** A value parser, the `Vp` template argument of `parser::parse`: a token
      and the target kind in, a value or an error out. */
  type Decoder = (string, Kind) -> Result<Value, DecodeError>

  /** `default_value_parser` as a `Decoder`. */
  function DefaultDecoder(fc: FloatCodec): Decoder {
    (s: string, k: Kind) => Decode(s, k, fc)
  }

  /** A decoder that honours its contract: every value it produces has the
      kind it was asked for. */
  ghost predicate KindRespecting(dec: Decoder) {
    forall s, k :: dec(s, k).Ok? ==> KindOf(dec(s, k).value) == k
  }

  /** `type_name(const std::type_info&)`: the label of a kind in error
      messages. */
  function TypeName(k: Kind): (r: string)
    ensures k == Bool ==> r == "boolean" && AlternativeName(k) == "bool"
    ensures r == AlternativeName(k) <==> k != Bool
  {
    match k
    case Bool => "boolean"
    case Int64 => "int64"
    case UInt64 => "uint64"
    case Double => "double"
    case Path => "path"
    case Str => "string"
  }

  /** `value_type<T>::name`, which `type_name<T>()` and
      `type_name(const value&)` return. */
  function AlternativeName(k: Kind): string {
    match k
    case Bool => "bool"
    case Int64 => "int64"
    case UInt64 => "uint64"
    case Double => "double"
    case Str => "string"
    case Path => "path"
  }

  /** `type_name(const value&)`: the label of a value's active alternative. */
  function ValueTypeName(v: Value): (r: string)
    ensures v.BoolV? ==> r == "bool"
    ensures !v.BoolV? ==> r == TypeName(KindOf(v))
  {
    AlternativeName(KindOf(v))
  }

  /** `to_string(const value&)`. */
  function Render(v: Value, fc: FloatCodec): (r: string)
    ensures v.BoolV? ==> (r == "true" || r == "false") && (r == "true" <==> v.b)
    ensures v.Int64V? ==> IsDecimal(r, true) && DecimalValue(r, true) == v.i
    ensures v.Int64V? ==> (r[0] == '-' <==> v.i < 0)
    ensures v.UInt64V? ==> IsDecimal(r, false) && DecimalValue(r, false) == v.u
    ensures v.Int64V? || v.UInt64V? ==> var d := if r[0] == '-' then r[1..] else r; |d| > 1 ==> d[0] != '0'
    ensures v.StrV? ==> r == v.s
    ensures v.PathV? ==> r == v.p
  {
    match v
    case BoolV(b) => if b then "true" else "false"
    case Int64V(i) => if i < 0 then "-" + ToDecimal(-(i as int)) else ToDecimal(i)
    case UInt64V(u) => ToDecimal(u)
    case DoubleV(d) => fc.render(d)
    case StrV(s) => s
    case PathV(p) => p
  }

  // ---------------------------------------------------------------------
  // Properties of the value model

  /** Every kind has its own label: the labels can be told apart in an
      error message. */
  lemma TypeNamesDistinct(k1: Kind, k2: Kind)
    ensures TypeName(k1) == TypeName(k2) <==> k1 == k2
    ensures AlternativeName(k1) == AlternativeName(k2) <==> k1 == k2
  {
  }

  /** A decoder that returns only what it was asked for: the default one. */
  lemma DefaultDecoderRespectsKind(fc: FloatCodec)
    ensures KindRespecting(DefaultDecoder(fc))
  {
    forall s, k | DefaultDecoder(fc)(s, k).Ok?
      ensures KindOf(DefaultDecoder(fc)(s, k).value) == k
    {
      assert DefaultDecoder(fc)(s, k) == Decode(s, k, fc);
    }
  }

  /** Decoding the rendering of a value gives the value back, for every kind
      but `double`. */
  lemma {:induction false} RoundTrip(v: Value, fc: FloatCodec)
    requires !v.DoubleV?
    ensures Decode(Render(v, fc), KindOf(v), fc) == Ok(v)
  {
    match v
    case BoolV(b) =>
    case Int64V(i) =>
      var s := Render(v, fc);
      if i < 0 {
        var d := ToDecimal(-(i as int));
        assert s[1..] == d;
        assert !IsDigit(s[0]);
      }
      assert IsDecimal(s, true) && DecimalValue(s, true) == i;
    case UInt64V(u) =>
    case StrV(_) =>
    case PathV(_) =>
  }

  /** A spelling of a number with no superfluous characters: no leading zero
      and no `-0`. */
  predicate Canonical(s: string) {
    || (|s| > 0 && AllDigits(s) && (|s| > 1 ==> s[0] != '0'))
    || (|s| > 1 && s[0] == '-' && AllDigits(s[1..]) && s[1] != '0')
  }

  /** A canonical digit string is the decimal rendering of its value. */
  lemma {:induction false} CanonicalDigits(t: string)
    requires |t| > 0 && AllDigits(t) && (|t| > 1 ==> t[0] != '0')
    ensures ToDecimal(DigitsValue(t)) == t
    decreases |t|
  {
    if |t| > 1 {
      var init := t[..|t| - 1];
      LeadingDigitPositive(init);
      CanonicalDigits(init);
      var n := DigitsValue(t);
      assert n / 10 == DigitsValue(init) && n % 10 == DigitValue(t[|t| - 1]);
      assert ToDecimal(n) == ToDecimal(n / 10) + [DigitChar(n % 10)];
    } else {
      assert DigitChar(DigitValue(t[0])) == t[0];
    }
  }

  /** A digit string that does not start with `0` has a positive value. */
  lemma {:induction false} LeadingDigitPositive(t: string)
    requires |t| > 0 && AllDigits(t) && t[0] != '0'
    ensures DigitsValue(t) > 0
    decreases |t|
  {
    if |t| > 1 {
      LeadingDigitPositive(t[..|t| - 1]);
    }
  }

  /** Rendering a decoded integer reproduces the token exactly when the token
      was spelled canonically; `007`, `-0` and `+7` do not survive. */
  lemma DecodeThenRender(s: string, fc: FloatCodec)
    requires ParseInt64(s).Ok?
    ensures Render(Int64V(ParseInt64(s).value), fc) == s <==> Canonical(s)
  {
    var v := ParseInt64(s).value;
    if s[0] == '-' {
      assert !AllDigits(s) by { assert !IsDigit(s[0]); }
      var t := s[1..];
      if Canonical(s) {
        assert DigitsValue(t) > 0 by { LeadingDigitPositive(t); }
        CanonicalDigits(t);
        assert "-" + t == s;
      }
    } else {
      if Canonical(s) {
        CanonicalDigits(s);
      }
    }
  }

  /** The number `from_chars` reads from the front of `s` ends at `e`:
      the longest prefix that is a number. */
  predicate NumberPrefix(s: string, e: nat, signed: bool) {
    0 < e <= |s| && IsDecimal(s[..e], signed) && (e < |s| ==> !IsDigit(s[e]))
  }

  /** A string has at most one longest number prefix. */
  lemma NumberPrefixUnique(s: string, e1: nat, e2: nat, signed: bool)
    requires NumberPrefix(s, e1, signed) && NumberPrefix(s, e2, signed)
    ensures e1 == e2
  {
    if e1 < e2 {
      assert s[..e2][e1] == s[e1];
      NumberPrefixDigit(s[..e2], e1, signed);
    } else if e2 < e1 {
      assert s[..e1][e2] == s[e2];
      NumberPrefixDigit(s[..e1], e2, signed);
    }
  }

  /** Inside a number, every character after the first is a digit. */
  lemma NumberPrefixDigit(t: string, i: nat, signed: bool)
    requires IsDecimal(t, signed) && 0 < i < |t|
    ensures IsDigit(t[i])
  {
    if !AllDigits(t) {
      assert t[1..][i - 1] == t[i];
    }
  }

  /** The integer decoders report the first failure of a fixed sequence:
      no number at the front of the token at all, else a number that does not
      fit, else characters left after the number. So `99999999999999999999x`
      is out of range, not trailing garbage. */
  lemma IntegerErrorPrecedence(s: string, signed: bool)
    ensures var k := if signed then Int64 else UInt64;
      && (IntegerDecode(s, signed) == Err(BadNumber(k))
          <==> forall e :: 0 < e <= |s| ==> !IsDecimal(s[..e], signed))
      && (IntegerDecode(s, signed) == Err(NumberOutOfRange(k))
          <==> exists e: nat :: NumberPrefix(s, e, signed) && !InRange(DecimalValue(s[..e], signed), signed))
      && (IntegerDecode(s, signed) == Err(TrailingCharacters(k))
          <==> exists e: nat :: NumberPrefix(s, e, signed) && InRange(DecimalValue(s[..e], signed), signed) && e < |s|)
  {
    var fc := FromChars(s, signed);
    if !fc.Invalid? {
      assert NumberPrefix(s, fc.end, signed);
      forall e | NumberPrefix(s, e, signed)
        ensures e == fc.end
      {
        NumberPrefixUnique(s, e, fc.end, signed);
      }
    }
  }

  /** `uint64` decoding turns down any token that starts with `-`, as not a
      number at all. */
  lemma UnsignedRejectsMinus(s: string)
    requires |s| > 0 && s[0] == '-'
    ensures ParseUInt64(s) == Err(BadNumber(UInt64))
  {
    IntegerErrorPrecedence(s, false);
    forall e | 0 < e <= |s|
      ensures !IsDecimal(s[..e], false)
    {
      assert s[..e][0] == '-';
    }
  }
}
