/** Unsigned literals in filters: decimal numbers with an optional unit, converted in 64-bit arithmetic that wraps. */
module Literals {
  import opened Bits
  import opened Decimals

  const LIMIT: nat := 0x1_0000_0000_0000_0000

  /** What strtoull found: the value, the text behind it, and whether the value was out of its range. */
  datatype Parsed = Parsed(value: nat, rest: string, overflow: bool)

  predicate Proper(p: Parsed) { p.value < LIMIT }

  /** strtoull on a text of decimal digits, with no leading zero that would mean another base, and what follows. */
  function DecimalParsed(digits: string, rest: string): (p: Parsed)
    requires AllDigits(digits)
    ensures Proper(p)
  {
    var n := NumberOf(digits);
    if n >= LIMIT then Parsed(LIMIT - 1, rest, true) else Parsed(n, rest, false)
  }

  datatype Error = NoError | Invalid | Range

  datatype Scaled = Scaled(value: nat, end: string, err: Error)

  function GetUnit(unit: string): nat {
    if |unit| != 1 then 0
    else if unit[0] == 'k' || unit[0] == 'K' then 1000
    else if unit[0] == 'm' || unit[0] == 'M' then 1000 * 1000
    else if unit[0] == 'g' || unit[0] == 'G' then 1000 * 1000 * 1000
    else 0
  }

  /** The text behind the number without the one blank that may precede the unit. */
  function AfterBlank(rest: string): string {
    if rest != "" && rest[0] == ' ' then rest[1..] else rest
  }

  method Ff3Strtoull(valstr: string, p: Parsed) returns (r: Scaled)
    requires Proper(p)
    ensures r.value < LIMIT
    ensures p.overflow ==> r == Scaled(0, valstr, Range)
    ensures !p.overflow && p.rest == "" ==> r == Scaled(p.value, "", Sign(valstr))
    ensures !p.overflow && p.rest != "" ==>
      var unit := GetUnit(AfterBlank(p.rest));
      && r.end == (if unit == 0 then AfterBlank(p.rest) else "")
      && r.err == (if unit != 0 && p.value * unit >= LIMIT then Range else Sign(valstr))
      && (p.value * unit < LIMIT ==> r.value == p.value * unit)
  {
    hide GetUnit;
    var err := NoError;
    if valstr != "" && valstr[0] == '-' { err := Invalid; }
    if p.overflow { return Scaled(0, valstr, Range); }
    if p.rest == "" { return Scaled(p.value, "", err); }
    var endptr := p.rest;
    if endptr[0] == ' ' { endptr := endptr[1..]; }
    var mult := GetUnit(endptr);
    UnitEnds(endptr);
    if mult != 0 { endptr := endptr[1..]; }
    if mult != 0 {
      WrappedDivides(p.value, mult);
      if p.value * mult % LIMIT / mult != p.value { err := Range; }
    }
    r := Scaled(p.value * mult % LIMIT, endptr, err);
  }

  function Sign(valstr: string): Error { if valstr != "" && valstr[0] == '-' then Invalid else NoError }

  lemma UnitEnds(unit: string)
    ensures GetUnit(unit) != 0 ==> |unit| == 1 && unit[1..] == ""
  {
  }

  /** Multiplying with wrap-around and dividing back finds every overflow and nothing else. */
  lemma WrappedDivides(v: nat, mult: nat)
    requires v < LIMIT && mult >= 1
    ensures v * mult % LIMIT / mult != v <==> v * mult >= LIMIT
    ensures v * mult < LIMIT ==> v * mult % LIMIT == v * mult
  {
    var p := v * mult;
    var w := p % LIMIT;
    if p < LIMIT {
      assert w == p;
      assert p / mult == v by { Quotient(v, mult); }
    } else {
      assert w < p;
      Smaller(w, v, mult);
    }
  }

  lemma Quotient(v: nat, m: nat)
    requires m >= 1
    ensures v * m / m == v
  {
    assert v * m == m * v + 0;
    ModUnique(v * m, m, v, 0);
  }

  lemma Smaller(w: nat, v: nat, m: nat)
    requires m >= 1 && w < v * m
    ensures w / m < v
  {
    var q, r := w / m, w % m;
    assert w == m * q + r;
    if q >= v {
      Product(v, q, m);
      assert false;
    }
  }

  lemma Product(a: nat, b: nat, m: nat)
    requires a <= b
    ensures a * m <= m * b
  {
    assert (b - a) * m >= 0;
  }

  // ---- Conversion to a type ----

  datatype UnsignedType = UInt8 | UInt16 | UInt32 | UInt64

  function Width(t: UnsignedType): nat {
    match t case UInt8 => 0x100 case UInt16 => 0x1_0000 case UInt32 => 0x1_0000_0000 case UInt64 => LIMIT
  }

  function SaturateUint(num: nat, t: UnsignedType): (r: nat)
    requires num < LIMIT
    ensures r < Width(t) && (r == num <==> num < Width(t)) && (r != num ==> r == Width(t) - 1)
  {
    match t
    case UInt8 => if num > 0xff then 0xff else num
    case UInt16 => if num > 0xffff then 0xffff else num
    case UInt32 => if num > 0xffff_ffff then 0xffff_ffff else num
    case UInt64 => num
  }

  datatype Converted = Failed | Stored(value: nat)

  method StrToUint(str: string, p: Parsed, t: UnsignedType) returns (res: Converted)
    requires Proper(p)
    ensures res == Conversion(str, p, t)
  {
    hide GetUnit;
    var s := Ff3Strtoull(str, p);
    if s.err != NoError { return Failed; }
    if s.end != "" { return Failed; }
    var val := SaturateUint(s.value, t);
    if s.value != val { return Failed; }
    return Stored(s.value);
  }

  /** The outcome: a number behind which nothing or a unit stands must fit, scaled, into the type; a number followed by a
      lone blank is stored as zero; everything else fails. */
  function Conversion(str: string, p: Parsed, t: UnsignedType): Converted
    requires Proper(p)
  {
    var unit := GetUnit(AfterBlank(p.rest));
    if p.overflow || Sign(str) != NoError then Failed
    else if p.rest == "" then (if p.value < Width(t) then Stored(p.value) else Failed)
    else if unit != 0 then (if p.value * unit < Width(t) then Stored(p.value * unit) else Failed)
    else if p.rest == " " then Stored(0)
    else Failed
  }

  // ---- What a literal should mean ----

  /** The factor that a suffix denotes: none, a unit, or a blank and a unit; 0 for anything else. */
  function Factor(suffix: string): nat {
    if suffix == "" then 1
    else if |suffix| == 2 && suffix[0] == ' ' then GetUnit(suffix[1..])
    else GetUnit(suffix)
  }

  function Expected(digits: string, suffix: string, t: UnsignedType): Converted
    requires AllDigits(digits)
  {
    var n := NumberOf(digits) * Factor(suffix);
    if Factor(suffix) != 0 && n < Width(t) then Stored(n) else Failed
  }

  /** A text that strtoull reads as these decimal digits followed by the suffix. */
  predicate DecimalText(digits: string, suffix: string) {
    && digits != "" && AllDigits(digits)
    && (digits[0] == '0' ==> |digits| == 1 && (suffix != "" ==> suffix[0] != 'x' && suffix[0] != 'X'))
    && (suffix != "" ==> !IsDigit(suffix[0]))
  }

  /** A decimal literal converts to exactly the number it denotes, and fails exactly when that does not fit or the suffix
      is not a unit, unless the suffix is a lone blank: then a number that fits in 64 bits is accepted and becomes zero. */
  lemma LiteralAsExpectedIff(digits: string, suffix: string, t: UnsignedType)
    requires DecimalText(digits, suffix)
    ensures Conversion(digits + suffix, DecimalParsed(digits, suffix), t) == Expected(digits, suffix, t)
      <==> !(suffix == " " && NumberOf(digits) < LIMIT)
  {
    var n, unit := NumberOf(digits), Factor(suffix);
    assert (digits + suffix)[0] == digits[0] && IsDigit(digits[0]);
    if suffix != "" { BlankUnit(suffix); }
    if unit >= 1 { Product(1, unit, n); }
  }

  lemma BlankUnit(suffix: string)
    requires suffix != ""
    ensures suffix != " " ==> GetUnit(AfterBlank(suffix)) == Factor(suffix)
    ensures suffix == " " ==> GetUnit(AfterBlank(suffix)) == 0 && Factor(suffix) == 0
  {
  }

  /** "5 " is stored as 0. */
  lemma LoneBlankBecomesZero(t: UnsignedType)
    ensures Conversion("5 ", DecimalParsed("5", " "), t) == Stored(0) && Expected("5", " ", t) == Failed
  {
  }

  /** The value of a filter node for an unsigned field: a literal that does not convert is replaced by zero, since the
      callback that should map it accepts every text and writes nothing. */
  function NodeValue(str: string, p: Parsed): (n: nat)
    requires Proper(p)
    ensures n < LIMIT
  {
    var c := Conversion(str, p, UInt64);
    if c.Stored? then c.value else 0
  }

  /** A well-formed literal that fits means itself in a filter. */
  lemma NodeValueIsProduct(digits: string, suffix: string)
    requires DecimalText(digits, suffix) && Factor(suffix) != 0
    ensures NodeValue(digits + suffix, DecimalParsed(digits, suffix))
         == (if NumberOf(digits) * Factor(suffix) < LIMIT then NumberOf(digits) * Factor(suffix) else 0)
  {
    LiteralAsExpectedIff(digits, suffix, UInt64);
  }
}
