/** Column types, field values and the text-to-value conversions the statements use.

    A record field holds an `int`, a `float` or a `string`. The conversions model
    `std::stoi` (leading white space, an optional sign, the longest run of decimal
    digits, and a failure when there is no digit or the value does not fit in a
    32-bit `int`) and the plain-decimal subset of `std::stof`. */
module Values {
  import opened Common
  import Helper

  datatype ColType = IntType | FloatType | StringType

  /** A field value. FLOAT values are modelled as exact rationals. */
  datatype Value = IntV(i: int) | FloatV(f: real) | StrV(s: string)

  /** A record: its fields in column order. */
  datatype Record = Record(fields: seq<Value>)

  const INT_MIN: int := -0x8000_0000
  const INT_MAX: int := 0x7fff_ffff

  predicate IsInt32(x: int) {
    INT_MIN <= x <= INT_MAX
  }

  /** The type name a column stores. */
  function TypeName(t: ColType): string {
    match t
    case IntType => "INT"
    case FloatType => "FLOAT"
    case StringType => "STRING"
  }

  /** A CREATE column type, already upper-cased: only INT, FLOAT and STRING are accepted. */
  function ParseColType(s: string): (r: Option<ColType>)
    ensures r.Some? <==> (s == "INT" || s == "FLOAT" || s == "STRING")
    ensures r.Some? ==> TypeName(r.value) == s
  {
    if s == "INT" then Some(IntType)
    else if s == "FLOAT" then Some(FloatType)
    else if s == "STRING" then Some(StringType)
    else None
  }

  /** Type names and parsing are inverse. */
  lemma ParseTypeName(t: ColType)
    ensures ParseColType(TypeName(t)) == Some(t)
  {
  }

  predicate HasType(v: Value, t: ColType) {
    match t
    case IntType => v.IntV?
    case FloatType => v.FloatV?
    case StringType => v.StrV?
  }

  /** The number of decimal digits at the start of `s`. */
  function DigitRun(s: string): (n: nat)
    ensures n <= |s|
    ensures forall k :: 0 <= k < n ==> IsDigit(s[k])
    ensures n < |s| ==> !IsDigit(s[n])
  {
    if s != [] && IsDigit(s[0]) then 1 + DigitRun(s[1..]) else 0
  }

  /** The value of a string of decimal digits, most significant first. */
  function DigitsValue(ds: string): nat
    requires forall k :: 0 <= k < |ds| ==> IsDigit(ds[k])
  {
    if ds == [] then 0 else DigitsValue(ds[..|ds| - 1]) * 10 + DigitValue(ds[|ds| - 1])
  }

  /** Where the optional sign and the digits start, after the leading white space. */
  function SignEnd(s: string): (p: nat)
    ensures p <= |s|
  {
    var w := Helper.LeadingSpaces(s);
    if w < |s| && (s[w] == '-' || s[w] == '+') then w + 1 else w
  }

  predicate Negative(s: string) {
    var w := Helper.LeadingSpaces(s);
    w < |s| && s[w] == '-'
  }

  /** `std::stoi`: `None` stands for the `invalid_argument` and `out_of_range` exceptions. */
  function StoI(s: string): (r: Option<int>)
    ensures r.Some? ==> IsInt32(r.value)
    ensures r.Some? ==> DigitRun(s[SignEnd(s)..]) > 0
  {
    var p := SignEnd(s);
    var n := DigitRun(s[p..]);
    if n == 0 then None
    else
      var mag: int := DigitsValue(s[p..p + n]);
      var x: int := if Negative(s) then -mag else mag;
      if IsInt32(x) then Some(x) else None
  }

  /** The decimal digits of `n` (no sign, no leading zero except for 0 itself). */
  function Decimal(n: nat): (ds: string)
    ensures ds != []
    ensures forall k :: 0 <= k < |ds| ==> IsDigit(ds[k])
    ensures DigitsValue(ds) == n
  {
    var last := ['0' + (n % 10) as char];
    if n < 10 then last else
      var ds := Decimal(n / 10) + last;
      assert ds[..|ds| - 1] == Decimal(n / 10);
      ds
  }

  /** How an `int` is written: a minus sign for negative numbers, then its digits. */
  function ShowInt(x: int): string {
    if x < 0 then "-" + Decimal(-x) else Decimal(x)
  }

  /** No white space and no sign at the start of a digit string. */
  lemma DigitsHaveNoSpace(ds: string)
    requires ds != [] && forall k :: 0 <= k < |ds| ==> IsDigit(ds[k])
    ensures Helper.LeadingSpaces(ds) == 0 && ds[0] != '-' && ds[0] != '+'
  {
    assert IsDigit(ds[0]);
  }

  /** A run of digits is read in full. */
  lemma DigitRunOfDigits(ds: string)
    requires forall k :: 0 <= k < |ds| ==> IsDigit(ds[k])
    ensures DigitRun(ds) == |ds|
  {
    if ds != [] {
      assert IsDigit(ds[0]);
      DigitRunOfDigits(ds[1..]);
    }
  }

  /** How `stoi` sees a written-out integer: where its digits start, its sign, and its digits. */
  lemma ShowIntParts(x: int)
    ensures var s := ShowInt(x); var p := if x < 0 then 1 else 0; var ds := Decimal(if x < 0 then -x else x);
      SignEnd(s) == p && Negative(s) == (x < 0) && p + |ds| <= |s| && DigitRun(s[p..]) == |ds| && s[p..p + |ds|] == ds
  {
    var s := ShowInt(x);
    if x < 0 {
      var ds := Decimal(-x);
      assert s[0] == '-';
      assert Helper.LeadingSpaces(s) == 0;
      assert s[1..] == ds;
      DigitRunOfDigits(ds);
      assert s[1..1 + |ds|] == ds;
    } else {
      var ds := Decimal(x);
      DigitsHaveNoSpace(ds);
      assert s[0..] == ds;
      DigitRunOfDigits(ds);
      assert s[0..|ds|] == ds;
    }
  }

  /** `stoi` reads back every 32-bit `int` it is shown, and rejects every written-out
      integer outside the 32-bit range. */
  lemma StoIShowInt(x: int)
    ensures StoI(ShowInt(x)) == if IsInt32(x) then Some(x) else None
  {
    ShowIntParts(x);
  }

  /** A text without any digit after its white space and sign is rejected. */
  lemma StoIRejectsNoDigits(s: string)
    requires SignEnd(s) == |s| || !IsDigit(s[SignEnd(s)])
    ensures StoI(s) == None
  {
  }

  /** The value of a fraction digit string: `0.d1 d2 ...` */
  function FractionValue(ds: string): real
    requires forall k :: 0 <= k < |ds| ==> IsDigit(ds[k])
  {
    if ds == [] then 0.0 else (DigitValue(ds[0]) as real + FractionValue(ds[1..])) / 10.0
  }

  /** `std::stof` on plain decimal text: white space, an optional sign, digits with at most one
      decimal point and at least one digit. `None` stands for the `invalid_argument` exception. */
  function StoF(s: string): (r: Option<real>)
    ensures r.Some? ==> var p := SignEnd(s);
      p < |s| && (IsDigit(s[p]) || (s[p] == '.' && p + 1 < |s| && IsDigit(s[p + 1])))
  {
    var p := SignEnd(s);
    var n := DigitRun(s[p..]);
    var rest := s[p + n..];
    var m := if rest != [] && rest[0] == '.' then DigitRun(rest[1..]) else 0;
    if n == 0 && m == 0 then None
    else
      var mag := DigitsValue(s[p..p + n]) as real + (if m == 0 then 0.0 else FractionValue(rest[1..1 + m]));
      Some(if Negative(s) then -mag else mag)
  }

  /** `stof` reads a value exactly when a digit, or a point followed by a digit, comes after
      the white space and the sign. */
  lemma StoFAccepts(s: string)
    ensures var p := SignEnd(s);
      StoF(s).Some? <==> p < |s| && (IsDigit(s[p]) || (s[p] == '.' && p + 1 < |s| && IsDigit(s[p + 1])))
  {
    var p := SignEnd(s);
    if p < |s| && !IsDigit(s[p]) && s[p] == '.' && p + 1 < |s| && IsDigit(s[p + 1]) {
      assert DigitRun(s[p..]) == 0;
      assert s[p..][0..][1..][0] == s[p + 1];
    }
  }

  /** `stof` reads back every written-out integer as that number. */
  lemma StoFShowInt(x: int)
    ensures StoF(ShowInt(x)) == Some(x as real)
  {
    ShowIntParts(x);
  }

  /** Reading a field value of type `t` from text, as INSERT and UPDATE do:
      INT through `stoi`, FLOAT through `stof`, STRING verbatim. */
  function Coerce(s: string, t: ColType): (r: Option<Value>)
    ensures r.Some? ==> HasType(r.value, t)
    ensures t == StringType ==> r == Some(StrV(s))
    ensures t == IntType ==> (r.Some? <==> StoI(s).Some?) && (r.Some? ==> r.value == IntV(StoI(s).value))
    ensures t == FloatType ==> (r.Some? <==> StoF(s).Some?) && (r.Some? ==> r.value == FloatV(StoF(s).value))
  {
    match t
    case IntType => if StoI(s).Some? then Some(IntV(StoI(s).value)) else None
    case FloatType => if StoF(s).Some? then Some(FloatV(StoF(s).value)) else None
    case StringType => Some(StrV(s))
  }

  /** An INT field written out and read back as an INT is the same value. */
  lemma CoerceShowInt(x: int)
    requires IsInt32(x)
    ensures Coerce(ShowInt(x), IntType) == Some(IntV(x))
  {
    StoIShowInt(x);
  }
}
