/**
 * Integer and text helpers shared by the archives and the date conversions:
 * C/C++ division (which truncates toward zero), fixed-width integer types and
 * `static_cast` between them, the decimal text that `Convert::ToString` and
 * `printf("%d")` produce, and the target and value kinds a scope loads into.
 */
module Numbers {

  // ---------------------------------------------------------------------------
  // C++ integer division and remainder (truncating toward zero)
  // ---------------------------------------------------------------------------

  /** `a / b` as C++ computes it for a positive divisor: the quotient is truncated toward zero. */
  function CDiv(a: int, b: int): (q: int)
    requires b > 0
    ensures a >= 0 ==> q == a / b
    ensures a < 0 ==> q <= 0 && b * q >= a && b * q - a < b
  {
    if a >= 0 then a / b else -((-a) / b)
  }

  /** `a % b` as C++ computes it: the remainder takes the sign of the dividend. */
  function CMod(a: int, b: int): (r: int)
    requires b > 0
    ensures a == b * CDiv(a, b) + r
    ensures a >= 0 ==> 0 <= r < b
    ensures a < 0 ==> -b < r <= 0
  {
    a - b * CDiv(a, b)
  }

  /** Multiplying by a non-negative number keeps the order. */
  lemma MulMonotone(a: int, b: int, k: int)
    requires a <= b && k >= 0
    ensures a * k <= b * k
  {
    assert b * k - a * k == (b - a) * k;
  }

  /** Floor division by a positive number keeps the order. */
  lemma DivMonotone(a: int, b: int, n: int)
    requires a <= b && n > 0
    ensures a / n <= b / n
  {
    if a / n > b / n {
      MulMonotone(b / n + 1, a / n, n);
    }
  }

  /** Truncation never rounds below the floor. */
  lemma CDivAtLeastFloor(a: int, b: int)
    requires b > 0
    ensures CDiv(a, b) >= a / b
  {
    if a < 0 {
      var q := CDiv(a, b);
      var f := a / b;
      assert b * f <= a <= b * q;
    }
  }

  // ---------------------------------------------------------------------------
  // Decimal text
  // ---------------------------------------------------------------------------

  predicate IsDigit(c: char) { '0' <= c <= '9' }

  function DigitChar(d: nat): (c: char)
    requires d < 10
    ensures IsDigit(c) && c as int - '0' as int == d
  {
    (d + '0' as int) as char
  }

  function DigitValue(c: char): (d: nat)
    requires IsDigit(c)
    ensures d < 10
  {
    c as int - '0' as int
  }

  /** The shortest decimal text of `n`, as `Convert::ToString` and `printf("%d")` write a non-negative number. */
  function NatToString(n: nat): (s: string)
    ensures |s| >= 1
    ensures forall i :: 0 <= i < |s| ==> IsDigit(s[i])
    ensures n < 10 <==> |s| == 1
    decreases n
  {
    if n < 10 then [DigitChar(n)] else NatToString(n / 10) + [DigitChar(n % 10)]
  }

  /** The value of a run of decimal digits, most significant first. */
  function DecimalValue(s: string): (n: nat)
    requires forall i :: 0 <= i < |s| ==> IsDigit(s[i])
    decreases |s|
  {
    if s == [] then 0 else 10 * DecimalValue(s[..|s| - 1]) + DigitValue(s[|s| - 1])
  }

  /** Reading the digits back gives the number: `NatToString` loses nothing. */
  lemma {:induction false} DecimalValueOfNatToString(n: nat)
    ensures DecimalValue(NatToString(n)) == n
    decreases n
  {
    var s := NatToString(n);
    if n >= 10 {
      DecimalValueOfNatToString(n / 10);
      assert s[..|s| - 1] == NatToString(n / 10);
    }
  }

  /** Different numbers have different decimal texts. */
  lemma NatToStringInjective(m: nat, n: nat)
    requires NatToString(m) == NatToString(n)
    ensures m == n
  {
    DecimalValueOfNatToString(m);
    DecimalValueOfNatToString(n);
  }

  /** `printf("%0*d", width, n)`: the decimal text of `n`, zero padded on the left to `width` characters; a negative number keeps its '-' in front of the padding. */
  function ZeroPad(n: int, width: nat): (s: string)
    ensures |s| >= width
    ensures n >= 0 ==> (forall i :: 0 <= i < |s| ==> IsDigit(s[i]))
    ensures n < 0 ==> |s| >= 2 && s[0] == '-'
  {
    if n < 0 then
      var digits := NatToString(-n);
      ['-'] + Zeros(if width > |digits| + 1 then width - 1 - |digits| else 0) + digits
    else
      var digits := NatToString(n);
      Zeros(if width > |digits| then width - |digits| else 0) + digits
  }

  function Zeros(k: nat): (s: string)
    ensures |s| == k && forall i :: 0 <= i < k ==> s[i] == '0'
  {
    if k == 0 then [] else Zeros(k - 1) + ['0']
  }

  /** A run of '0' characters in front of a number does not change its value. */
  lemma {:induction false} DecimalValueLeadingZeros(k: nat, s: string)
    requires forall i :: 0 <= i < |s| ==> IsDigit(s[i])
    ensures forall i :: 0 <= i < |Zeros(k) + s| ==> IsDigit((Zeros(k) + s)[i])
    ensures DecimalValue(Zeros(k) + s) == DecimalValue(s) + DecimalValue(Zeros(k)) * Pow10(|s|)
    ensures DecimalValue(Zeros(k)) == 0
    decreases |s|, k
  {
    var z := Zeros(k);
    if s == [] {
      assert z + s == z;
      if k > 0 {
        DecimalValueLeadingZeros(k - 1, []);
        assert z[..|z| - 1] == Zeros(k - 1);
        assert Zeros(k - 1) + [] == Zeros(k - 1);
      }
    } else {
      var init := s[..|s| - 1];
      DecimalValueLeadingZeros(k, init);
      assert (z + s)[..|z + s| - 1] == z + init;
    }
  }

  function Pow10(k: nat): (p: nat)
    ensures p >= 1
  {
    if k == 0 then 1 else 10 * Pow10(k - 1)
  }

  /** A zero-padded non-negative number reads back as itself. */
  lemma DecimalValueOfZeroPad(n: nat, width: nat)
    ensures DecimalValue(ZeroPad(n, width)) == n
  {
    var digits := NatToString(n);
    var k := if width > |digits| then width - |digits| else 0;
    DecimalValueLeadingZeros(k, digits);
    DecimalValueOfNatToString(n);
  }

  /** The decimal text of a signed number, as `Convert::ToString` writes it. */
  function IntToString(n: int): (s: string)
    ensures |s| >= 1
    ensures n < 0 <==> s[0] == '-'
  {
    if n < 0 then ['-'] + NatToString(-n) else NatToString(n)
  }

  // ---------------------------------------------------------------------------
  // Fixed-width integers
  // ---------------------------------------------------------------------------

  /** A C++ integral type other than `bool`: its signedness and width in bits. */
  datatype IntType = IntType(signed: bool, bits: nat)

  predicate ValidIntType(t: IntType) {
    t.bits == 8 || t.bits == 16 || t.bits == 32 || t.bits == 64
  }

  const Int32 := IntType(true, 32)
  const Int64 := IntType(true, 64)
  const UInt64 := IntType(false, 64)

  function Pow2(k: nat): (p: nat)
    ensures p >= 1
  {
    if k == 0 then 1 else 2 * Pow2(k - 1)
  }

  function MinOf(t: IntType): int {
    if t.signed && t.bits > 0 then -(Pow2(t.bits - 1) as int) else 0
  }

  function MaxOf(t: IntType): int {
    if t.signed && t.bits > 0 then Pow2(t.bits - 1) - 1 else Pow2(t.bits) - 1
  }

  /** The range of a 32-bit `int`. */
  lemma Int32Range()
    ensures MinOf(Int32) == -2147483648 && MaxOf(Int32) == 2147483647
  {
    assert Pow2(1) == 2;
    Pow2Add(1, 1);
    Pow2Add(2, 2);
    Pow2Add(4, 4);
    Pow2Add(8, 8);
    Pow2Add(16, 8);
    Pow2Add(24, 4);
    Pow2Add(28, 2);
    Pow2Add(30, 1);
  }

  /** Powers of two multiply by adding their exponents. */
  lemma {:induction false} Pow2Add(a: nat, b: nat)
    ensures Pow2(a + b) == Pow2(a) * Pow2(b)
  {
    if a > 0 {
      Pow2Add(a - 1, b);
    }
  }

  /** A number that fits in an `int` is left as it is by `static_cast<int>`. */
  lemma WrapInt32Small(i: int)
    requires -2147483648 <= i <= 2147483647
    ensures Wrap(i, Int32) == i
  {
    Int32Range();
  }

  /** `i` is representable in `t`. */
  predicate InRange(i: int, t: IntType) {
    MinOf(t) <= i <= MaxOf(t)
  }

  /** `static_cast<T>(i)` between integral types: two's-complement wrap-around modulo 2^bits. */
  function Wrap(i: int, t: IntType): (r: int)
    ensures InRange(r, t)
    ensures InRange(i, t) ==> r == i
  {
    var p := Pow2(t.bits);
    var m := i % p;
    ModOfSmall(i, p);
    if t.signed && t.bits > 0 then
      var h := Pow2(t.bits - 1);
      assert p == 2 * h;
      if m > h - 1 then m - p else m
    else
      m
  }

  /** Euclidean division is determined by its quotient and remainder. */
  lemma DivModUnique(a: int, n: int, q: int, r: int)
    requires n > 0 && a == n * q + r && 0 <= r < n
    ensures a / n == q && a % n == r
  {
    var q2, r2 := a / n, a % n;
    assert n * (q - q2) == r2 - r;
    if q > q2 {
      MulAtLeast(n, q - q2);
    } else if q < q2 {
      MulAtLeast(n, q2 - q);
    }
  }

  lemma MulAtLeast(n: int, k: int)
    requires n > 0 && k >= 1
    ensures n * k >= n
  {
  }

  /** Adding a multiple of `n` does not change the remainder modulo `n`. */
  lemma ModAddMultiple(a: int, n: int, k: int)
    requires n > 0
    ensures (a + n * k) % n == a % n
  {
    DivModUnique(a + n * k, n, a / n + k, a % n);
  }

  /** Euclidean `%` leaves a number in [0, p) alone and moves one in [-p, 0) up by p. */
  lemma ModOfSmall(i: int, p: int)
    requires p > 0
    ensures 0 <= i < p ==> i % p == i
    ensures -p <= i < 0 ==> i % p == i + p
  {
    if 0 <= i < p {
      assert i / p == 0;
    } else if -p <= i < 0 {
      assert i / p == -1;
    }
  }

  // ---------------------------------------------------------------------------
  // Floating point payload
  // ---------------------------------------------------------------------------

  /**
   * A `double`, kept as the exact value mantissa * 2^exponent. Rounding,
   * infinities and NaN are not modelled; the archives only move a double
   * from one place to another, except where a non-integral JSON number is
   * read into an integer (a C++ conversion that truncates toward zero).
   */
  datatype Double = Double(mantissa: int, exponent: int)

  /** The double's value truncated toward zero. */
  function Truncate(d: Double): int {
    if d.exponent >= 0 then d.mantissa * Pow2(d.exponent)
    else CDiv(d.mantissa, Pow2(-d.exponent))
  }

  /** The double that holds the integer `i` exactly. */
  function FromInt(i: int): (d: Double)
    ensures Truncate(d) == i
  {
    Double(i, 0)
  }

  // ---------------------------------------------------------------------------
  // What a scope loads into and saves from
  // ---------------------------------------------------------------------------

  /** The C++ type of the field being serialized: a fundamental type or a string. */
  datatype Target = BoolTarget | IntTarget(t: IntType) | FloatTarget | NullTarget | StringTarget

  /** The value held by such a field. */
  datatype Value = BoolVal(b: bool) | IntVal(i: int) | FloatVal(d: Double) | NullVal | StrVal(s: string)

  /** `v` is a value a field of type `target` can hold. */
  predicate HasType(v: Value, target: Target) {
    match target
    case BoolTarget => v.BoolVal?
    case IntTarget(t) => v.IntVal? && InRange(v.i, t)
    case FloatTarget => v.FloatVal?
    case NullTarget => v.NullVal?
    case StringTarget => v.StrVal?
  }

  predicate ValidTarget(target: Target) {
    target.IntTarget? ==> ValidIntType(target.t)
  }

  // ---------------------------------------------------------------------------
  // Options and error codes
  // ---------------------------------------------------------------------------

  datatype SerializeMode = Load | Save

  /** What to do when a number does not fit the target field. */
  datatype OverflowNumberPolicy = ThrowError | Skip

  /** What to do when the stored kind cannot be converted to the target field at all. */
  datatype MismatchedTypesPolicy = ThrowOnMismatch | SkipMismatch

  datatype SerializationOptions = SerializationOptions(
    overflowNumberPolicy: OverflowNumberPolicy,
    mismatchedTypesPolicy: MismatchedTypesPolicy)

  /** The `SerializationErrorCode`s a scope raises, and the standard exception a failed `std::get` raises. */
  datatype ErrorCode = OutOfRange | MismatchedTypes | Overflow | UnsupportedEncoding | BadVariantAccess

  // ---------------------------------------------------------------------------
  // Loading one field
  // ---------------------------------------------------------------------------

  /**
   * What loading one field gives: the value stored into the field (the
   * call returns `true`), nothing (the call returns `false` and the field
   * keeps its value), an exception, or a failed assertion of the JSON
   * library on what the caller asked of it (RapidJson's `RAPIDJSON_ASSERT`:
   * a debug build stops there, a release build reads bits the call was
   * not entitled to).
   */
  datatype LoadResult<T> = Loaded(v: T) | NotLoaded | Thrown(code: ErrorCode) | AssertionFailed

  /** A number that does not fit the target: an Overflow error, or a skipped field. */
  function Overflowed<T>(policy: OverflowNumberPolicy): LoadResult<T> {
    if policy == ThrowError then Thrown(Overflow) else NotLoaded
  }

  /** A stored kind the target cannot take at all: a MismatchedTypes error, or a skipped field. */
  function Mismatched<T>(policy: MismatchedTypesPolicy): LoadResult<T> {
    if policy == ThrowOnMismatch then Thrown(MismatchedTypes) else NotLoaded
  }

  /**
   * `SafeNumberCast` from an integer (or a `bool`, as 0 or 1) into an
   * integral field. The cast itself is not part of this model; it is taken
   * to store every value the field's type can hold and to apply the
   * overflow policy to every other, `bool` holding 0 and 1.
   */
  function SafeIntCast(i: int, target: Target, policy: OverflowNumberPolicy): (r: LoadResult<Value>)
    requires target.BoolTarget? || target.IntTarget?
    ensures r.Loaded? ==> HasType(r.v, target)
  {
    if target.BoolTarget? then
      if 0 <= i <= 1 then Loaded(BoolVal(i == 1)) else Overflowed(policy)
    else if InRange(i, target.t) then Loaded(IntVal(i))
    else Overflowed(policy)
  }

  /** Taking a remainder modulo a multiple of `a` first does not change the remainder modulo `a`. */
  lemma ModMod(i: int, a: int, b: int)
    requires a > 0 && b > 0
    ensures (i % (a * b)) % a == i % a
  {
    var q := i / (a * b);
    var r := i % (a * b);
    assert i == a * (b * q) + r;
    ModAddMultiple(r, a, b * q);
  }

  /** Two's-complement wrap-around depends only on the remainder modulo 2^bits. */
  lemma WrapOfMod(i: int, j: int, t: IntType)
    requires i % Pow2(t.bits) == j % Pow2(t.bits)
    ensures Wrap(i, t) == Wrap(j, t)
  {
  }

  /** Wrap-around keeps the remainder modulo 2^bits. */
  lemma WrapMod(i: int, t: IntType)
    ensures Wrap(i, t) % Pow2(t.bits) == i % Pow2(t.bits)
  {
    var p := Pow2(t.bits);
    var m := i % p;
    ModOfSmall(m, p);
    ModAddMultiple(m - p, p, 1);
  }

  /**
   * Casting through a 32-bit `int` first (as `static_cast<T>(as_integer())`
   * does) gives the same value as casting directly, for every target type
   * no wider than 32 bits.
   */
  lemma WrapThroughInt32(i: int, t: IntType)
    requires t.bits <= 32
    ensures Wrap(Wrap(i, Int32), t) == Wrap(i, t)
  {
    var p := Pow2(t.bits);
    var q := Pow2(32 - t.bits);
    Pow2Add(t.bits, 32 - t.bits);
    assert Pow2(32) == p * q;
    var w := Wrap(i, Int32);
    WrapMod(i, Int32);
    assert w % (p * q) == i % (p * q);
    ModMod(w, p, q);
    ModMod(i, p, q);
    WrapOfMod(w, i, t);
  }
}
