/**
 * The field validators (`validators.h`). Each is asked, after a field has
 * been loaded or saved, about the field's final value and whether a value
 * was present, and answers nothing (the field passes) or a message. They
 * read the value and never change it; here that is the signature: a
 * function of the value.
 *
 * `Range` is a template over any ordered type; it is modelled over
 * integers. `MinSize` and `MaxSize` look only at `value.size()`, so they
 * are given the size.
 */
module Validators {
  import opened Wrappers
  import opened Numbers

  /** A validator and the thresholds fixed when it was constructed. */
  datatype Validator =
    | Required
    | Range(min: int, max: int)
    | MinSize(minSize: nat)
    | MaxSize(maxSize: nat)

  /** What a field offers a validator: a number to compare, or something with a `size()`. */
  datatype Subject = Number(value: int) | Sized(size: nat)

  /** The combinations that compile: `Range` needs a comparable value, the size validators a `size()`. */
  predicate AppliesTo(v: Validator, x: Subject) {
    match v
    case Required => true
    case Range(_, _) => x.Number?
    case MinSize(_) => x.Sized?
    case MaxSize(_) => x.Sized?
  }

  const RequiredMessage: string := "This field is required"

  function RangeMessage(min: int, max: int): string {
    "Value must be between " + IntToString(min) + " and " + IntToString(max)
  }

  function MinSizeMessage(minSize: nat): string {
    "The minimum size of this field should be " + NatToString(minSize) + "."
  }

  function MaxSizeMessage(maxSize: nat): string {
    "The maximum size of this field should be not greater than " + NatToString(maxSize) + "."
  }

  /**
   * `Validate(value, isLoaded)`. `Required` fails exactly when no value
   * was loaded; `Range` passes exactly on the half-open interval
   * `[min, max)`, loaded or not; `MinSize` passes from `minSize` up;
   * `MaxSize` passes strictly below `maxSize`.
   */
  function Validate(v: Validator, x: Subject, isLoaded: bool): (r: Option<string>)
    requires AppliesTo(v, x)
    ensures v.Required? ==> (r.None? <==> isLoaded) && (r.Some? ==> r.value == RequiredMessage)
    ensures v.Range? ==> (r.None? <==> v.min <= x.value < v.max) && (r.Some? ==> r.value == RangeMessage(v.min, v.max))
    ensures v.MinSize? ==> (r.None? <==> x.size >= v.minSize) && (r.Some? ==> r.value == MinSizeMessage(v.minSize))
    ensures v.MaxSize? ==> (r.None? <==> x.size < v.maxSize) && (r.Some? ==> r.value == MaxSizeMessage(v.maxSize))
  {
    match v
    case Required =>
      if isLoaded then None else Some(RequiredMessage)
    case Range(min, max) =>
      if x.value >= min && x.value < max then None else Some(RangeMessage(min, max))
    case MinSize(minSize) =>
      if x.size >= minSize then None else Some(MinSizeMessage(minSize))
    case MaxSize(maxSize) =>
      if x.size < maxSize then None else Some(MaxSizeMessage(maxSize))
  }

  /** Only `Required` looks at whether a value was loaded; every other validator judges the value alone. */
  lemma OnlyRequiredReadsIsLoaded(v: Validator, x: Subject)
    requires AppliesTo(v, x) && !v.Required?
    ensures Validate(v, x, true) == Validate(v, x, false)
  {
  }

  /** `Required` never fails a loaded field, whatever its value, and always fails a missing one. */
  lemma RequiredIgnoresValue(x: Subject, y: Subject)
    ensures Validate(Required, x, true) == Validate(Required, y, true) == None
    ensures Validate(Required, x, false) == Validate(Required, y, false) == Some(RequiredMessage)
  {
  }

  /** `Range(0, 100)` takes 0 and 99 and refuses 100 and -1: the upper bound is excluded. */
  lemma RangeIsHalfOpen()
    ensures Validate(Range(0, 100), Number(0), true).None?
    ensures Validate(Range(0, 100), Number(99), true).None?
    ensures Validate(Range(0, 100), Number(100), true).Some?
    ensures Validate(Range(0, 100), Number(-1), true).Some?
  {
  }

  /** With `min >= max` the interval is empty and `Range` refuses every value. */
  lemma EmptyRangeRefusesAll(min: int, max: int, value: int, isLoaded: bool)
    requires min >= max
    ensures Validate(Range(min, max), Number(value), isLoaded) == Some(RangeMessage(min, max))
  {
  }

  /** Two `Range` validators with different bounds fail with different messages. */
  lemma {:induction false} RangeMessageNamesBounds(min1: int, max1: int, min2: int, max2: int)
    requires RangeMessage(min1, max1) == RangeMessage(min2, max2)
    ensures min1 == min2 && max1 == max2
  {
    var prefix := "Value must be between ";
    var m1, m2 := RangeMessage(min1, max1), RangeMessage(min2, max2);
    var s1, s2 := IntToString(min1), IntToString(min2);
    var t1, t2 := IntToString(max1), IntToString(max2);
    assert m1 == prefix + s1 + " and " + t1;
    assert m2 == prefix + s2 + " and " + t2;
    assert m1[|prefix|..] == s1 + " and " + t1;
    assert m2[|prefix|..] == s2 + " and " + t2;
    IntToStringNoBlank(min1);
    IntToStringNoBlank(min2);
    IntTextSplit(s1, t1, s2, t2);
    IntToStringInjective(min1, min2);
    IntToStringInjective(max1, max2);
  }

  /** A number's text holds no blank, so the text before " and " is the first number's. */
  lemma IntTextSplit(s1: string, t1: string, s2: string, t2: string)
    requires NoBlank(s1) && NoBlank(s2)
    requires s1 + " and " + t1 == s2 + " and " + t2
    ensures s1 == s2 && t1 == t2
  {
    var a := s1 + " and " + t1;
    var b := s2 + " and " + t2;
    FirstBlankAfter(s1, "and " + t1);
    FirstBlankAfter(s2, "and " + t2);
    assert a == s1 + ([' '] + ("and " + t1));
    assert b == s2 + ([' '] + ("and " + t2));
    assert |s1| == |s2|;
    assert s1 == a[..|s1|] == b[..|s2|] == s2;
    assert t1 == a[|s1| + 5..] == b[|s2| + 5..] == t2;
  }

  /** The position of the first blank in `x`, or its length when there is none. */
  function FirstBlank(x: string): (n: nat)
    ensures n <= |x|
    decreases |x|
  {
    if x == [] || x[0] == ' ' then 0 else 1 + FirstBlank(x[1..])
  }

  lemma {:induction false} FirstBlankAfter(s: string, rest: string)
    requires NoBlank(s)
    ensures FirstBlank(s + ([' '] + rest)) == |s|
    decreases |s|
  {
    if s != [] {
      assert (s + ([' '] + rest))[1..] == s[1..] + ([' '] + rest);
      FirstBlankAfter(s[1..], rest);
    }
  }

  predicate NoBlank(s: string) {
    forall i :: 0 <= i < |s| ==> s[i] != ' '
  }

  lemma IntToStringNoBlank(n: int)
    ensures NoBlank(IntToString(n))
  {
  }

  /** Different numbers have different decimal texts. */
  lemma IntToStringInjective(m: int, n: int)
    requires IntToString(m) == IntToString(n)
    ensures m == n
  {
    var s := IntToString(m);
    if m < 0 {
      assert n < 0;
      assert NatToString(-m) == s[1..] == NatToString(-n);
      NatToStringInjective(-m, -n);
    } else {
      assert n >= 0;
      NatToStringInjective(m, n);
    }
  }

  /** `MaxSize(8)` takes a length of 7 and refuses a length of 8, though its message reads "not greater than 8". */
  lemma MaxSizeIsExclusive()
    ensures Validate(MaxSize(8), Sized(7), true).None?
    ensures Validate(MaxSize(8), Sized(8), true) == Some(MaxSizeMessage(8))
  {
  }

  /** `MinSize(n)` and `MaxSize(n)` split the sizes: every size passes exactly one of them. */
  lemma MinSizeAndMaxSizeSplit(n: nat, size: nat, isLoaded: bool)
    ensures Validate(MinSize(n), Sized(size), isLoaded).None? != Validate(MaxSize(n), Sized(size), isLoaded).None?
  {
  }

  /** The messages of a field's failing validators, in the order they were declared. */
  function ValidateAll(vs: seq<Validator>, x: Subject, isLoaded: bool): (r: seq<string>)
    requires forall i :: 0 <= i < |vs| ==> AppliesTo(vs[i], x)
    ensures |r| <= |vs|
    ensures (r == []) <==> forall i :: 0 <= i < |vs| ==> Validate(vs[i], x, isLoaded).None?
    decreases |vs|
  {
    if vs == [] then []
    else
      var first := Validate(vs[0], x, isLoaded);
      (if first.Some? then [first.value] else []) + ValidateAll(vs[1..], x, isLoaded)
  }

  /**
   * A loaded object `{"TestInt": 2000, "TestString": "Very looooooooong
   * string!"}` whose type declares `Required(), Range(0, 100)` on `TestInt`
   * and `MaxSize(8)` on `TestString`: `TestInt` fails only its range,
   * the 25-character `TestString` its maximum size, and the absent
   * `TestFloat` its `Required`.
   */
  lemma ValidationScenario()
    ensures ValidateAll([Required, Range(0, 100)], Number(2000), true) == [RangeMessage(0, 100)]
    ensures |"Very looooooooong string!"| == 25
    ensures ValidateAll([MaxSize(8)], Sized(|"Very looooooooong string!"|), true) == [MaxSizeMessage(8)]
    ensures Validate(Required, Number(0), false) == Some(RequiredMessage)
  {
    assert [Required, Range(0, 100)][1..] == [Range(0, 100)];
  }
}
