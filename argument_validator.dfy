/**
 * Method-argument validators.  Each check either passes or names the
 * exception it throws, built with the constructor arguments the source
 * passes to it.
 */
module ArgumentValidator {
  import opened Wrappers

  /**
   * The exceptions the validators throw.  The fields follow the .NET
   * constructor signatures: `ArgumentException(message, paramName)`,
   * `ArgumentNullException(paramName)` and
   * `ArgumentOutOfRangeException(paramName, message)`.
   */
  datatype ArgumentError =
    | ArgumentNullException(paramName: string)
    | ArgumentException(message: string, param: Option<string>)
    | ArgumentOutOfRangeException(paramName: string, message: string)
    | InvalidOperationException

  datatype Check = Pass | Fail(error: ArgumentError)

  // ----- number formatting used in the messages -----

  function DigitChar(d: nat): char
    requires d < 10
  {
    "0123456789"[d]
  }

  function NatToString(n: nat): (s: string)
    ensures |s| > 0
    decreases n
  {
    if n < 10 then [DigitChar(n)] else NatToString(n / 10) + [DigitChar(n % 10)]
  }

  /** `int.ToString()` as the invariant culture writes it; other cultures are not modelled. */
  function IntToString(i: int): (s: string)
    ensures |s| > 0
  {
    if i < 0 then "-" + NatToString(-i) else NatToString(i)
  }

  predicate IsPrefix(p: string, s: string) {
    |p| <= |s| && s[..|p|] == p
  }

  // ----- null and string checks -----

  /** Throws `ArgumentNullException(argumentName)` exactly when the value is null. */
  function NotNull<T>(argumentValue: Option<T>, argumentName: string): (r: Check)
    ensures r.Fail? <==> argumentValue.None?
    ensures r.Fail? ==> r.error == ArgumentNullException(argumentName)
  {
    if argumentValue.None? then Fail(ArgumentNullException(argumentName)) else Pass
  }

  const EmptyStringMessage := "String cannot be empty"

  /** Rejects null (through `NotNull`) and the empty string; accepts every other string. */
  function NotNullOrEmptyString(argumentValue: Option<string>, argumentName: string): (r: Check)
    ensures r.Pass? <==> argumentValue.Some? && |argumentValue.value| > 0
    ensures argumentValue.None? ==> r == Fail(ArgumentNullException(argumentName))
    ensures argumentValue == Some("") ==> r == Fail(ArgumentException(EmptyStringMessage, Some(argumentName)))
  {
    var nullCheck := NotNull(argumentValue, argumentName);
    if nullCheck.Fail? then nullCheck
    else if |argumentValue.value| == 0 then Fail(ArgumentException(EmptyStringMessage, Some(argumentName)))
    else Pass
  }

  const NullValueMessage := "Value is null"

  /** The shared null test of the three length checks. */
  function StringLengthHelper(value: Option<string>, acceptNull: bool, argumentName: string): (r: Check)
    ensures r.Fail? <==> !acceptNull && value.None?
  {
    if !acceptNull && value.None? then Fail(ArgumentException(NullValueMessage, Some(argumentName))) else Pass
  }

  /**
   * `string.Length`: the number of UTF-16 code units.  A scalar value at or
   * above U+10000 is stored as a surrogate pair and counts twice.
   */
  function Utf16Length(s: string): (n: nat)
    ensures |s| <= n <= 2 * |s|
    decreases |s|
  {
    if |s| == 0 then 0
    else (if s[0] as int >= 0x1_0000 then 2 else 1) + Utf16Length(s[1..])
  }

  /** The UTF-16 length equals the number of scalar values exactly when none needs a surrogate pair. */
  lemma {:induction false} Utf16LengthOfBmp(s: string)
    ensures Utf16Length(s) == |s| <==> forall i :: 0 <= i < |s| ==> (s[i] as int) < 0x1_0000
    decreases |s|
  {
    if |s| > 0 {
      Utf16LengthOfBmp(s[1..]);
      assert forall i :: 1 <= i < |s| ==> s[i] == s[1..][i - 1];
    }
  }

  /** A character outside the Basic Multilingual Plane has length 2, so a minimum length of 2 accepts it. */
  lemma AstralCharacterCountsTwice()
    ensures Utf16Length("\U{1F600}") == 2
    ensures StringMinLength(Some("\U{1F600}"), false, 2, "value").Pass?
    ensures StringMaxLength(Some("\U{1F600}"), false, 1, "value").Fail?
  {
  }

  function LengthRangeMessage(minLength: int, maxLength: int): string {
    "String value length not in range (min: " + IntToString(minLength) + ", max: " + IntToString(maxLength) + ")"
  }

  /** Null passes iff `acceptNull`; a string passes iff `minLength <= length <= maxLength`. */
  function StringLength(value: Option<string>, acceptNull: bool, minLength: int, maxLength: int, argumentName: string): (r: Check)
    ensures value.None? ==> (r.Pass? <==> acceptNull)
    ensures value.Some? ==> (r.Pass? <==> minLength <= Utf16Length(value.value) <= maxLength)
    ensures value.None? && !acceptNull ==> r == Fail(ArgumentException(NullValueMessage, Some(argumentName)))
    ensures value.Some? && r.Fail? ==>
              r == Fail(ArgumentException(LengthRangeMessage(minLength, maxLength), Some(argumentName)))
  {
    var nullCheck := StringLengthHelper(value, acceptNull, argumentName);
    if nullCheck.Fail? then nullCheck
    else if value.None? then Pass
    else if Utf16Length(value.value) < minLength || Utf16Length(value.value) > maxLength then
      Fail(ArgumentException(LengthRangeMessage(minLength, maxLength), Some(argumentName)))
    else Pass
  }

  function MinLengthMessage(minLength: int): string {
    "String value minimum length not in range (min: " + IntToString(minLength) + ")"
  }

  /** The lower half of `StringLength`. */
  function StringMinLength(value: Option<string>, acceptNull: bool, minLength: int, argumentName: string): (r: Check)
    ensures value.None? ==> (r.Pass? <==> acceptNull)
    ensures value.Some? ==> (r.Pass? <==> minLength <= Utf16Length(value.value))
    ensures value.Some? && r.Fail? ==> r == Fail(ArgumentException(MinLengthMessage(minLength), Some(argumentName)))
  {
    var nullCheck := StringLengthHelper(value, acceptNull, argumentName);
    if nullCheck.Fail? then nullCheck
    else if value.None? then Pass
    else if Utf16Length(value.value) < minLength then Fail(ArgumentException(MinLengthMessage(minLength), Some(argumentName)))
    else Pass
  }

  function MaxLengthMessage(maxLength: int): string {
    "String value maximum length not in range (max: " + IntToString(maxLength) + ")"
  }

  /** The upper half of `StringLength`. */
  function StringMaxLength(value: Option<string>, acceptNull: bool, maxLength: int, argumentName: string): (r: Check)
    ensures value.None? ==> (r.Pass? <==> acceptNull)
    ensures value.Some? ==> (r.Pass? <==> Utf16Length(value.value) <= maxLength)
    ensures value.Some? && r.Fail? ==> r == Fail(ArgumentException(MaxLengthMessage(maxLength), Some(argumentName)))
  {
    var nullCheck := StringLengthHelper(value, acceptNull, argumentName);
    if nullCheck.Fail? then nullCheck
    else if value.None? then Pass
    else if Utf16Length(value.value) > maxLength then Fail(ArgumentException(MaxLengthMessage(maxLength), Some(argumentName)))
    else Pass
  }

  /** The two-sided length check accepts exactly what both one-sided checks accept, and fails alike on null. */
  lemma StringLengthIsBothBounds(value: Option<string>, acceptNull: bool, minLength: int, maxLength: int, argumentName: string)
    ensures StringLength(value, acceptNull, minLength, maxLength, argumentName).Pass?
        <==> StringMinLength(value, acceptNull, minLength, argumentName).Pass?
             && StringMaxLength(value, acceptNull, maxLength, argumentName).Pass?
    ensures value.None? ==>
              StringLength(value, acceptNull, minLength, maxLength, argumentName)
              == StringMinLength(value, acceptNull, minLength, argumentName)
              == StringMaxLength(value, acceptNull, maxLength, argumentName)
  {
  }

  // ----- numbers -----

  function InRangeMessage(minRange: int, maxRange: int): string {
    "Int value not in range (min: " + IntToString(minRange) + ", max: " + IntToString(maxRange)
  }

  function MinRangeMessage(minRange: int): string {
    "Int value not in minimum range (min: " + IntToString(minRange) + ")"
  }

  function MaxRangeMessage(maxRange: int): string {
    "Int value not in maximum range (max: " + IntToString(maxRange) + ")"
  }

  /**
   * As written: passes iff `minRange <= value <= maxRange`; on failure the
   * formatted message lands in the exception's `paramName` and the argument
   * name in its `message`, because the source passes them in that order.
   */
  function NumberInRange(value: int, minRange: int, maxRange: int, argumentName: string): (r: Check)
    ensures r.Pass? <==> minRange <= value <= maxRange
    ensures r.Fail? ==> r.error == ArgumentOutOfRangeException(InRangeMessage(minRange, maxRange), argumentName)
  {
    if value < minRange || value > maxRange then
      Fail(ArgumentOutOfRangeException(InRangeMessage(minRange, maxRange), argumentName))
    else Pass
  }

  /** As written: the lower bound only, with the same swapped exception arguments. */
  function NumberMinRange(value: int, minRange: int, argumentName: string): (r: Check)
    ensures r.Pass? <==> minRange <= value
    ensures r.Fail? ==> r.error == ArgumentOutOfRangeException(MinRangeMessage(minRange), argumentName)
  {
    if value < minRange then Fail(ArgumentOutOfRangeException(MinRangeMessage(minRange), argumentName)) else Pass
  }

  /** As written: the upper bound only, with the same swapped exception arguments. */
  function NumberMaxRange(value: int, maxRange: int, argumentName: string): (r: Check)
    ensures r.Pass? <==> value <= maxRange
    ensures r.Fail? ==> r.error == ArgumentOutOfRangeException(MaxRangeMessage(maxRange), argumentName)
  {
    if value > maxRange then Fail(ArgumentOutOfRangeException(MaxRangeMessage(maxRange), argumentName)) else Pass
  }

  lemma InRangeIsBothBounds(value: int, minRange: int, maxRange: int, argumentName: string)
    ensures NumberInRange(value, minRange, maxRange, argumentName).Pass?
        <==> NumberMinRange(value, minRange, argumentName).Pass? && NumberMaxRange(value, maxRange, argumentName).Pass?
  {
  }

  /**
   * The failing `NumberInRange` reports a parameter name that starts with
   * "Int value not in range", so it is never the caller's argument name
   * unless that name happens to start the same way.
   */
  lemma NumberInRangeMisnamesParameter(value: int, minRange: int, maxRange: int, argumentName: string)
    requires value < minRange || value > maxRange
    requires !IsPrefix("Int value not in range", argumentName)
    ensures NumberInRange(value, minRange, maxRange, argumentName).Fail?
    ensures NumberInRange(value, minRange, maxRange, argumentName).error.paramName != argumentName
  {
    var m := InRangeMessage(minRange, maxRange);
    assert m[..22] == "Int value not in range";
  }

  lemma NumberMinRangeMisnamesParameter(value: int, minRange: int, argumentName: string)
    requires value < minRange
    requires !IsPrefix("Int value not in minimum range", argumentName)
    ensures NumberMinRange(value, minRange, argumentName).Fail?
    ensures NumberMinRange(value, minRange, argumentName).error.paramName != argumentName
  {
    var m := MinRangeMessage(minRange);
    assert m[..30] == "Int value not in minimum range";
  }

  lemma NumberMaxRangeMisnamesParameter(value: int, maxRange: int, argumentName: string)
    requires value > maxRange
    requires !IsPrefix("Int value not in maximum range", argumentName)
    ensures NumberMaxRange(value, maxRange, argumentName).Fail?
    ensures NumberMaxRange(value, maxRange, argumentName).error.paramName != argumentName
  {
    var m := MaxRangeMessage(maxRange);
    assert m[..30] == "Int value not in maximum range";
  }

  /** Intended: the same verdict, with the argument name as `paramName` and the formatted text as message. */
  function NumberInRangeIntended(value: int, minRange: int, maxRange: int, argumentName: string): (r: Check)
    ensures r.Pass? <==> minRange <= value <= maxRange
    ensures r.Fail? ==> r.error.ArgumentOutOfRangeException? && r.error.paramName == argumentName
    ensures r.Pass? <==> NumberInRange(value, minRange, maxRange, argumentName).Pass?
  {
    if value < minRange || value > maxRange then
      Fail(ArgumentOutOfRangeException(argumentName, InRangeMessage(minRange, maxRange)))
    else Pass
  }

  function NumberMinRangeIntended(value: int, minRange: int, argumentName: string): (r: Check)
    ensures r.Pass? <==> minRange <= value
    ensures r.Fail? ==> r.error.ArgumentOutOfRangeException? && r.error.paramName == argumentName
    ensures r.Pass? <==> NumberMinRange(value, minRange, argumentName).Pass?
  {
    if value < minRange then Fail(ArgumentOutOfRangeException(argumentName, MinRangeMessage(minRange))) else Pass
  }

  function NumberMaxRangeIntended(value: int, maxRange: int, argumentName: string): (r: Check)
    ensures r.Pass? <==> value <= maxRange
    ensures r.Fail? ==> r.error.ArgumentOutOfRangeException? && r.error.paramName == argumentName
    ensures r.Pass? <==> NumberMaxRange(value, maxRange, argumentName).Pass?
  {
    if value > maxRange then Fail(ArgumentOutOfRangeException(argumentName, MaxRangeMessage(maxRange))) else Pass
  }

  // ----- dates and conditions -----

  /** A `DateTime`, by its tick count. */
  type DateTime = int

  const DateRangeMessage := "Start date is same or bigger than end date"

  /** Rejects exactly when the start is not strictly before the end. */
  function DateRange(startDate: DateTime, endDate: DateTime, argumentName: string): (r: Check)
    ensures r.Fail? <==> startDate >= endDate
    ensures r.Fail? ==> r.error == ArgumentException(DateRangeMessage, Some(argumentName))
  {
    if startDate >= endDate then Fail(ArgumentException(DateRangeMessage, Some(argumentName))) else Pass
  }

  /** The `DateTime?` overload: `.Value` of a null date throws `InvalidOperationException`. */
  function NullableDateRange(startDate: Option<DateTime>, endDate: Option<DateTime>, argumentName: string): (r: Check)
    ensures startDate.None? || endDate.None? ==> r == Fail(InvalidOperationException)
    ensures startDate.Some? && endDate.Some? ==> r == DateRange(startDate.value, endDate.value, argumentName)
  {
    if startDate.None? || endDate.None? then Fail(InvalidOperationException)
    else DateRange(startDate.value, endDate.value, argumentName)
  }

  /** Throws `ArgumentException(description)` exactly when the condition is false. */
  function IsTrue(value: bool, description: string): (r: Check)
    ensures r.Fail? <==> !value
    ensures r.Fail? ==> r.error == ArgumentException(description, None)
  {
    if !value then Fail(ArgumentException(description, None)) else Pass
  }

  // ----- enums -----

  const TwoTo64: int := 0x1_0000_0000_0000_0000

  /** A value of some integral type (`sbyte` … `ulong`). */
  predicate IsIntegral(v: int) {
    -0x8000_0000_0000_0000 <= v < TwoTo64
  }

  /**
   * A 64-bit `ulong` is represented by the set of positions of its one bits
   * (each below 64).  On this representation `i & u == i` is `i <= u`,
   * subtracting a sub-mask clears its bits (`u - i`), and `u == 0` is `u == {}`.
   */
  type Mask = set<nat>

  function Pow2(k: nat): nat {
    if k == 0 then 1 else 2 * Pow2(k - 1)
  }

  /** Bit `k` of the unsigned number `u`: the lowest bit of `u` shifted right `k` times. */
  predicate Bit(u: nat, k: nat)
    decreases k
  {
    if k == 0 then u % 2 == 1 else Bit(u / 2, k - 1)
  }

  lemma {:induction false} Pow2Add(a: nat, b: nat)
    ensures Pow2(a + b) == Pow2(a) * Pow2(b)
    decreases a
  {
    if a > 0 {
      Pow2Add(a - 1, b);
    }
  }

  lemma Pow2Of64()
    ensures Pow2(64) == TwoTo64
  {
    assert Pow2(1) == 2;
    Pow2Add(1, 1);
    Pow2Add(2, 2);
    Pow2Add(4, 4);
    Pow2Add(8, 8);
    Pow2Add(16, 16);
    Pow2Add(32, 32);
  }

  /** Zero has no one bit. */
  lemma {:induction false} ZeroHasNoBits(k: nat)
    ensures !Bit(0, k)
    decreases k
  {
    if k > 0 {
      ZeroHasNoBits(k - 1);
    }
  }

  /** Below `2^n` a number is determined by its lowest `n` bits. */
  lemma {:induction false} BitsDetermine(u: nat, w: nat, n: nat)
    requires u < Pow2(n) && w < Pow2(n)
    requires forall k: nat :: k < n ==> (Bit(u, k) <==> Bit(w, k))
    ensures u == w
    decreases n
  {
    if n > 0 {
      assert Bit(u, 0) <==> Bit(w, 0);
      forall k: nat | k < n - 1
        ensures Bit(u / 2, k) <==> Bit(w / 2, k)
      {
        assert Bit(u, k + 1) <==> Bit(w, k + 1);
      }
      BitsDetermine(u / 2, w / 2, n - 1);
    }
  }

  /**
   * `ToUInt64`: signed values are reinterpreted in two's complement, unsigned
   * ones kept; the mask holds the positions of the one bits of `v mod 2^64`.
   */
  function ToUInt64(v: int): (m: Mask)
    requires IsIntegral(v)
    ensures forall k :: k in m ==> k < 64
  {
    set k: nat | k < 64 && Bit(v % TwoTo64, k)
  }

  /** The `ulong` is zero, the empty mask, exactly when the value is a multiple of `2^64`. */
  lemma ToUInt64ZeroExactly(v: int)
    requires IsIntegral(v)
    ensures ToUInt64(v) == {} <==> v % TwoTo64 == 0
  {
    var m := ToUInt64(v);
    if v % TwoTo64 == 0 {
      forall k: nat | k < 64
        ensures k !in m
      {
        ZeroHasNoBits(k);
      }
    } else if m == {} {
      forall k: nat | k < 64
        ensures Bit(v % TwoTo64, k) <==> Bit(0, k)
      {
        assert k !in m;
        ZeroHasNoBits(k);
      }
      Pow2Of64();
      BitsDetermine(v % TwoTo64, 0, 64);
    }
  }

  /** Two values give the same `ulong` exactly when they agree modulo `2^64`: the mask loses nothing. */
  lemma ToUInt64Injective(a: int, b: int)
    requires IsIntegral(a) && IsIntegral(b)
    ensures ToUInt64(a) == ToUInt64(b) <==> a % TwoTo64 == b % TwoTo64
  {
    if ToUInt64(a) == ToUInt64(b) {
      forall k: nat | k < 64
        ensures Bit(a % TwoTo64, k) <==> Bit(b % TwoTo64, k)
      {
        assert k in ToUInt64(a) <==> Bit(a % TwoTo64, k);
        assert k in ToUInt64(b) <==> Bit(b % TwoTo64, k);
      }
      Pow2Of64();
      BitsDetermine(a % TwoTo64, b % TwoTo64, 64);
    }
  }

  /**
   * An enum type: whether it carries `[Flags]` and its defined values in the
   * order `Enum.GetValues` returns them, which is ascending by unsigned
   * magnitude.
   */
  datatype EnumType = EnumType(isFlags: bool, values: seq<int>)

  predicate WellTyped(enumType: EnumType, value: int) {
    IsIntegral(value) && forall i :: 0 <= i < |enumType.values| ==> IsIntegral(enumType.values[i])
  }

  /** The defined values as `ulong`, keeping those that `isValidFlag` accepts, in order. */
  function ValidFlags(values: seq<int>, isValidFlag: Mask -> bool): (flags: seq<Mask>)
    requires forall i :: 0 <= i < |values| ==> IsIntegral(values[i])
    ensures |flags| <= |values|
    ensures forall i :: 0 <= i < |flags| ==> isValidFlag(flags[i])
    ensures forall i :: 0 <= i < |values| && isValidFlag(ToUInt64(values[i])) ==> ToUInt64(values[i]) in flags
  {
    if |values| == 0 then []
    else
      var f := ToUInt64(values[0]);
      var rest := ValidFlags(values[1..], isValidFlag);
      assert forall i :: 1 <= i < |values| ==> values[i] == values[1..][i - 1];
      (if isValidFlag(f) then [f] else []) + rest
  }

  /** The positions, counted from `offset`, of the values whose `ulong` `isValidFlag` accepts, in order. */
  function KeptPositions(values: seq<int>, isValidFlag: Mask -> bool, offset: nat): seq<nat>
    requires forall i :: 0 <= i < |values| ==> IsIntegral(values[i])
    decreases |values|
  {
    if |values| == 0 then []
    else (if isValidFlag(ToUInt64(values[0])) then [offset] else []) + KeptPositions(values[1..], isValidFlag, offset + 1)
  }

  /** Every position lies in `[lo, hi)`. */
  predicate Within(pos: seq<nat>, lo: nat, hi: nat) {
    forall j :: 0 <= j < |pos| ==> lo <= pos[j] < hi
  }

  predicate StrictlyIncreasing(pos: seq<nat>) {
    forall j, l :: 0 <= j < l < |pos| ==> pos[j] < pos[l]
  }

  /** The kept positions lie within the values, strictly increasing. */
  lemma {:induction false} KeptPositionsIncrease(values: seq<int>, isValidFlag: Mask -> bool, offset: nat)
    requires forall i :: 0 <= i < |values| ==> IsIntegral(values[i])
    ensures Within(KeptPositions(values, isValidFlag, offset), offset, offset + |values|)
    ensures StrictlyIncreasing(KeptPositions(values, isValidFlag, offset))
    decreases |values|
  {
    if |values| > 0 {
      var rpos := KeptPositions(values[1..], isValidFlag, offset + 1);
      KeptPositionsIncrease(values[1..], isValidFlag, offset + 1);
      var pos := KeptPositions(values, isValidFlag, offset);
      var k := if isValidFlag(ToUInt64(values[0])) then 1 else 0;
      assert pos == (if k == 1 then [offset] else []) + rpos;
      assert forall j :: k <= j < |pos| ==> pos[j] == rpos[j - k];
    }
  }

  /** A position is kept exactly when the `ulong` of its value is accepted. */
  lemma {:induction false} KeptPositionsAccepted(values: seq<int>, isValidFlag: Mask -> bool, offset: nat)
    requires forall i :: 0 <= i < |values| ==> IsIntegral(values[i])
    ensures forall i :: 0 <= i < |values| ==>
      (offset + i in KeptPositions(values, isValidFlag, offset) <==> isValidFlag(ToUInt64(values[i])))
    decreases |values|
  {
    if |values| > 0 {
      var rest := values[1..];
      KeptPositionsAccepted(rest, isValidFlag, offset + 1);
      KeptPositionsIncrease(rest, isValidFlag, offset + 1);
      var pos := KeptPositions(values, isValidFlag, offset);
      var rpos := KeptPositions(rest, isValidFlag, offset + 1);
      assert offset !in rpos;
      forall i | 0 < i < |values|
        ensures offset + i in pos <==> isValidFlag(ToUInt64(values[i]))
      {
        assert values[i] == rest[i - 1];
        assert offset + i in pos <==> (offset + 1) + (i - 1) in rpos;
      }
    }
  }

  /** `flags[j]` is the `ulong` of the value at position `pos[j]`, positions counted from `offset`. */
  predicate ReadAt(flags: seq<Mask>, pos: seq<nat>, values: seq<int>, offset: nat)
    requires forall i :: 0 <= i < |values| ==> IsIntegral(values[i])
  {
    |pos| == |flags|
    && forall j :: 0 <= j < |pos| ==>
      offset <= pos[j] < offset + |values| && flags[j] == ToUInt64(values[pos[j] - offset])
  }

  /** Reading at positions shifted past a dropped first value is reading in the shorter sequence. */
  lemma ReadAtTail(flags: seq<Mask>, pos: seq<nat>, values: seq<int>, offset: nat)
    requires |values| > 0 && forall i :: 0 <= i < |values| ==> IsIntegral(values[i])
    requires ReadAt(flags, pos, values[1..], offset + 1)
    ensures ReadAt(flags, pos, values, offset)
  {
    forall j | 0 <= j < |pos|
      ensures offset <= pos[j] < offset + |values| && flags[j] == ToUInt64(values[pos[j] - offset])
    {
      assert values[pos[j] - offset] == values[1..][pos[j] - (offset + 1)];
    }
  }

  /** Reading the first value at the first position extends a reading of the rest. */
  lemma ReadAtCons(f: Mask, flags: seq<Mask>, pos: seq<nat>, values: seq<int>, offset: nat)
    requires |values| > 0 && forall i :: 0 <= i < |values| ==> IsIntegral(values[i])
    requires f == ToUInt64(values[0]) && ReadAt(flags, pos, values, offset)
    ensures ReadAt([f] + flags, [offset] + pos, values, offset)
  {
    forall j | 1 <= j < |pos| + 1
      ensures ([f] + flags)[j] == flags[j - 1] && ([offset] + pos)[j] == pos[j - 1]
    {
    }
  }

  /** The kept values, read at the kept positions, are exactly `ValidFlags`. */
  lemma {:induction false} ValidFlagsAtPositions(values: seq<int>, isValidFlag: Mask -> bool, offset: nat)
    requires forall i :: 0 <= i < |values| ==> IsIntegral(values[i])
    ensures ReadAt(ValidFlags(values, isValidFlag), KeptPositions(values, isValidFlag, offset), values, offset)
    decreases |values|
  {
    if |values| > 0 {
      var rest := values[1..];
      var rflags := ValidFlags(rest, isValidFlag);
      var rpos := KeptPositions(rest, isValidFlag, offset + 1);
      ValidFlagsAtPositions(rest, isValidFlag, offset + 1);
      ReadAtTail(rflags, rpos, values, offset);
      var f := ToUInt64(values[0]);
      if isValidFlag(f) {
        ReadAtCons(f, rflags, rpos, values, offset);
        assert ValidFlags(values, isValidFlag) == [f] + rflags;
        assert KeptPositions(values, isValidFlag, offset) == [offset] + rpos;
      } else {
        assert ValidFlags(values, isValidFlag) == rflags;
        assert KeptPositions(values, isValidFlag, offset) == rpos;
      }
    }
  }

  /**
   * `ValidFlags` is the in-order filter of the values' `ulong`s: its entries
   * are the images of the accepted values at strictly increasing positions,
   * and a position is used exactly when its image is accepted.
   */
  lemma ValidFlagsIsInOrderFilter(values: seq<int>, isValidFlag: Mask -> bool)
    requires forall i :: 0 <= i < |values| ==> IsIntegral(values[i])
    ensures var flags := ValidFlags(values, isValidFlag); var pos := KeptPositions(values, isValidFlag, 0);
      |pos| == |flags|
      && (forall j :: 0 <= j < |pos| ==> pos[j] < |values| && flags[j] == ToUInt64(values[pos[j]]))
      && (forall j, l :: 0 <= j < l < |pos| ==> pos[j] < pos[l])
      && (forall i :: 0 <= i < |values| ==> (i in pos <==> isValidFlag(ToUInt64(values[i]))))
  {
    ValidFlagsAtPositions(values, isValidFlag, 0);
    KeptPositionsIncrease(values, isValidFlag, 0);
    KeptPositionsAccepted(values, isValidFlag, 0);
  }

  /** One step of the greedy subtraction: remove `f` when it lies wholly inside the residue. */
  function Subtract(f: Mask, residue: Mask): Mask {
    if f <= residue then residue - f else residue
  }

  /** The residue left after trying every flag in order. */
  function Greedy(flags: seq<Mask>, residue: Mask): Mask
    decreases |flags|
  {
    if |flags| == 0 then residue else Greedy(flags[1..], Subtract(flags[0], residue))
  }

  const InvalidFlagsMessage := "Invalid enum flags combination"
  const InvalidValueMessage := "Invalid enum value"

  /** What `EnumValueIsDefined` decides, stated over the values. */
  function EnumCheck(enumType: EnumType, value: int, argumentName: string, isValidFlag: Mask -> bool): Check
    requires WellTyped(enumType, value)
  {
    if enumType.isFlags then
      if Greedy(ValidFlags(enumType.values, isValidFlag), ToUInt64(value)) != {} then
        Fail(ArgumentException(InvalidFlagsMessage, Some(argumentName)))
      else Pass
    else if value !in enumType.values then Fail(ArgumentException(InvalidValueMessage, Some(argumentName)))
    else Pass
  }

  /** A zero residue stays zero, so stopping early once it reaches zero changes nothing. */
  lemma {:induction false} GreedyOfZero(flags: seq<Mask>)
    ensures Greedy(flags, {}) == {}
    decreases |flags|
  {
    if |flags| > 0 {
      assert Subtract(flags[0], {}) == {};
      GreedyOfZero(flags[1..]);
    }
  }

  /**
   * Checks an enum value.  For a `[Flags]` enum it subtracts, in order, every
   * valid flag wholly contained in the remaining value, stopping once nothing
   * remains, and rejects a non-zero remainder; otherwise it rejects a value
   * that is not defined.  `isValidFlag` stands for the source's floating-point
   * power-of-two test.
   */
  method EnumValueIsDefined(enumType: EnumType, value: int, argumentName: string, isValidFlag: Mask -> bool)
    returns (r: Check)
    requires WellTyped(enumType, value)
    ensures r == EnumCheck(enumType, value, argumentName, isValidFlag)
  {
    if enumType.isFlags {
      var values := ValidFlags(enumType.values, isValidFlag);
      var ulongValue := ToUInt64(value);
      var i := 0;
      while i < |values|
        invariant 0 <= i <= |values|
        invariant Greedy(values, ToUInt64(value)) == Greedy(values[i..], ulongValue)
      {
        var flag := values[i];
        assert values[i..][1..] == values[i + 1..];
        if flag <= ulongValue {
          ulongValue := ulongValue - flag;
          if ulongValue == {} {
            GreedyOfZero(values[i + 1..]);
            break;
          }
        }
        i := i + 1;
      }
      if ulongValue != {} {
        r := Fail(ArgumentException(InvalidFlagsMessage, Some(argumentName)));
      } else {
        r := Pass;
      }
    } else if value !in enumType.values {
      r := Fail(ArgumentException(InvalidValueMessage, Some(argumentName)));
    } else {
      r := Pass;
    }
  }

  /** Each greedy step only clears bits: the residue is always a sub-mask of the starting value. */
  lemma {:induction false} GreedyClearsOnly(flags: seq<Mask>, residue: Mask)
    ensures Greedy(flags, residue) <= residue
    decreases |flags|
  {
    if |flags| > 0 {
      GreedyClearsOnly(flags[1..], Subtract(flags[0], residue));
    }
  }

  /** A power of two, or zero (`Math.Log(0, 2)` is -infinity, which the source's test also accepts). */
  predicate SingleBitOrZero(f: Mask) {
    |f| <= 1
  }

  /** The bitwise or of all the flags. */
  function Union(flags: seq<Mask>): (u: Mask)
    ensures forall i :: 0 <= i < |flags| ==> flags[i] <= u
    decreases |flags|
  {
    if |flags| == 0 then {} else flags[0] + Union(flags[1..])
  }

  /** A single bit is either wholly inside a mask or outside it. */
  lemma SingleBitInOrOut(f: Mask, residue: Mask)
    requires SingleBitOrZero(f)
    ensures f <= residue || f * residue == {}
  {
    if |f| == 1 {
      var b :| b in f;
      assert |f - {b}| == 0;
      assert f == {b};
    }
  }

  /** With single-bit flags the greedy walk clears exactly the bits the flags cover. */
  lemma {:induction false} GreedySingleBits(flags: seq<Mask>, residue: Mask)
    requires forall i :: 0 <= i < |flags| ==> SingleBitOrZero(flags[i])
    ensures Greedy(flags, residue) == residue - Union(flags)
    decreases |flags|
  {
    if |flags| > 0 {
      SingleBitInOrOut(flags[0], residue);
      if !(flags[0] <= residue) {
        assert forall x :: x in residue && x in flags[0] ==> x in flags[0] * residue;
        assert residue - flags[0] == residue;
      }
      assert forall i :: 0 <= i < |flags[1..]| ==> flags[1..][i] == flags[i + 1];
      GreedySingleBits(flags[1..], residue - flags[0]);
    }
  }

  /**
   * For a `[Flags]` enum whose valid flags are single bits, a value is
   * accepted iff every bit it sets is one of those flags.
   */
  lemma FlagsAcceptedIffCovered(enumType: EnumType, value: int, argumentName: string, isValidFlag: Mask -> bool)
    requires WellTyped(enumType, value) && enumType.isFlags
    requires forall f: Mask :: isValidFlag(f) ==> SingleBitOrZero(f)
    ensures EnumCheck(enumType, value, argumentName, isValidFlag).Pass?
        <==> ToUInt64(value) <= Union(ValidFlags(enumType.values, isValidFlag))
  {
    var flags := ValidFlags(enumType.values, isValidFlag);
    GreedySingleBits(flags, ToUInt64(value));
    var m := ToUInt64(value);
    if m - Union(flags) == {} {
      forall k | k in m
        ensures k in Union(flags)
      {
        assert k !in m - Union(flags);
      }
    }
  }

  /** In particular, every defined single-bit flag is itself accepted. */
  lemma DefinedFlagAccepted(enumType: EnumType, value: int, argumentName: string, isValidFlag: Mask -> bool)
    requires WellTyped(enumType, value) && enumType.isFlags && value in enumType.values
    requires forall f: Mask :: isValidFlag(f) ==> SingleBitOrZero(f)
    requires isValidFlag(ToUInt64(value))
    ensures EnumCheck(enumType, value, argumentName, isValidFlag).Pass?
  {
    FlagsAcceptedIffCovered(enumType, value, argumentName, isValidFlag);
  }

  /** For any flags enum, the rejected remainder never holds a bit the value did not set. */
  lemma FlagsRemainderWithinValue(enumType: EnumType, value: int, isValidFlag: Mask -> bool)
    requires WellTyped(enumType, value) && enumType.isFlags
    ensures Greedy(ValidFlags(enumType.values, isValidFlag), ToUInt64(value)) <= ToUInt64(value)
  {
    GreedyClearsOnly(ValidFlags(enumType.values, isValidFlag), ToUInt64(value));
  }

  /** For an enum without `[Flags]`, exactly the defined values pass. */
  lemma PlainEnumAcceptsDefined(enumType: EnumType, value: int, argumentName: string, isValidFlag: Mask -> bool)
    requires WellTyped(enumType, value) && !enumType.isFlags
    ensures EnumCheck(enumType, value, argumentName, isValidFlag).Pass? <==> value in enumType.values
  {
  }
}
