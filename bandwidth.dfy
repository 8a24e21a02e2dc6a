/**
 * The bandwidth flag parser `parseBytes` and the part of `strconv.ParseInt(s, 10, 64)` it relies on.
 * A Go string is indexed by byte; here a string is a sequence of characters. The two agree on every
 * outcome: the units and digits are ASCII, and a non-ASCII character is a syntax error either way.
 */
module Bandwidth {
  import opened BoundedInt

  /** The two errors of `strconv.ParseInt`: `strconv.ErrSyntax` and `strconv.ErrRange`. */
  datatype NumError = ErrSyntax | ErrRange

  datatype Result<T> = Ok(value: T) | Err(error: NumError)

  const MAX_UINT64: int := TWO_64 - 1

  predicate IsDigit(c: char) { '0' <= c <= '9' }

  function DigitValue(c: char): (d: nat)
    requires IsDigit(c)
    ensures d < 10
  {
    c as int - '0' as int
  }

  predicate AllDigits(s: string) { forall i :: 0 <= i < |s| ==> IsDigit(s[i]) }

  function Pow10(k: nat): (p: nat)
    ensures p >= 1
  {
    if k == 0 then 1 else 10 * Pow10(k - 1)
  }

  // ---------------------------------------------------------------------------
  // Reference definitions: what a signed decimal string denotes.

  /** The value of a string of decimal digits, most significant first. */
  function DecimalValue(s: string): nat
    requires AllDigits(s)
  {
    if s == [] then 0 else DigitValue(s[0]) * Pow10(|s| - 1) + DecimalValue(s[1..])
  }

  predicate HasSign(s: string) { |s| > 0 && (s[0] == '+' || s[0] == '-') }

  /** `s` without its leading sign, if it has one. */
  function Digits(s: string): string { if HasSign(s) then s[1..] else s }

  /** An optional `+` or `-` followed by one or more decimal digits. */
  predicate IsDecimal(s: string) { |Digits(s)| > 0 && AllDigits(Digits(s)) }

  function DecimalInt(s: string): int
    requires IsDecimal(s)
  {
    if s[0] == '-' then -(DecimalValue(Digits(s)) as int) else DecimalValue(Digits(s))
  }

  // ---------------------------------------------------------------------------
  // strconv.ParseInt(s, 10, 64).

  /**
   * The digit loop of `strconv.ParseUint(s, 10, 64)`, left to right from the value `acc` read so far:
   * the first character that is not a digit is a syntax error, and the first digit that takes the
   * value past the uint64 range is a range error.
   */
  function ScanUint(s: string, acc: uint64): Result<uint64>
    decreases |s|
  {
    if s == [] then Ok(acc)
    else if !IsDigit(s[0]) then Err(ErrSyntax)
    else if acc * 10 + DigitValue(s[0]) > MAX_UINT64 then Err(ErrRange)
    else ScanUint(s[1..], acc * 10 + DigitValue(s[0]))
  }

  function ParseUint64(s: string): Result<uint64>
  {
    if s == [] then Err(ErrSyntax) else ScanUint(s, 0)
  }

  /** `strconv.ParseInt(s, 10, 64)`: a sign, the magnitude by `ParseUint`, then the int64 range check. */
  function ParseInt64(s: string): Result<int64>
  {
    if s == [] then Err(ErrSyntax)
    else
      var neg := s[0] == '-';
      match ParseUint64(Digits(s))
      case Err(e) => Err(e)
      case Ok(u) =>
        if !neg && u >= TWO_63 then Err(ErrRange)
        else if neg && u > TWO_63 then Err(ErrRange)
        else Ok(if neg then -(u as int) else u)
  }

  /** Reading one more leading digit `d` into `acc`, with `p` the place value of that digit. */
  lemma ShiftDigit(acc: nat, d: nat, p: nat, rest: nat)
    ensures acc * (10 * p) + (d * p + rest) == (acc * 10 + d) * p + rest
    ensures p >= 1 ==> (acc * 10 + d) * p + rest >= acc * 10 + d
  {
    if p >= 1 {
      assert (acc * 10 + d) * p == (acc * 10 + d) + (acc * 10 + d) * (p - 1);
    }
  }

  lemma {:induction false} ScanDigits(s: string, acc: uint64)
    requires AllDigits(s)
    ensures var v := acc * Pow10(|s|) + DecimalValue(s);
      ScanUint(s, acc) == if v <= MAX_UINT64 then Ok(v) else Err(ErrRange)
  {
    if s != [] {
      var d := DigitValue(s[0]);
      var p := Pow10(|s| - 1);
      ShiftDigit(acc, d, p, DecimalValue(s[1..]));
      if acc * 10 + d <= MAX_UINT64 {
        ScanDigits(s[1..], acc * 10 + d);
      }
    }
  }

  lemma {:induction false} ScanNonDigit(s: string, acc: uint64)
    requires !AllDigits(s)
    ensures ScanUint(s, acc).Err?
  {
    if IsDigit(s[0]) {
      var d := DigitValue(s[0]);
      if acc * 10 + d <= MAX_UINT64 {
        assert !AllDigits(s[1..]) by {
          var i :| 0 <= i < |s| && !IsDigit(s[i]);
          assert s[1..][i - 1] == s[i];
        }
        ScanNonDigit(s[1..], acc * 10 + d);
      }
    }
  }

  /**
   * `ParseInt64` accepts exactly the signed decimal strings whose value fits in an int64, and returns
   * that value; a well-formed string out of range is a range error.
   */
  lemma ParseInt64Spec(s: string)
    ensures ParseInt64(s).Ok? <==> IsDecimal(s) && InInt64(DecimalInt(s))
    ensures ParseInt64(s).Ok? ==> ParseInt64(s).value == DecimalInt(s)
    ensures IsDecimal(s) && !InInt64(DecimalInt(s)) ==> ParseInt64(s) == Err(ErrRange)
  {
    var m := Digits(s);
    if AllDigits(m) {
      ScanDigits(m, 0);
    } else {
      ScanNonDigit(m, 0);
    }
  }

  // ---------------------------------------------------------------------------
  // parseBytes.

  predicate IsUnit(c: char) { c == 'k' || c == 'm' || c == 'g' }

  /** The power of two a unit multiplies by: 2^10, 2^20 or 2^30. */
  function UnitShift(c: char): nat
    requires IsUnit(c)
  {
    match c
    case 'k' => 10
    case 'm' => 20
    case 'g' => 30
  }

  /**
   * `parseBytes` as written: a decimal number with an optional unit `k`, `m` or `g`. The Go expression
   * `num * 1 << 10` groups as `(num * 1) << 10`, a left shift that silently wraps on int64 overflow.
   * An empty string makes Go index out of range, hence the precondition.
   */
  function ParseBytes(s: string): Result<int64>
    requires |s| > 0
  {
    var unit := s[|s| - 1];
    if !IsUnit(unit) then ParseInt64(s)
    else
      match ParseInt64(s[..|s| - 1])
      case Err(e) => Err(e)
      case Ok(num) => Ok(ShiftLeft64(num * 1, UnitShift(unit)))
  }

  /** Without a unit, the whole string is the signed decimal number, or the parse fails. */
  lemma ParseBytesPlain(s: string)
    requires |s| > 0 && !IsUnit(s[|s| - 1])
    ensures ParseBytes(s).Ok? <==> IsDecimal(s) && InInt64(DecimalInt(s))
    ensures ParseBytes(s).Ok? ==> ParseBytes(s).value == DecimalInt(s)
  {
    ParseInt64Spec(s);
  }

  /**
   * With a unit, the string before it must be a signed decimal int64 (otherwise its parse error is
   * returned and no value); the result is that number times 2^10, 2^20 or 2^30, truncated to 64 bits,
   * and exactly the product whenever the product fits.
   */
  lemma ParseBytesWithUnit(s: string)
    requires |s| > 0 && IsUnit(s[|s| - 1])
    ensures var num := s[..|s| - 1];
      && (ParseBytes(s).Ok? <==> IsDecimal(num) && InInt64(DecimalInt(num)))
      && (ParseBytes(s).Ok? ==>
            var x := DecimalInt(num) * Pow2(UnitShift(s[|s| - 1]));
            && (ParseBytes(s).value - x) % TWO_64 == 0
            && (InInt64(x) ==> ParseBytes(s).value == x))
    ensures ParseBytes(s).Err? ==> ParseBytes(s) == ParseInt64(s[..|s| - 1])
  {
    ParseInt64Spec(s[..|s| - 1]);
  }

  lemma Pow2Units()
    ensures Pow2(10) == 1024 && Pow2(20) == 1048576 && Pow2(30) == 1073741824
  {
    assert Pow2(10) == 1024;
    assert Pow2(20) == 1024 * 1024 by { Pow2Add(10, 10); }
    assert Pow2(30) == 1024 * 1048576 by { Pow2Add(10, 20); }
  }

  lemma {:induction false} Pow2Add(a: nat, b: nat)
    ensures Pow2(a + b) == Pow2(a) * Pow2(b)
  {
    if a > 0 {
      Pow2Add(a - 1, b);
    }
  }

  /** A string that ends in a unit, split into the number and the unit. */
  lemma ParseBytesSplit(num: string, unit: char)
    requires IsUnit(unit)
    ensures ParseBytes(num + [unit]) == match ParseInt64(num)
      case Err(e) => Err(e)
      case Ok(n) => Ok(ShiftLeft64(n, UnitShift(unit)))
  {
    assert (num + [unit])[..|num|] == num;
  }

  lemma ParseBytesCheckedSplit(num: string, unit: char)
    requires IsUnit(unit)
    ensures ParseBytesChecked(num + [unit]) == match ParseInt64(num)
      case Err(e) => Err(e)
      case Ok(n) =>
        var x := n * Pow2(UnitShift(unit));
        if InInt64(x) then Ok(x) else Err(ErrRange)
  {
    assert (num + [unit])[..|num|] == num;
  }

  lemma ParseBytesExamples()
    ensures ParseBytes("1k") == Ok(1024)
    ensures ParseBytes("2m") == Ok(2097152)
    ensures ParseBytes("3g") == Ok(3221225472)
    ensures ParseBytes("500") == Ok(500)
  {
    KibiExample();
    MebiExample();
    GibiExample();
  }

  lemma KibiExample()
    ensures ParseBytes("1k") == Ok(1024)
  {
    Pow2Units();
    assert ParseInt64("1") == Ok(1) && "1" + ['k'] == "1k";
    ParseBytesSplit("1", 'k');
  }

  lemma MebiExample()
    ensures ParseBytes("2m") == Ok(2097152)
  {
    Pow2Units();
    assert ParseInt64("2") == Ok(2) && "2" + ['m'] == "2m";
    ParseBytesSplit("2", 'm');
  }

  lemma GibiExample()
    ensures ParseBytes("3g") == Ok(3221225472)
  {
    Pow2Units();
    assert ParseInt64("3") == Ok(3) && "3" + ['g'] == "3g";
    ParseBytesSplit("3", 'g');
  }

  lemma ParseBytesRejects()
    ensures ParseBytes("1.5m") == Err(ErrSyntax)
    ensures ParseBytes("k") == Err(ErrSyntax)
    ensures ParseBytes("-") == Err(ErrSyntax)
  {
    assert ParseInt64("1.5") == Err(ErrSyntax) && "1.5" + ['m'] == "1.5m";
    ParseBytesSplit("1.5", 'm');
    assert ParseInt64("") == Err(ErrSyntax) && "" + ['k'] == "k";
    ParseBytesSplit("", 'k');
  }

  /** Scanning a concatenation scans the first part, then the second from where the first ended. */
  lemma {:induction false} ScanAppend(a: string, b: string, acc: uint64)
    ensures ScanUint(a + b, acc) == match ScanUint(a, acc)
      case Err(e) => Err(e)
      case Ok(v) => ScanUint(b, v)
  {
    if a != [] {
      assert (a + b)[0] == a[0] && (a + b)[1..] == a[1..] + b;
      if IsDigit(a[0]) && acc * 10 + DigitValue(a[0]) <= MAX_UINT64 {
        ScanAppend(a[1..], b, acc * 10 + DigitValue(a[0]));
      }
    } else {
      assert a + b == b;
    }
  }

  lemma ParseInt64Large()
    ensures ParseInt64("17179869185") == Ok(17179869185)
    ensures "17179869185" + ['g'] == "17179869185g"
  {
    ScanLarge();
    ParseInt64OfScan("17179869185", 17179869185);
  }

  /** An unsigned decimal that scans to a value below 2^63 parses to that value. */
  lemma ParseInt64OfScan(s: string, v: uint64)
    requires |s| > 0 && IsDigit(s[0]) && ScanUint(s, 0) == Ok(v) && v < TWO_63
    ensures ParseInt64(s) == Ok(v)
  {
  }

  lemma ScanLarge()
    ensures ScanUint("17179869185", 0) == Ok(17179869185)
  {
    LargeHead();
    LargeTail();
    ScanAppend("171798", "69185", 0);
  }

  lemma LargeHead()
    ensures "17179869185" == "171798" + "69185"
    ensures ScanUint("171798", 0) == Ok(171798)
  {
  }

  lemma LargeTail()
    ensures ScanUint("69185", 171798) == Ok(17179869185)
  {
  }

  lemma ShiftWraps()
    ensures ShiftLeft64(17179869185, 30) == 1073741824
    ensures ShiftLeft64(1, 30) == 1073741824
  {
    Pow2Units();
  }

  /** The as-written parser wraps a large count with a unit: "17179869185g" reads as one gibibyte. */
  lemma ParseBytesWraps()
    ensures ParseBytes("17179869185g") == Ok(1073741824)
    ensures ParseBytes("17179869185g") == ParseBytes("1g")
  {
    WrapsToGibi();
    OneGibi();
  }

  lemma WrapsToGibi()
    ensures ParseBytes("17179869185g") == Ok(1073741824)
  {
    ParseInt64Large();
    ShiftWraps();
    ParseBytesSplit("17179869185", 'g');
  }

  lemma OneGibi()
    ensures ParseBytes("1g") == Ok(1073741824)
  {
    ShiftWraps();
    assert ParseInt64("1") == Ok(1) && "1" + ['g'] == "1g";
    ParseBytesSplit("1", 'g');
  }

  /** `parseBytes` with the unit multiplication checked: a product outside int64 is a range error. */
  function ParseBytesChecked(s: string): Result<int64>
    requires |s| > 0
  {
    var unit := s[|s| - 1];
    if !IsUnit(unit) then ParseInt64(s)
    else
      match ParseInt64(s[..|s| - 1])
      case Err(e) => Err(e)
      case Ok(num) =>
        var x := num * Pow2(UnitShift(unit));
        if InInt64(x) then Ok(x) else Err(ErrRange)
  }

  /**
   * The checked parser returns a value exactly when the number before the unit is a signed decimal
   * and its product with the unit fits in an int64, and that value is the product itself.
   */
  lemma ParseBytesCheckedSpec(s: string)
    requires |s| > 0 && IsUnit(s[|s| - 1])
    ensures var num := s[..|s| - 1];
      && (ParseBytesChecked(s).Ok? <==>
            IsDecimal(num) && InInt64(DecimalInt(num) * Pow2(UnitShift(s[|s| - 1]))))
      && (ParseBytesChecked(s).Ok? ==>
            ParseBytesChecked(s).value == DecimalInt(num) * Pow2(UnitShift(s[|s| - 1])))
  {
    var num := s[..|s| - 1];
    ParseInt64Spec(num);
    if IsDecimal(num) && !InInt64(DecimalInt(num)) {
      OutOfRangeScales(DecimalInt(num), Pow2(UnitShift(s[|s| - 1])));
    }
  }

  lemma OutOfRangeScales(x: int, p: int)
    requires !InInt64(x) && p >= 1
    ensures !InInt64(x * p)
  {
    if x >= 0 {
      assert x * p == x + x * (p - 1);
    } else {
      assert x * p == x + x * (p - 1);
    }
  }

  lemma ParseBytesCheckedRejectsWrap()
    ensures ParseBytesChecked("17179869185g") == Err(ErrRange)
  {
    ParseInt64Large();
    Pow2Units();
    assert !InInt64(17179869185 * Pow2(30));
    ParseBytesCheckedSplit("17179869185", 'g');
  }

  lemma ParseBytesCheckedExample()
    ensures ParseBytesChecked("3g") == Ok(3221225472)
  {
    Pow2Units();
    assert ParseInt64("3") == Ok(3) && "3" + ['g'] == "3g";
    ParseBytesCheckedSplit("3", 'g');
  }
}
