/** Go's `fmt` verb `%d`: printing integers to decimal text, and scanning them
    back with `fmt.Sscanf(text, "%d", &v)` into an `int` or a `uint64`. */
module Fmt {
  import opened Base
  import opened Strings

  const MINUS: byte := 0x2D
  const PLUS: byte := 0x2B

  predicate IsDigit(b: byte) {
    0x30 <= b <= 0x39
  }

  predicate AllDigits(s: seq<byte>) {
    forall i | 0 <= i < |s| :: IsDigit(s[i])
  }

  /** The ASCII digits '0' to '9'. */
  const DIGITS: seq<byte> := [0x30, 0x31, 0x32, 0x33, 0x34, 0x35, 0x36, 0x37, 0x38, 0x39]

  function DigitChar(d: nat): (b: byte)
    requires d < 10
    ensures IsDigit(b)
  {
    DIGITS[d]
  }

  function DigitValue(b: byte): (d: nat)
    requires IsDigit(b)
    ensures d < 10 && DigitChar(d) == b
  {
    if b == 0x30 then 0 else if b == 0x31 then 1 else if b == 0x32 then 2
    else if b == 0x33 then 3 else if b == 0x34 then 4 else if b == 0x35 then 5
    else if b == 0x36 then 6 else if b == 0x37 then 7 else if b == 0x38 then 8
    else 9
  }

  lemma DigitRoundTrip(d: nat)
    requires d < 10
    ensures DigitValue(DigitChar(d)) == d
  {
  }

  // ---------------------------------------------------------------- printing

  /** `%d` of a non-negative integer: its decimal digits, most significant
      first, with no leading zero. */
  function FormatNat(n: nat): (r: seq<byte>)
    ensures r != [] && AllDigits(r)
    ensures |r| > 1 ==> r[0] != DigitChar(0)
    decreases n
  {
    if n < 10 then [DigitChar(n)] else FormatNat(n / 10) + [DigitChar(n % 10)]
  }

  /** `%d` of a signed integer: a minus sign before the digits of a negative one. */
  function FormatInt(x: int): (r: seq<byte>)
    ensures r != [] && IsDigit(r[|r| - 1])
    ensures COLON !in r && NEWLINE !in r
    ensures |r| > 0 && !IsSpace(r[0])
  {
    if x < 0 then [MINUS] + FormatNat(-x) else FormatNat(x)
  }

  /** The value of a run of decimal digits, read left to right as strconv does. */
  function Value(ds: seq<byte>): nat
    requires AllDigits(ds)
  {
    if ds == [] then 0 else Value(ds[..|ds| - 1]) * 10 + DigitValue(ds[|ds| - 1])
  }

  /** Reading back what `%d` printed gives the number printed. */
  lemma {:induction false} ValueOfFormatNat(n: nat)
    ensures Value(FormatNat(n)) == n
    decreases n
  {
    if n < 10 {
      DigitRoundTrip(n);
    } else {
      var r := FormatNat(n);
      assert r[..|r| - 1] == FormatNat(n / 10);
      ValueOfFormatNat(n / 10);
      DigitRoundTrip(n % 10);
      assert Value(r) == (n / 10) * 10 + n % 10;
    }
  }

  // ---------------------------------------------------------------- scanning

  /** Why a scan fails. The first three messages are those of Go's scanner
      ("EOF" also when the input ends after a sign); Go reports a number out
      of range with strconv's error, `strconv.ParseInt: parsing "<token>":
      value out of range` (ParseUint for a uint64), which the model
      shortens to "value out of range". */
  datatype ScanError = UnexpectedNewline | NoInput | ExpectedInteger | OutOfRange
  {
    function Message(): (text: seq<byte>)
      ensures text != [] && NEWLINE !in text && !IsSpace(text[|text| - 1])
      ensures text[|text| - 1] < 0x80
    {
      var literal := match this
        case UnexpectedNewline => "unexpected newline"
        case NoInput => "EOF"
        case ExpectedInteger => "expected integer"
        case OutOfRange => "value out of range";
      AsciiPrintable(literal);
      Ascii(literal)
    }
  }

  /** The ASCII white space the scanner skips before a number; a newline is not
      skipped, it ends the scan with an error. */
  predicate IsScanSpace(b: byte) {
    b == 0x09 || b == 0x0B || b == 0x0C || b == 0x0D || b == 0x20
  }

  /** `s` after the white space the scanner skips. */
  function SkipSpace(s: seq<byte>): (r: seq<byte>)
    ensures |r| <= |s| && r == s[|s| - |r|..]
    ensures forall i | 0 <= i < |s| - |r| :: IsScanSpace(s[i])
    ensures r == [] || !IsScanSpace(r[0])
  {
    if s != [] && IsScanSpace(s[0]) then SkipSpace(s[1..]) else s
  }

  /** The length of the run of digits `s` starts with. */
  function DigitRun(s: seq<byte>): (k: nat)
    ensures k <= |s| && AllDigits(s[..k])
    ensures k < |s| ==> !IsDigit(s[k])
  {
    if s != [] && IsDigit(s[0]) then
      var k := 1 + DigitRun(s[1..]);
      assert s[..k] == [s[0]] + s[1..][..k - 1];
      k
    else 0
  }

  /** The text before the number: white space skipped, then a newline or the end
      of input is an error. */
  function ScanStart(s: seq<byte>): (r: Result<seq<byte>, ScanError>)
    ensures r == Err(NoInput) <==> forall i | 0 <= i < |s| :: IsScanSpace(s[i])
    ensures r == Err(UnexpectedNewline) <==> SkipSpace(s) != [] && SkipSpace(s)[0] == NEWLINE
    ensures r.Ok? ==> r.value == SkipSpace(s) && r.value != [] && HasSuffixOf(s, r.value)
    ensures r.Ok? || r == Err(NoInput) || r == Err(UnexpectedNewline)
  {
    var t := SkipSpace(s);
    if t == [] then Err(NoInput)
    else if t[0] == NEWLINE then Err(UnexpectedNewline)
    else Ok(t)
  }

  predicate HasSuffixOf(s: seq<byte>, t: seq<byte>) {
    |t| <= |s| && s[|s| - |t|..] == t
  }

  /** The number at the start of `t`: its run of digits, which must not be
      empty; what follows the run is left unread. */
  function ScanNumber(t: seq<byte>): (r: Result<nat, ScanError>)
    ensures r.Err? <==> t == [] || !IsDigit(t[0])
    ensures r.Err? ==> r.error == ExpectedInteger
  {
    var k := DigitRun(t);
    if k == 0 then Err(ExpectedInteger) else Ok(Value(t[..k]))
  }

  /** `fmt.Sscanf(s, "%d", &v)` with `v` a uint64: one or more digits after the
      skipped white space (no sign), in range; text after the digits is ignored. */
  function ScanUint(s: seq<byte>): (r: Result<uint64, ScanError>)
    ensures s == [] ==> r == Err(NoInput)
  {
    match ScanStart(s)
    case Err(e) => Err(e)
    case Ok(t) =>
      match ScanNumber(t)
      case Err(e) => Err(e)
      case Ok(v) => if v <= UINT64_MAX then Ok(v) else Err(OutOfRange)
  }

  /** `fmt.Sscanf(s, "%d", &v)` with `v` an int: as ScanUint, but a sign '+' or
      '-' may precede the digits and the value must fit in 64 bits. */
  function ScanInt(s: seq<byte>): (r: Result<int64, ScanError>)
    ensures s == [] ==> r == Err(NoInput)
  {
    match ScanStart(s)
    case Err(e) => Err(e)
    case Ok(t) => ScanSigned(t)
  }

  /** The signed number at the start of `t`, which is not empty. */
  function ScanSigned(t: seq<byte>): (r: Result<int64, ScanError>)
    requires t != []
    ensures r.Ok? && r.value < 0 ==> t[0] == MINUS
    ensures |t| == 1 && (t[0] == MINUS || t[0] == PLUS) ==> r == Err(NoInput)
  {
    var negative := t[0] == MINUS;
    var unsigned := if negative || t[0] == PLUS then t[1..] else t;
    if unsigned == [] then Err(NoInput)
    else match ScanNumber(unsigned)
    case Err(e) => Err(e)
    case Ok(magnitude) =>
      var v: int := if negative then -(magnitude as int) else magnitude;
      if INT64_MIN <= v <= INT64_MAX then Ok(v) else Err(OutOfRange)
  }

  /** A sign with nothing after it ends the input where Go's scanner expects
      a digit, so the scan fails with "EOF". */
  lemma ScanIntOfLoneSign(sign: byte)
    requires sign == MINUS || sign == PLUS
    ensures ScanInt([sign]) == Err(NoInput)
    ensures ScanInt([sign]).error.Message() == Ascii("EOF")
  {
    assert !IsScanSpace(sign) && [sign][0] == sign;
    assert SkipSpace([sign]) == [sign];
    assert ScanStart([sign]) == Ok([sign]);
    assert [sign][1..] == [];
    assert ScanSigned([sign]) == Err(NoInput);
  }

  /** Text with no digit in it does not scan as a uint64. */
  lemma ScanUintOfNonDigits(s: seq<byte>)
    requires forall i | 0 <= i < |s| :: !IsDigit(s[i])
    ensures ScanUint(s).Err?
  {
    var t := SkipSpace(s);
    if t != [] {
      assert t[0] == s[|s| - |t|];
    }
  }

  lemma ScanNumberOfDigits(digits: seq<byte>)
    requires digits != [] && AllDigits(digits)
    ensures ScanNumber(digits) == Ok(Value(digits))
  {
    DigitRunOfDigits(digits);
    assert digits[..|digits|] == digits;
  }

  /** Scanning exactly what `%d` printed for a uint64 gives it back. */
  lemma ScanUintOfFormat(n: uint64)
    ensures ScanUint(FormatNat(n)) == Ok(n)
  {
    var r := FormatNat(n);
    assert SkipSpace(r) == r;
    ScanNumberOfDigits(r);
    ValueOfFormatNat(n);
  }

  /** Scanning exactly what `%d` printed for an int gives it back. */
  lemma ScanIntOfFormat(x: int64)
    ensures ScanInt(FormatInt(x)) == Ok(x)
  {
    if x < 0 {
      var m: nat := -(x as int);
      ValueOfFormatNat(m);
      ScanNumberOfDigits(FormatNat(m));
      ScanIntOfNegative(FormatNat(m), m);
    } else {
      ValueOfFormatNat(x);
      ScanIntOfDigits(FormatNat(x));
    }
  }

  lemma ScanIntOfDigits(digits: seq<byte>)
    requires digits != [] && AllDigits(digits) && Value(digits) <= INT64_MAX
    ensures ScanInt(digits) == Ok(Value(digits))
  {
    ScanStartOfDigits(digits);
    ScanIntOfStart(digits, digits);
    ScanNumberOfDigits(digits);
    ScanSignedPositive(digits, Value(digits));
  }

  /** Text that starts with a digit is where the number starts. */
  lemma ScanStartOfDigits(t: seq<byte>)
    requires t != [] && IsDigit(t[0])
    ensures ScanStart(t) == Ok(t)
  {
    assert SkipSpace(t) == t;
  }

  /** ScanInt reads the signed number where ScanStart puts it. */
  lemma ScanIntOfStart(s: seq<byte>, t: seq<byte>)
    requires ScanStart(s) == Ok(t)
    ensures t != [] && ScanInt(s) == ScanSigned(t)
  {
  }

  lemma ScanSignedPositive(t: seq<byte>, m: nat)
    requires t != [] && IsDigit(t[0]) && ScanNumber(t) == Ok(m) && m <= INT64_MAX
    ensures ScanSigned(t) == Ok(m)
  {
  }

  lemma ScanIntOfNegative(digits: seq<byte>, m: nat)
    requires digits != [] && AllDigits(digits) && ScanNumber(digits) == Ok(m)
    requires m <= -INT64_MIN
    ensures ScanInt([MINUS] + digits) == Ok(-(m as int))
  {
    var r := [MINUS] + digits;
    assert ScanStart(r) == Ok(r) by {
      assert SkipSpace(r) == r;
    }
    ScanIntOfStart(r, r);
    assert r[1..] == digits;
    ScanSignedNegative(r, m);
  }

  lemma ScanSignedNegative(t: seq<byte>, m: nat)
    requires t != [] && t[0] == MINUS && ScanNumber(t[1..]) == Ok(m) && m <= -INT64_MIN
    ensures ScanSigned(t) == Ok(-(m as int))
  {
  }

  lemma {:induction false} DigitRunOfDigits(s: seq<byte>)
    requires AllDigits(s)
    ensures DigitRun(s) == |s|
  {
    if s != [] {
      DigitRunOfDigits(s[1..]);
    }
  }
}
