/** Memory limits such as "256m": the strict parser of the DockerContainer reconciler and the scanning
    parser of the DockerJob reconciler. */
module MemoryLimit {
  import opened Wrappers
  import opened GoStrings
  import opened GoInts
  import opened Decimal

  /** Splits off the unit. */
  function Multiplier(s: string): nat {
    if s == "" then 1
    else
      match s[|s| - 1]
      case 'g' => 1024 * 1024 * 1024
      case 'm' => 1024 * 1024
      case 'k' => 1024
      case _ => 1
  }

  function Number(s: string): string {
    if Multiplier(s) == 1 then s else s[..|s| - 1]
  }

  predicate HasSign(s: string) {
    s != "" && (s[0] == '-' || s[0] == '+')
  }

  function Unsigned(s: string): string {
    if HasSign(s) then s[1..] else s
  }

  /** The number a text of digits, perhaps with a sign, stands for. */
  function Signed(s: string): int
    requires AllDigits(Unsigned(s))
  {
    if s != "" && s[0] == '-' then 0 - Value(Unsigned(s)) else Value(Unsigned(s))
  }

  predicate FitsInt64(v: int) {
    MIN_INT64 <= v <= MAX_INT64
  }

  /** `strconv.ParseInt(s, 10, 64)`; None stands for its error. */
  function ParseInt(s: string): Option<int64> {
    if Unsigned(s) == "" || !AllDigits(Unsigned(s)) || !FitsInt64(Signed(s)) then None else Some(Signed(s))
  }

  function DigitPrefix(s: string): (p: string)
    ensures AllDigits(p)
  {
    if s != "" && IsDigit(s[0]) then [s[0]] + DigitPrefix(s[1..]) else ""
  }

  /** What the %d verb of `fmt.Sscanf` takes from the front of s. */
  function NumberPrefix(s: string): (p: string)
    ensures AllDigits(Unsigned(p))
  {
    if HasSign(s) then
      var p := [s[0]] + DigitPrefix(s[1..]);
      assert Unsigned(p) == DigitPrefix(s[1..]);
      p
    else
      NoSign(DigitPrefix(s));
      DigitPrefix(s)
  }

  lemma NoSign(p: string)
    requires AllDigits(p)
    ensures Unsigned(p) == p
  {
    assert p != "" ==> p[0] in p;
  }

  /** The product in int64 arithmetic; a number that does not parse counts as zero. */
  function Scaled(number: Option<int64>, multiplier: nat): int64 {
    match number
    case Some(n) => Wrap64(n * multiplier)
    case None => 0
  }

  /** The text both parsers look at. */
  function Normal(s: string): string {
    TrimSpace(ToLower(s))
  }

  /** `parseMemoryString` of the DockerContainer reconciler. */
  function Strict(s: string): int64 {
    Scaled(ParseInt(Number(Normal(s))), Multiplier(Normal(s)))
  }

  /** `parseMemoryString` of the DockerJob reconciler. */
  function Scanning(s: string): int64 {
    Scaled(ParseInt(NumberPrefix(Number(Normal(s)))), Multiplier(Normal(s)))
  }

  // Canonical texts

  predicate IsUnit(unit: string) {
    unit == "" || unit == "k" || unit == "m" || unit == "g"
  }

  lemma {:induction false} DigitPrefixOfDigits(s: string)
    requires AllDigits(s)
    ensures DigitPrefix(s) == s
  {
    if s != "" {
      assert s[0] in s;
      DigitPrefixOfDigits(s[1..]);
      assert s == [s[0]] + s[1..];
    }
  }

  /** Neither trimming nor lower-casing concerns this character. */
  predicate Plain(c: char) {
    LowerChar(c) == c && !IsSpace(c)
  }

  predicate AllPlain(s: string) {
    forall i :: 0 <= i < |s| ==> Plain(s[i])
  }

  lemma PlainIsNormal(s: string)
    requires AllPlain(s)
    ensures Normal(s) == s
  {
    assert ToLower(s) == s;
    TrimmedIsFixed(s);
  }

  lemma PrintIsPlain(v: int)
    ensures PrintInt(v) != "" && AllPlain(PrintInt(v)) && IsDigit(PrintInt(v)[|PrintInt(v)| - 1])
  {
    var digits := Print(if v < 0 then -v else v);
    forall i | 0 <= i < |digits| ensures IsDigit(digits[i]) {
      assert digits[i] in digits;
    }
  }

  lemma UnitComesOff(p: string, unit: string)
    requires IsUnit(unit) && p != "" && IsDigit(p[|p| - 1])
    ensures Number(p + unit) == p && Multiplier(p + unit) == Multiplier(unit)
  {
    var s := p + unit;
    if unit == "" {
      assert s == p;
    } else {
      assert s[|s| - 1] == unit[0] && s[..|s| - 1] == p;
    }
  }

  lemma WithUnitIsPlain(p: string, unit: string)
    requires IsUnit(unit) && AllPlain(p)
    ensures AllPlain(p + unit)
  {
    forall i | 0 <= i < |unit| ensures Plain(unit[i]) {
      assert unit[i] == 'k' || unit[i] == 'm' || unit[i] == 'g';
    }
  }

  lemma CanonicalIsNormal(v: int, unit: string)
    requires IsUnit(unit)
    ensures var s := PrintInt(v) + unit;
            Normal(s) == s && Number(s) == PrintInt(v) && Multiplier(s) == Multiplier(unit)
  {
    PrintIsPlain(v);
    WithUnitIsPlain(PrintInt(v), unit);
    PlainIsNormal(PrintInt(v) + unit);
    UnitComesOff(PrintInt(v), unit);
  }

  lemma PrintParses(v: int)
    ensures NumberPrefix(PrintInt(v)) == PrintInt(v)
    ensures ParseInt(PrintInt(v)) == if FitsInt64(v) then Some(v) else None
  {
    var digits := Print(if v < 0 then -v else v);
    PrintThenRead(if v < 0 then -v else v);
    DigitPrefixOfDigits(digits);
    NoSign(digits);
    assert v < 0 ==> PrintInt(v)[1..] == digits;
    assert v >= 0 ==> digits[0] in digits;
  }

  /** The units are powers of 1024. */
  predicate UnitIs(unit: string, factor: nat) {
    || (unit == "" && factor == 1)
    || (unit == "k" && factor == 1024)
    || (unit == "m" && factor == 1_048_576)
    || (unit == "g" && factor == 1_073_741_824)
  }

  /** A printed number with a unit is read back as their product exactly when the product fits an
      int64, by both parsers. */
  lemma CanonicalValue(v: int, unit: string, factor: nat)
    requires UnitIs(unit, factor)
    ensures var s := PrintInt(v) + unit;
            Strict(s) == Scanning(s) && (Strict(s) == v * factor <==> MIN_INT64 <= v * factor <= MAX_INT64)
  {
    CanonicalIsNormal(v, unit);
    PrintParses(v);
    assert Multiplier(unit) == factor;
    ScaledExact(v, factor);
  }

  lemma ScaledExact(v: int, multiplier: nat)
    requires multiplier >= 1
    ensures Scaled(if FitsInt64(v) then Some(v) else None, multiplier) == v * multiplier
            <==> FitsInt64(v * multiplier)
  {
    ProductAtLeast(v, multiplier);
    if FitsInt64(v) {
      WrapExact(v * multiplier);
    }
  }

  lemma ProductAtLeast(v: int, multiplier: nat)
    requires multiplier >= 1
    ensures v >= 0 ==> v * multiplier >= v
    ensures v <= 0 ==> v * multiplier <= v
  {
  }

  lemma WrapExact(x: int)
    ensures Wrap64(x) == x <==> FitsInt64(x)
  {
  }

  /** The same letter, perhaps in the other case. */
  predicate SameLetter(c: char, d: char) {
    c == d || ('A' <= c <= 'Z' && d == c - 'A' + 'a') || ('A' <= d <= 'Z' && c == d - 'A' + 'a')
  }

  lemma SameLettersLower(s: string, t: string)
    requires |s| == |t| && forall i :: 0 <= i < |s| ==> SameLetter(s[i], t[i])
    ensures ToLower(s) == ToLower(t)
  {
    forall i | 0 <= i < |s| ensures LowerChar(s[i]) == LowerChar(t[i]) {
      assert SameLetter(s[i], t[i]);
    }
  }

  lemma SpaceIsIgnored(l: string, s: string, e: string)
    requires AllSpace(l) && AllSpace(e)
    ensures Normal(l + s + e) == Normal(s)
  {
    ToLowerConcat(l + s, e);
    ToLowerConcat(l, s);
    ToLowerSpace(l);
    ToLowerSpace(e);
    TrimIgnoresSpace(l, ToLower(s), e);
  }

  /** Case and surrounding white space do not matter. */
  lemma CaseAndSpaceIgnored(l: string, s: string, t: string, e: string)
    requires AllSpace(l) && AllSpace(e)
    requires |s| == |t| && forall i :: 0 <= i < |s| ==> SameLetter(s[i], t[i])
    ensures Strict(l + s + e) == Strict(t) && Scanning(l + s + e) == Scanning(t)
  {
    SpaceIsIgnored(l, s, e);
    SameLettersLower(s, t);
    assert Normal(l + s + e) == Normal(t);
  }

  /** A character in the middle that is not a digit makes the strict parser give zero. */
  lemma StrayCharacterIsZero(s: string, i: nat)
    requires 0 < i < |Normal(s)| - 1 && !IsDigit(Normal(s)[i])
    ensures Strict(s) == 0
  {
    var n := Number(Normal(s));
    assert n[i] == Normal(s)[i];
    assert Unsigned(n)[if HasSign(n) then i - 1 else i] == n[i];
    assert n[i] in Unsigned(n);
  }

  // Everything else

  lemma {:induction false} DigitPrefixShorter(s: string)
    ensures DigitPrefix(s) == s <==> AllDigits(s)
  {
    if s != "" {
      DigitPrefixShorter(s[1..]);
      assert s == [s[0]] + s[1..];
    }
  }

  lemma IncompleteIsRejected(s: string)
    requires NumberPrefix(s) != s
    ensures ParseInt(s) == None
  {
    if HasSign(s) {
      DigitPrefixShorter(s[1..]);
      assert s == [s[0]] + s[1..];
    } else {
      DigitPrefixShorter(s);
    }
  }

  /** A number that overflows to zero once it is scaled. */
  predicate ScalesToZero(v: int, multiplier: nat) {
    (v * multiplier) % 0x1_0000_0000_0000_0000 == 0
  }

  lemma WrapsToZero(x: int)
    ensures Wrap64(x) == 0 <==> x % 0x1_0000_0000_0000_0000 == 0
  {
  }

  /** The parsers agree on a text exactly when nothing follows its number, or the number has no digits,
      does not fit an int64 or scales to zero. "1.5g" is one where they differ. */
  lemma AgreeExactly(s: string)
    ensures var number, multiplier := Number(Normal(s)), Multiplier(Normal(s));
            var prefix := NumberPrefix(number);
            Strict(s) == Scanning(s) <==>
            || prefix == number
            || Unsigned(prefix) == ""
            || !FitsInt64(Signed(prefix))
            || ScalesToZero(Signed(prefix), multiplier)
  {
    var n, multiplier := Number(Normal(s)), Multiplier(Normal(s));
    var p := NumberPrefix(n);
    if p != n {
      IncompleteIsRejected(n);
      WrapsToZero(Signed(p) * multiplier);
    }
  }

  lemma FractionDiffers()
    ensures Strict("1.5g") == 0 && Scanning("1.5g") == 1024 * 1024 * 1024
  {
    var s := "1.5g";
    assert AllPlain(s);
    PlainIsNormal(s);
    assert Number(s) == "1.5" && Multiplier(s) == 1024 * 1024 * 1024;
    assert ParseInt("1.5") == None by {
      assert '.' in "1.5";
    }
    assert NumberPrefix("1.5") == "1" by {
      assert "1.5"[1..] == ".5" && DigitPrefix(".5") == "";
    }
    assert ParseInt("1") == Some(1) by {
      assert Value("1") == 10 * Value("1"[..0]) + 1;
    }
  }
}
