/** The page-size list of common/constants.go: a canonicalising parser and printer. */
module PageSize {
  import opened Text
  import opened OrderedSets

  // ----- decimal numbers -----

  predicate IsDigit(c: char) {
    '0' <= c <= '9'
  }

  function DigitValue(c: char): nat
    requires IsDigit(c)
  {
    c as int - '0' as int
  }

  function DigitChar(d: nat): char
    requires d < 10
  {
    "0123456789"[d]
  }

  predicate AllDigits(s: string) {
    forall i :: 0 <= i < |s| ==> IsDigit(s[i])
  }

  function Value(s: string): nat
    requires AllDigits(s)
  {
    if s == [] then 0 else 10 * Value(s[..|s| - 1]) + DigitValue(s[|s| - 1])
  }

  datatype Parsed = Number(n: int) | BadNumber

  const MAX_INT := 0x7fff_ffff_ffff_ffff

  /** `strconv.Atoi` on a 64-bit platform: optional sign, then decimal digits only, within the int range. */
  function Atoi(s: string): Parsed {
    var negative := s != [] && s[0] == '-';
    var digits := if s != [] && (s[0] == '-' || s[0] == '+') then s[1..] else s;
    if digits == [] || !AllDigits(digits) then BadNumber
    else
      var n: int := Value(digits);
      if negative then (if n <= MAX_INT + 1 then Number(-n) else BadNumber)
      else if n <= MAX_INT then Number(n) else BadNumber
  }

  /** `strconv.Itoa`. */
  function Itoa(n: int): string
    decreases if n < 0 then 1 else 0, n
  {
    if n < 0 then "-" + Itoa(-n)
    else if n < 10 then [DigitChar(n)]
    else Itoa(n / 10) + [DigitChar(n % 10)]
  }

  lemma DigitRoundTrip(d: nat)
    requires d < 10
    ensures IsDigit(DigitChar(d)) && DigitValue(DigitChar(d)) == d
  {
  }

  lemma {:induction false} ItoaDigits(n: nat)
    ensures Itoa(n) != [] && AllDigits(Itoa(n)) && Value(Itoa(n)) == n
  {
    if n < 10 {
      DigitRoundTrip(n);
      assert Itoa(n)[..0] == [];
    } else {
      ItoaDigits(n / 10);
      DigitRoundTrip(n % 10);
      assert Itoa(n)[..|Itoa(n)| - 1] == Itoa(n / 10);
    }
  }

  /** Plain digits parse as their value. */
  lemma AtoiDigits(s: string, n: int)
    requires s != [] && AllDigits(s) && Value(s) == n
    ensures n <= MAX_INT ==> Atoi(s) == Number(n)
    ensures n <= MAX_INT + 1 ==> Atoi("-" + s) == Number(-n)
  {
    hide Value;
    assert IsDigit(s[0]);
    assert ("-" + s)[1..] == s;
  }

  /** Printing a number and parsing it gives it back, for every int of the platform. */
  lemma AtoiItoa(n: int)
    requires -MAX_INT - 1 <= n <= MAX_INT
    ensures Atoi(Itoa(n)) == Number(n)
  {
    hide Value, Atoi;
    if n < 0 {
      ItoaDigits(-n);
      assert Itoa(n) == "-" + Itoa(-n);
      hide Itoa;
      AtoiDigits(Itoa(-n), -n);
    } else {
      hide Itoa;
      ItoaDigits(n);
      AtoiDigits(Itoa(n), n);
    }
  }

  // ----- the list -----

  datatype Result = Ok(text: string) | Invalid

  const DEFAULT_OPTIONS := "10,20,50,100"

  predicate PageSizeOk(n: int) {
    1 <= n <= 100
  }

  /** The numbers that the parts denote, or nothing if some part is not a page size. */
  function Numbers(parts: seq<string>): (r: seq<int>)
    requires AllNumeric(parts)
    ensures |r| == |parts|
  {
    seq(|parts|, i requires 0 <= i < |parts| => Atoi(Trim(parts[i])).n)
  }

  predicate AllNumeric(parts: seq<string>) {
    forall i :: 0 <= i < |parts| ==> Atoi(Trim(parts[i])).Number?
  }

  /** A valid configuration: every part a page size, none twice. */
  ghost predicate ValidParts(parts: seq<string>) {
    && AllNumeric(parts)
    && (forall i :: 0 <= i < |parts| ==> PageSizeOk(Numbers(parts)[i]))
    && Distinct(Numbers(parts))
  }

  function Printed(ns: seq<int>): (r: seq<string>)
    ensures |r| == |ns|
  {
    seq(|ns|, i requires 0 <= i < |ns| => Itoa(ns[i]))
  }

  /** Valid exactly when every part is a distinct page size; then the canonical text of those numbers. */
  ghost function Normalized(value: string): Result {
    var parts := Split(value, ',');
    if ValidParts(parts) then Ok(Join(Printed(Numbers(parts)), ',')) else Invalid
  }

  /** Accepts exactly the texts that configure some list of page sizes, and prints that list. */
  method NormalizePageSizeOptions(value: string) returns (r: Result)
    ensures r == Normalized(value)
    ensures r.Ok? <==> exists ns :: Configures(value, ns)
    ensures forall ns :: Configures(value, ns) ==> r == Ok(Join(Printed(ns), ','))
  {
    AcceptedExactly(value);
    hide Configures;
    var parts := Split(value, ',');
    hide Split, Atoi, Itoa, Trim, Join;
    var seen: set<int> := {};
    var normalized: seq<string> := [];
    ghost var numbers: seq<int> := [];
    for i := 0 to |parts|
      invariant |numbers| == i == |normalized|
      invariant forall j :: 0 <= j < i ==> Atoi(Trim(parts[j])) == Number(numbers[j]) && PageSizeOk(numbers[j])
      invariant forall j :: 0 <= j < i ==> normalized[j] == Itoa(numbers[j])
      invariant Distinct(numbers)
      invariant forall n :: n in seen <==> n in numbers
    {
      var parsed := Atoi(Trim(parts[i]));
      if parsed.BadNumber? || parsed.n < 1 || parsed.n > 100 {
        BadPart(parts, i);
        return Invalid;
      }
      if parsed.n in seen {
        Repeated(parts, numbers, i, parsed.n);
        return Invalid;
      }
      seen := seen + {parsed.n};
      normalized := normalized + [Itoa(parsed.n)];
      numbers := numbers + [parsed.n];
    }
    assert numbers == Numbers(parts);
    assert normalized == Printed(numbers);
    return Ok(Join(normalized, ','));
  }

  lemma BadPart(parts: seq<string>, i: nat)
    requires i < |parts|
    requires var p := Atoi(Trim(parts[i])); p.BadNumber? || !PageSizeOk(p.n)
    ensures !ValidParts(parts)
  {
    if AllNumeric(parts) {
      assert !PageSizeOk(Numbers(parts)[i]);
    }
  }

  lemma Repeated(parts: seq<string>, numbers: seq<int>, i: nat, n: int)
    requires i < |parts| && |numbers| == i && n in numbers && Atoi(Trim(parts[i])) == Number(n)
    requires forall j :: 0 <= j < i ==> Atoi(Trim(parts[j])) == Number(numbers[j])
    ensures !ValidParts(parts)
  {
    var j :| 0 <= j < i && numbers[j] == n;
    if AllNumeric(parts) {
      assert Numbers(parts)[j] == Numbers(parts)[i];
    }
  }

  /** The runtime list: the configured numbers, or the built-in ones. */
  ghost function ParsedOptions(value: string): seq<int> {
    var parts := Split(value, ',');
    if ValidParts(parts) then Numbers(parts) else [10, 20, 50, 100]
  }

  /** Numbers printed canonically are valid parts, and denote themselves. */
  lemma PrintedValid(ns: seq<int>)
    requires ns != [] && Distinct(ns) && forall i :: 0 <= i < |ns| ==> PageSizeOk(ns[i])
    ensures Split(Join(Printed(ns), ','), ',') == Printed(ns)
    ensures ValidParts(Printed(ns)) && Numbers(Printed(ns)) == ns
    ensures forall i :: 0 <= i < |ns| ==> Atoi(Printed(ns)[i]) == Number(ns[i])
  {
    var parts := Printed(ns);
    hide Split, Join, Atoi, Itoa, Trim;
    forall i | 0 <= i < |ns|
      ensures ',' !in parts[i] && Trim(parts[i]) == parts[i] && Atoi(parts[i]) == Number(ns[i])
    {
      PrintedPart(ns[i]);
    }
    SplitJoin(parts, ',');
    assert AllNumeric(parts);
    assert Numbers(parts) == ns;
  }

  lemma PrintedPart(n: nat)
    ensures ',' !in Itoa(n) && Trim(Itoa(n)) == Itoa(n)
    ensures n <= MAX_INT ==> Atoi(Itoa(n)) == Number(n)
  {
    ItoaDigits(n);
    var s := Itoa(n);
    assert IsDigit(s[0]) && IsDigit(s[|s| - 1]);
    TrimFixed(s);
    if n <= MAX_INT {
      AtoiItoa(n);
    }
  }

  /** Normalisation is idempotent on every input it accepts. */
  lemma NormalizeIdempotent(value: string)
    ensures Normalized(value).Ok? ==> Normalized(Normalized(value).text) == Normalized(value)
  {
    var parts := Split(value, ',');
    if ValidParts(parts) {
      hide Split, Join, Atoi, Itoa, Trim;
      PrintedValid(Numbers(parts));
    }
  }

  /** Every list of distinct page sizes is the meaning of its own canonical text. */
  lemma CanonicalRoundTrip(ns: seq<int>)
    requires ns != [] && Distinct(ns) && forall i :: 0 <= i < |ns| ==> PageSizeOk(ns[i])
    ensures var text := Join(Printed(ns), ',');
            Normalized(text) == Ok(text) && ParsedOptions(text) == ns
  {
    hide Split, Join, Atoi, Itoa, Trim;
    PrintedValid(ns);
  }

  lemma DefaultOptions()
    ensures DEFAULT_OPTIONS == Join(Printed([10, 20, 50, 100]), ',')
  {
    assert Itoa(10) == "10" && Itoa(20) == "20" && Itoa(50) == "50";
    assert Itoa(10) + [DigitChar(0)] == "100";
    assert Itoa(100) == "100";
    var p := Printed([10, 20, 50, 100]);
    assert p == ["10", "20", "50", "100"];
    assert p[1..] == ["20", "50", "100"] && p[1..][1..] == ["50", "100"] && p[1..][1..][1..] == ["100"];
  }

  /** The runtime list is the configured numbers in order, or the defaults; always distinct page sizes. */
  method ParsePageSizeOptions(value: string) returns (result: seq<int>)
    ensures result == ParsedOptions(value)
    ensures forall ns :: Configures(value, ns) ==> result == ns
    ensures result != [] && Distinct(result) && forall i :: 0 <= i < |result| ==> 1 <= result[i] <= 100
  {
    hide Split, Join, Atoi, Itoa, Trim, Printed, Numbers, AllNumeric, Configures;
    AcceptedExactly(value);
    ghost var wanted := ParsedOptions(value);
    WantedOptions(value);
    var r := NormalizePageSizeOptions(value);
    var normalized := if r.Ok? then r.text else DEFAULT_OPTIONS;
    PrintedValid(wanted);
    var parts := Split(normalized, ',');
    result := [];
    for i := 0 to |parts|
      invariant |result| == i && forall j :: 0 <= j < i ==> result[j] == wanted[j]
    {
      var parsed := Atoi(parts[i]);
      result := result + [if parsed.Number? then parsed.n else 0];
    }
    assert result == wanted;
  }

  lemma WantedOptions(value: string)
    ensures var wanted := ParsedOptions(value);
            && wanted != [] && Distinct(wanted) && (forall i :: 0 <= i < |wanted| ==> PageSizeOk(wanted[i]))
            && Join(Printed(wanted), ',')
               == match Normalized(value) case Ok(text) => text case Invalid => DEFAULT_OPTIONS
  {
    hide Split, Join, Atoi, Itoa, Trim, Printed, AllNumeric;
    DefaultOptions();
  }

  // ----- what a configured text means, without the parser -----

  /** An optional sign and decimal digits, leading zeros allowed, that stand for a 64-bit number. */
  ghost predicate Numeral(text: string, n: int) {
    && -MAX_INT - 1 <= n <= MAX_INT
    && exists sign: string, digits: string :: IsNumeral(text, sign, digits, n)
  }

  predicate IsNumeral(text: string, sign: string, digits: string, n: int) {
    && (sign == "" || sign == "+" || sign == "-") && digits != [] && AllDigits(digits) && text == sign + digits
    && n == if sign == "-" then 0 - Value(digits) else Value(digits)
  }

  /** A part stands for `n` when it is a numeral for it with white space around. */
  ghost predicate Denotes(part: string, n: int) {
    exists text: string :: Surrounded(part, text) && Numeral(text, n)
  }

  lemma AtoiExact(s: string, n: int)
    ensures Atoi(s) == Number(n) <==> Numeral(s, n)
  {
    hide Value;
    if Atoi(s) == Number(n) {
      var sign := if s[0] == '-' || s[0] == '+' then s[..1] else "";
      var digits := s[|sign|..];
      assert s == sign + digits;
      assert IsNumeral(s, sign, digits, n);
    }
    if Numeral(s, n) {
      var sign: string, digits: string :| IsNumeral(s, sign, digits, n);
      assert s[|sign|..] == digits && IsDigit(digits[0]);
      assert sign == "" ==> s[0] == digits[0];
    }
  }

  lemma NumeralTrimmed(text: string, n: int)
    requires Numeral(text, n)
    ensures Trimmed(text)
  {
    var sign: string, digits: string :| IsNumeral(text, sign, digits, n);
    assert IsDigit(digits[0]) && IsDigit(digits[|digits| - 1]);
    assert text[|text| - 1] == digits[|digits| - 1] && text[0] == if sign == "" then digits[0] else sign[0];
  }

  lemma DenotesExact(part: string, n: int)
    ensures Atoi(Trim(part)) == Number(n) <==> Denotes(part, n)
  {
    hide Atoi, Trim, Numeral, Surrounded;
    TrimExact(part, Trim(part));
    AtoiExact(Trim(part), n);
    if Denotes(part, n) {
      var text: string :| Surrounded(part, text) && Numeral(text, n);
      NumeralTrimmed(text, n);
      TrimExact(part, text);
    }
  }

  /** `value` is a comma-separated list of parts that stand for these numbers: distinct, each a page size. */
  ghost predicate Configures(value: string, ns: seq<int>) {
    && ns != [] && Distinct(ns) && (forall i :: 0 <= i < |ns| ==> PageSizeOk(ns[i]))
    && exists parts: seq<string> :: |parts| == |ns| && PartsOf(value, parts) && AllDenote(parts, ns)
  }

  ghost predicate PartsOf(value: string, parts: seq<string>) {
    parts != [] && (forall i :: 0 <= i < |parts| ==> ',' !in parts[i]) && Join(parts, ',') == value
  }

  ghost predicate AllDenote(parts: seq<string>, ns: seq<int>)
    requires |parts| == |ns|
  {
    forall i :: 0 <= i < |ns| ==> Denotes(parts[i], ns[i])
  }

  lemma PartsExact(value: string, parts: seq<string>)
    ensures PartsOf(value, parts) <==> parts == Split(value, ',')
  {
    SplitParts(value, ',');
    JoinSplit(value, ',');
    if PartsOf(value, parts) {
      SplitJoin(parts, ',');
    }
  }

  lemma ConfiguresExact(value: string, ns: seq<int>)
    ensures Configures(value, ns) <==> ValidParts(Split(value, ',')) && Numbers(Split(value, ',')) == ns
  {
    hide Split, Atoi, Trim, Denotes, PartsOf;
    var parts := Split(value, ',');
    PartsExact(value, parts);
    forall i, n | 0 <= i < |parts|
      ensures Atoi(Trim(parts[i])) == Number(n) <==> Denotes(parts[i], n)
    {
      DenotesExact(parts[i], n);
    }
    if Configures(value, ns) {
      var ps: seq<string> :| |ps| == |ns| && PartsOf(value, ps) && AllDenote(ps, ns);
      PartsExact(value, ps);
      assert forall i :: 0 <= i < |parts| ==> Atoi(Trim(parts[i])) == Number(ns[i]);
      assert Numbers(parts) == ns;
    }
    if ValidParts(parts) && Numbers(parts) == ns {
      assert forall i :: 0 <= i < |parts| ==> Atoi(Trim(parts[i])) == Number(ns[i]);
      assert AllDenote(parts, ns);
    }
  }

  /** A text is accepted exactly when it is a list of parts, white space around them allowed, that stand for distinct
      page sizes; the result is their canonical text and the runtime list is those numbers, else the defaults. */
  lemma AcceptedExactly(value: string)
    ensures Normalized(value).Ok? <==> exists ns :: Configures(value, ns)
    ensures forall ns :: Configures(value, ns) ==>
      Normalized(value) == Ok(Join(Printed(ns), ',')) && ParsedOptions(value) == ns
    ensures Normalized(value).Invalid? ==> ParsedOptions(value) == [10, 20, 50, 100]
  {
    hide Split, Join, Configures, Distinct, Printed, Atoi, Trim;
    var parts := Split(value, ',');
    forall ns
      ensures Configures(value, ns) <==> ValidParts(parts) && Numbers(parts) == ns
    {
      ConfiguresExact(value, ns);
    }
    if Normalized(value).Ok? {
      assert Configures(value, Numbers(parts));
    }
  }

  /** Leading zeros do not count. */
  lemma {:induction false} LeadingZero(digits: string)
    requires AllDigits(digits)
    ensures AllDigits("0" + digits) && Value("0" + digits) == Value(digits)
  {
    var s := "0" + digits;
    if digits == [] {
      assert s[..0] == [];
    } else {
      var n := |digits| - 1;
      LeadingZero(digits[..n]);
      assert s[..|s| - 1] == "0" + digits[..n];
    }
  }

  /** White space after a comma and a leading zero are accepted. */
  lemma SpacedExample()
    ensures Normalized("10, 020") == Ok("10,20") && ParsedOptions("10, 020") == [10, 20]
  {
    hide Normalized, ParsedOptions, Denotes, Join;
    TenDenoted();
    TwentyDenoted();
    TwoParts();
    assert AllDenote(["10", " 020"], [10, 20]);
    assert Configures("10, 020", [10, 20]);
    AcceptedExactly("10, 020");
    CanonicalTwenty();
  }

  lemma TwoParts()
    ensures PartsOf("10, 020", ["10", " 020"])
  {
    assert ["10", " 020"][1..] == [" 020"];
  }

  lemma TenDenoted()
    ensures Denotes("10", 10)
  {
    assert "10"[..1] == "1" && "1"[..0] == [];
    assert Value("1") == 1 && Value("10") == 10;
    assert "" + "10" == "10";
    assert IsNumeral("10", "", "10", 10);
    assert "10" == "" + "10" + "";
    Surrounding("", "10", "");
  }

  lemma TwentyDenoted()
    ensures Denotes(" 020", 20)
  {
    assert "020"[..2] == "02" && "02"[..1] == "0" && "0"[..0] == [];
    assert Value("0") == 0 && Value("02") == 2 && Value("020") == 20;
    assert "" + "020" == "020";
    assert IsNumeral("020", "", "020", 20);
    assert " 020" == " " + "020" + "";
    Surrounding(" ", "020", "");
  }

  lemma CanonicalTwenty()
    ensures Join(Printed([10, 20]), ',') == "10,20"
  {
    assert Itoa(10) == "10" && Itoa(20) == "20";
    var p := Printed([10, 20]);
    assert p == ["10", "20"] && p[1..] == ["20"];
  }
}
