/** The editor-side package checker: dotted version comparison, the
    `name@version` package entries, the cinemachine / inputsystem version
    fix-up and the scripting-define bookkeeping. The Package Manager requests,
    dialogs and `PlayerSettings` storage around them are not modelled; the
    define symbols are a string field instead. */
module PackageChecker {
  import opened Wrappers
  import opened Strings

  // ---------------------------------------------------------------------
  // Convert.ToInt32(string)
  // ---------------------------------------------------------------------

  const INT32_MIN: int := -0x8000_0000
  const INT32_MAX: int := 0x7FFF_FFFF

  /** The two exceptions `Convert.ToInt32` throws on a non-null string. */
  datatype ConvertError = FormatError | OverflowError

  /** White space `NumberStyles.Integer` allows around the number:
      U+0009 to U+000D and U+0020. */
  predicate IsWhite(c: char) {
    c == ' ' || '\t' <= c <= '\r'
  }

  predicate IsDigit(c: char) {
    '0' <= c <= '9'
  }

  predicate AllDigits(s: string) {
    forall i :: 0 <= i < |s| ==> IsDigit(s[i])
  }

  function TrimStart(s: string): (t: string)
    ensures |t| <= |s|
    ensures |t| > 0 ==> !IsWhite(t[0])
    decreases |s|
  {
    if |s| > 0 && IsWhite(s[0]) then TrimStart(s[1..]) else s
  }

  function TrimEnd(s: string): (t: string)
    ensures |t| <= |s|
    ensures |t| > 0 ==> !IsWhite(t[|t| - 1])
    decreases |s|
  {
    if |s| > 0 && IsWhite(s[|s| - 1]) then TrimEnd(s[..|s| - 1]) else s
  }

  function DigitValue(c: char): nat
    requires IsDigit(c)
  {
    c as int - '0' as int
  }

  /** The number a string of decimal digits denotes. */
  function DigitsValue(s: string): nat
    requires AllDigits(s)
    decreases |s|
  {
    if |s| == 0 then 0 else 10 * DigitsValue(s[..|s| - 1]) + DigitValue(s[|s| - 1])
  }

  /** `Convert.ToInt32(s)` for a non-null string: optional white space, an
      optional sign, one or more decimal digits, optional white space.
      Anything else is a format error; a value outside the 32-bit range is an
      overflow. */
  function ToInt32(s: string): (r: Result<int, ConvertError>)
    ensures r.Ok? ==> INT32_MIN <= r.value <= INT32_MAX
  {
    var t := TrimEnd(TrimStart(s));
    if |t| == 0 then Err(FormatError)
    else
      var negative := t[0] == '-';
      var digits := if t[0] == '-' || t[0] == '+' then t[1..] else t;
      if |digits| == 0 || !AllDigits(digits) then Err(FormatError)
      else
        var magnitude: int := DigitsValue(digits);
        var v := if negative then -magnitude else magnitude;
        if v < INT32_MIN || v > INT32_MAX then Err(OverflowError) else Ok(v)
  }

  /** One decimal digit. */
  function DigitChar(d: nat): (c: char)
    requires d < 10
    ensures IsDigit(c) && DigitValue(c) == d
  {
    (d + '0' as int) as char
  }

  /** The shortest decimal spelling of `n`. */
  function NatDigits(n: nat): (s: string)
    ensures |s| > 0 && AllDigits(s)
    decreases n
  {
    if n < 10 then [DigitChar(n)] else NatDigits(n / 10) + [DigitChar(n % 10)]
  }

  /** `Int32.ToString()`: a minus sign for negative values, then the digits. */
  function Int32ToString(n: int): string {
    if n < 0 then "-" + NatDigits(-n) else NatDigits(n)
  }

  lemma {:induction false} NatDigitsValue(n: nat)
    ensures DigitsValue(NatDigits(n)) == n
    decreases n
  {
    if n >= 10 {
      NatDigitsValue(n / 10);
      var s := NatDigits(n);
      assert s[..|s| - 1] == NatDigits(n / 10);
    }
  }

  /** Parsing undoes printing on the whole 32-bit range. */
  lemma ToInt32RoundTrip(n: int)
    requires INT32_MIN <= n <= INT32_MAX
    ensures ToInt32(Int32ToString(n)) == Ok(n)
  {
    var s := Int32ToString(n);
    NatDigitsValue(if n < 0 then -n else n);
    assert TrimStart(s) == s;
    assert TrimEnd(s) == s;
    if n < 0 {
      assert s[1..] == NatDigits(-n);
    }
  }

  // ---------------------------------------------------------------------
  // CompareVersion
  // ---------------------------------------------------------------------

  function Max(a: nat, b: nat): nat {
    if a >= b then a else b
  }

  /** The components of a split version, each as `Convert.ToInt32` parses
      it: its value or the exception it throws. */
  function ParseAll(parts: seq<string>): (r: seq<Result<int, ConvertError>>)
    ensures |r| == |parts|
    decreases |parts|
  {
    if |parts| == 0 then [] else [ToInt32(parts[0])] + ParseAll(parts[1..])
  }

  /** Component `i` of the parsed version is piece `i` parsed. */
  lemma {:induction false} ParseAllAt(parts: seq<string>, i: nat)
    requires i < |parts|
    ensures ParseAll(parts)[i] == ToInt32(parts[i])
    decreases i
  {
    if i > 0 {
      ParseAllAt(parts[1..], i - 1);
    }
  }

  /** Parsing one more piece appends its parse. */
  lemma {:induction false} ParseAllAppend(parts: seq<string>, last: string)
    ensures ParseAll(parts + [last]) == ParseAll(parts) + [ToInt32(last)]
    decreases |parts|
  {
    if |parts| > 0 {
      assert (parts + [last])[1..] == parts[1..] + [last];
      ParseAllAppend(parts[1..], last);
    }
  }

  /** The `i`-th parsed component; a component past the end counts as 0. */
  function Component(parsed: seq<Result<int, ConvertError>>, i: nat): Result<int, ConvertError> {
    if i < |parsed| then parsed[i] else Ok(0)
  }

  /** The comparison from component `i` on, as the loop of `CompareVersion`
      performs it: take the left component, then the right one, and stop at
      the first pair that differs. A parse error ends the comparison with
      that error. The result is 1, 0 or -1. Components after the stopping
      point are never consulted, so parsing them all up front gives the
      same result as the loop's parse-as-you-go. */
  function CompareFrom(a: seq<Result<int, ConvertError>>, b: seq<Result<int, ConvertError>>, i: nat): (r: Result<int, ConvertError>)
    ensures r.Ok? ==> -1 <= r.value <= 1
    decreases Max(|a|, |b|) - i
  {
    if i >= |a| && i >= |b| then Ok(0)
    else
      var x := Component(a, i);
      if x.Err? then Err(x.error)
      else
        var y := Component(b, i);
        if y.Err? then Err(y.error)
        else if x.value > y.value then Ok(1)
        else if x.value < y.value then Ok(-1)
        else CompareFrom(a, b, i + 1)
  }

  /** What `CompareVersion(latest, project)` returns or throws. */
  function CompareVersionSpec(latest: string, project: string): Result<int, ConvertError> {
    CompareFrom(ParseAll(Split(latest, '.')), ParseAll(Split(project, '.')), 0)
  }

  /** One round of the comparison loop at a position some version still
      has: a left parse error, then a right one, ends it with that error;
      otherwise the two values decide or the comparison moves on. */
  lemma CompareStep(a: seq<Result<int, ConvertError>>, b: seq<Result<int, ConvertError>>, i: nat)
    requires i < |a| || i < |b|
    ensures Component(a, i).Err? ==> CompareFrom(a, b, i) == Err(Component(a, i).error)
    ensures Component(a, i).Ok? && Component(b, i).Err? ==> CompareFrom(a, b, i) == Err(Component(b, i).error)
    ensures Component(a, i).Ok? && Component(b, i).Ok? ==>
              CompareFrom(a, b, i) ==
                if Component(a, i).value > Component(b, i).value then Ok(1)
                else if Component(a, i).value < Component(b, i).value then Ok(-1)
                else CompareFrom(a, b, i + 1)
  {
  }

  /** One component as the loop reads it: `Convert.ToInt32` of the piece
      while the version still has one, otherwise the default 0. */
  method ReadComponent(parts: seq<string>, i: nat) returns (r: Result<int, ConvertError>)
    ensures r == Component(ParseAll(parts), i)
  {
    if i < |parts| {
      ParseAllAt(parts, i);
      r := ToInt32(parts[i]);
    } else {
      r := Ok(0);
    }
  }

  /** `CompareVersion`: 1 when `latest` is ahead of `project`, -1 when it is
      behind, 0 when they are the same version. */
  method CompareVersion(latest: string, project: string) returns (r: Result<int, ConvertError>)
    ensures r == CompareVersionSpec(latest, project)
    ensures r.Ok? ==> r.value == 1 || r.value == 0 || r.value == -1
  {
    var latestSplit := Split(latest, '.');
    var projectSplit := Split(project, '.');
    ghost var a := ParseAll(latestSplit);
    ghost var b := ParseAll(projectSplit);
    ghost var spec := CompareVersionSpec(latest, project);
    var iteratorA := 0;
    var iteratorB := 0;
    while iteratorA < |latestSplit| || iteratorB < |projectSplit|
      invariant iteratorA == iteratorB
      invariant iteratorA <= Max(|latestSplit|, |projectSplit|)
      invariant CompareFrom(a, b, iteratorA) == spec
      decreases Max(|latestSplit|, |projectSplit|) - iteratorA
    {
      CompareStep(a, b, iteratorA);
      var latestVerified := ReadComponent(latestSplit, iteratorA);
      if latestVerified.Err? {
        return Err(latestVerified.error);
      }
      var installed := ReadComponent(projectSplit, iteratorB);
      if installed.Err? {
        return Err(installed.error);
      }
      if latestVerified.value > installed.value {
        return Ok(1);
      }
      if latestVerified.value < installed.value {
        return Ok(-1);
      }
      iteratorA := iteratorA + 1;
      iteratorB := iteratorB + 1;
    }
    return Ok(0);
  }

  /** Every component parsed to a 32-bit integer. */
  predicate Parses(parsed: seq<Result<int, ConvertError>>) {
    forall i :: 0 <= i < |parsed| ==> parsed[i].Ok?
  }

  predicate WellFormedVersion(s: string) {
    Parses(ParseAll(Split(s, '.')))
  }

  /** The integer value of component `i`, 0 past the end. */
  function ValueAt(parsed: seq<Result<int, ConvertError>>, i: nat): int
    requires Parses(parsed)
  {
    if i < |parsed| then parsed[i].value else 0
  }

  /** Comparing well-formed versions never throws. */
  lemma {:induction false} CompareTotal(a: seq<Result<int, ConvertError>>, b: seq<Result<int, ConvertError>>, i: nat)
    requires Parses(a) && Parses(b)
    ensures CompareFrom(a, b, i).Ok?
    decreases Max(|a|, |b|) - i
  {
    if i < |a| || i < |b| {
      CompareTotal(a, b, i + 1);
    }
  }

  /** The comparison throws for `(a, b)` exactly when it throws for
      `(b, a)`: both orders parse the same components before they stop. */
  lemma {:induction false} CompareErrorSymmetric(a: seq<Result<int, ConvertError>>, b: seq<Result<int, ConvertError>>, i: nat)
    ensures CompareFrom(a, b, i).Err? <==> CompareFrom(b, a, i).Err?
    decreases Max(|a|, |b|) - i
  {
    if i < |a| || i < |b| {
      CompareErrorSymmetric(a, b, i + 1);
    }
  }

  /** Zero when, and only when, every component from `i` on has the same
      value on both sides. */
  lemma {:induction false} CompareZeroIff(a: seq<Result<int, ConvertError>>, b: seq<Result<int, ConvertError>>, i: nat)
    requires Parses(a) && Parses(b)
    ensures CompareFrom(a, b, i) == Ok(0) <==> forall j: nat :: i <= j ==> ValueAt(a, j) == ValueAt(b, j)
    decreases Max(|a|, |b|) - i
  {
    if i >= |a| && i >= |b| {
    } else if ValueAt(a, i) != ValueAt(b, i) {
    } else {
      CompareZeroIff(a, b, i + 1);
      if forall j: nat :: i + 1 <= j ==> ValueAt(a, j) == ValueAt(b, j) {
        forall j: nat | i <= j
          ensures ValueAt(a, j) == ValueAt(b, j)
        {
          if j > i {
            assert i + 1 <= j;
          }
        }
      }
    }
  }

  /** The first component whose values differ decides the result. */
  lemma {:induction false} FirstDifferenceDecides(a: seq<Result<int, ConvertError>>, b: seq<Result<int, ConvertError>>, i: nat, k: nat)
    requires Parses(a) && Parses(b)
    requires i <= k
    requires forall j: nat :: i <= j < k ==> ValueAt(a, j) == ValueAt(b, j)
    requires ValueAt(a, k) != ValueAt(b, k)
    ensures ValueAt(a, k) > ValueAt(b, k) ==> CompareFrom(a, b, i) == Ok(1)
    ensures ValueAt(a, k) < ValueAt(b, k) ==> CompareFrom(a, b, i) == Ok(-1)
    decreases k - i
  {
    if i < k {
      assert ValueAt(a, i) == ValueAt(b, i);
      FirstDifferenceDecides(a, b, i + 1, k);
    } else {
      assert i < |a| || i < |b|;
    }
  }

  /** A version compares equal to itself. */
  lemma {:induction false} CompareReflexive(a: seq<Result<int, ConvertError>>, i: nat)
    requires Parses(a)
    ensures CompareFrom(a, a, i) == Ok(0)
    decreases |a| - i
  {
    if i < |a| {
      CompareReflexive(a, i + 1);
    }
  }

  /** Swapping the two versions negates the result. */
  lemma {:induction false} CompareAntisymmetric(a: seq<Result<int, ConvertError>>, b: seq<Result<int, ConvertError>>, i: nat)
    requires Parses(a) && Parses(b)
    ensures CompareFrom(a, b, i).Ok? && CompareFrom(b, a, i).Ok?
    ensures CompareFrom(a, b, i).value == -CompareFrom(b, a, i).value
    decreases Max(|a|, |b|) - i
  {
    if i < |a| || i < |b| {
      CompareAntisymmetric(a, b, i + 1);
    }
  }

  /** The order is transitive. */
  lemma {:induction false} CompareTransitive(a: seq<Result<int, ConvertError>>, b: seq<Result<int, ConvertError>>, c: seq<Result<int, ConvertError>>, i: nat)
    requires Parses(a) && Parses(b) && Parses(c)
    requires CompareFrom(a, b, i) == Ok(1) && CompareFrom(b, c, i) == Ok(1)
    ensures CompareFrom(a, c, i) == Ok(1)
    decreases Max(Max(|a|, |b|), |c|) - i
  {
    if ValueAt(a, i) == ValueAt(b, i) && ValueAt(b, i) == ValueAt(c, i) {
      CompareTransitive(a, b, c, i + 1);
    }
  }

  /** The order properties above, for the strings the checker compares. */
  lemma CompareVersionReflexive(s: string)
    requires WellFormedVersion(s)
    ensures CompareVersionSpec(s, s) == Ok(0)
  {
    CompareReflexive(ParseAll(Split(s, '.')), 0);
  }

  lemma CompareVersionAntisymmetric(s: string, t: string)
    requires WellFormedVersion(s) && WellFormedVersion(t)
    ensures CompareVersionSpec(s, t).Ok? && CompareVersionSpec(t, s).Ok?
    ensures CompareVersionSpec(s, t).value == -CompareVersionSpec(t, s).value
  {
    CompareAntisymmetric(ParseAll(Split(s, '.')), ParseAll(Split(t, '.')), 0);
  }

  lemma CompareVersionTransitive(s: string, t: string, u: string)
    requires WellFormedVersion(s) && WellFormedVersion(t) && WellFormedVersion(u)
    requires CompareVersionSpec(s, t) == Ok(1) && CompareVersionSpec(t, u) == Ok(1)
    ensures CompareVersionSpec(s, u) == Ok(1)
  {
    CompareTransitive(ParseAll(Split(s, '.')), ParseAll(Split(t, '.')), ParseAll(Split(u, '.')), 0);
  }

  /** Appending a zero component does not change any comparison. */
  lemma {:induction false} TrailingZeroIrrelevant(a: seq<Result<int, ConvertError>>, b: seq<Result<int, ConvertError>>, i: nat)
    requires i <= |a|
    ensures CompareFrom(a + [Ok(0)], b, i) == CompareFrom(a, b, i)
    decreases Max(|a| + 1, |b|) - i
  {
    if i < |a| {
      assert (a + [Ok(0)])[i] == a[i];
      TrailingZeroIrrelevant(a, b, i + 1);
    } else if i < |b| {
      TrailingZeroAfterEnd(a, b, i + 1);
    } else {
      assert CompareFrom(a + [Ok(0)], b, i + 1) == Ok(0);
    }
  }

  /** Past the end of `a`, the extra zero is never read. */
  lemma {:induction false} TrailingZeroAfterEnd(a: seq<Result<int, ConvertError>>, b: seq<Result<int, ConvertError>>, i: nat)
    requires |a| < i
    ensures CompareFrom(a + [Ok(0)], b, i) == CompareFrom(a, b, i)
    decreases Max(|a| + 1, |b|) - i
  {
    if i < |b| {
      TrailingZeroAfterEnd(a, b, i + 1);
    }
  }

  /** `Split` of a string with one more component. */
  lemma {:induction false} SplitAppend(s: string, d: char, t: string)
    requires d !in t
    ensures Split(s + [d] + t, d) == Split(s, d) + [t]
    decreases |s|
  {
    if |s| == 0 {
      assert s + [d] + t == [d] + t;
      SplitNoSeparator(t, d);
    } else {
      SplitAppend(s[1..], d, t);
      assert (s + [d] + t)[1..] == s[1..] + [d] + t;
    }
  }

  /** "1.2" and "1.2.0" are the same version: a missing component counts as
      zero, whatever the other version is. */
  lemma TrailingZeroVersion(s: string, other: string)
    ensures CompareVersionSpec(s + ".0", other) == CompareVersionSpec(s, other)
  {
    var parts := Split(s, '.');
    assert Split(s + ".0", '.') == parts + ["0"] by {
      SplitAppend(s, '.', "0");
      assert s + ".0" == s + ['.'] + "0";
    }
    assert ParseAll(parts + ["0"]) == ParseAll(parts) + [Ok(0)] by {
      ParseAllAppend(parts, "0");
      ParseSmall("0", 0);
    }
    TrailingZeroIrrelevant(ParseAll(parts), ParseAll(Split(other, '.')), 0);
  }

  /** How the two example versions split. */
  lemma ExampleSplits()
    ensures Split("1.10", '.') == ["1", "10"]
    ensures Split("1.9", '.') == ["1", "9"]
  {
    SplitNoSeparator("1", '.');
    assert "1.10" == "1" + ['.'] + "10";
    SplitAppend("1", '.', "10");
    assert "1.9" == "1" + ['.'] + "9";
    SplitAppend("1", '.', "9");
  }

  /** How the example components parse. */
  lemma ExampleParses()
    ensures ToInt32("1") == Ok(1) && ToInt32("10") == Ok(10) && ToInt32("9") == Ok(9)
  {
    ParseSmall("1", 1);
    ParseSmall("10", 10);
    ParseSmall("9", 9);
  }

  /** Parsing a two-piece version. */
  lemma ParseTwo(x: string, y: string)
    ensures ParseAll([x, y]) == [ToInt32(x), ToInt32(y)]
  {
    assert [x, y][1..] == [y];
  }

  /** The comparison is numeric, not textual: "1.10" is ahead of "1.9". */
  lemma NumericNotTextual()
    ensures CompareVersionSpec("1.10", "1.9") == Ok(1)
  {
    ExampleSplits();
    ExampleParses();
    ParseTwo("1", "10");
    ParseTwo("1", "9");
    var a: seq<Result<int, ConvertError>> := [Ok(1), Ok(10)];
    var b: seq<Result<int, ConvertError>> := [Ok(1), Ok(9)];
    CompareStep(a, b, 0);
    CompareStep(a, b, 1);
  }

  /** A plain digit string parses to its value. */
  lemma ParseSmall(s: string, n: nat)
    requires |s| > 0 && AllDigits(s) && DigitsValue(s) == n && n <= INT32_MAX
    ensures ToInt32(s) == Ok(n)
  {
    assert TrimStart(s) == s;
    assert TrimEnd(s) == s;
  }

  // ---------------------------------------------------------------------
  // Package entries
  // ---------------------------------------------------------------------

  /** A requested package: its name and, when one was given, its version
      (`None` stands for the C# `null`). */
  datatype PackageEntry = PackageEntry(name: string, version: Option<string>)

  /** One `PackagesToAdd` line: the name is the piece before the first '@',
      the version the second '@'-piece when there is one. */
  function ParseEntry(line: string): PackageEntry {
    var split := Split(line, '@');
    PackageEntry(split[0], if |split| > 1 then Some(split[1]) else None)
  }

  /** The package id `InstallSelectedPackage` hands to the Package Manager:
      `name@version`, or the bare name when there is no version. */
  function PackageId(e: PackageEntry): string {
    if e.version.Some? then e.name + "@" + e.version.value else e.name
  }

  lemma {:induction false} OccurrencesZero(s: string, d: char)
    ensures Occurrences(s, d) == 0 <==> d !in s
    decreases |s|
  {
    if |s| > 0 {
      OccurrencesZero(s[1..], d);
      assert s == [s[0]] + s[1..];
    }
  }

  /** What a parsed entry means in terms of the line: the name is the text
      before the first '@', there is no version exactly when the line has no
      '@', and a version is the text between the first '@' and the next '@'
      (or the end of the line). */
  lemma ParseEntryMeaning(line: string)
    ensures '@' !in ParseEntry(line).name
    ensures ParseEntry(line).version.None? <==> '@' !in line
    ensures ParseEntry(line).version.None? ==> ParseEntry(line).name == line
    ensures ParseEntry(line).version.Some? ==>
      var prefix := PackageId(ParseEntry(line));
      '@' !in ParseEntry(line).version.value && prefix <= line &&
      (|prefix| == |line| || line[|prefix|] == '@')
  {
    var split := Split(line, '@');
    JoinSplit(line, '@');
    OccurrencesZero(line, '@');
    if |split| > 1 {
      var rest := split[1..];
      assert Join(split, '@') == split[0] + "@" + Join(rest, '@');
      if |rest| > 1 {
        assert Join(rest, '@') == rest[0] + "@" + Join(rest[1..], '@');
        assert line == (split[0] + "@" + split[1]) + "@" + Join(rest[1..], '@');
      } else {
        assert line == split[0] + "@" + split[1];
      }
    }
  }

  /** Formatting an entry as a package id and parsing it back gives the
      entry, when neither part contains '@'. */
  lemma ParsePackageId(e: PackageEntry)
    requires '@' !in e.name
    requires e.version.Some? ==> '@' !in e.version.value
    ensures ParseEntry(PackageId(e)) == e
  {
    if e.version.Some? {
      var pieces := [e.name, e.version.value];
      assert Join(pieces, '@') == e.name + "@" + e.version.value;
      SplitJoin(pieces, '@');
    } else {
      SplitNoSeparator(e.name, '@');
    }
  }

  /** The entries built from the `PackagesToAdd` lines: one per line, in
      order. */
  function ParseEntries(lines: seq<string>): (entries: seq<PackageEntry>)
    ensures |entries| == |lines|
  {
    seq(|lines|, i requires 0 <= i < |lines| => ParseEntry(lines[i]))
  }

  // ---------------------------------------------------------------------
  // The cinemachine 2.6.14 / inputsystem 1.3.0 fix-up
  // ---------------------------------------------------------------------

  const CINEMACHINE: string := "com.unity.cinemachine"
  const INPUT_SYSTEM: string := "com.unity.inputsystem"

  /** The position of the last entry called `name`. */
  function LastIndexOf(entries: seq<PackageEntry>, name: string): (r: Option<nat>)
    ensures r.Some? ==> r.value < |entries| && entries[r.value].name == name
    ensures r.Some? ==> forall j :: r.value < j < |entries| ==> entries[j].name != name
    ensures r.None? ==> forall j :: 0 <= j < |entries| ==> entries[j].name != name
    decreases |entries|
  {
    if |entries| == 0 then None
    else if entries[|entries| - 1].name == name then Some(|entries| - 1)
    else LastIndexOf(entries[..|entries| - 1], name)
  }

  /** The version the fix-up reads for `name`: that of its last entry, or the
      empty string when there is none. */
  function VersionOf(entries: seq<PackageEntry>, name: string): Option<string> {
    match LastIndexOf(entries, name)
    case Some(i) => entries[i].version
    case None => Some("")
  }

  /** Whether the known-bad pair of versions is requested. */
  predicate NeedsCinemachineFix(entries: seq<PackageEntry>) {
    VersionOf(entries, CINEMACHINE) == Some("2.6.14") && VersionOf(entries, INPUT_SYSTEM) == Some("1.3.0")
  }

  /** The entries after the fix-up: the last cinemachine entry asks for 2.8.6
      instead when the pair is cinemachine 2.6.14 with inputsystem 1.3.0. */
  function FixedPackages(entries: seq<PackageEntry>): seq<PackageEntry> {
    match LastIndexOf(entries, CINEMACHINE)
    case Some(i) =>
      if NeedsCinemachineFix(entries) then entries[i := entries[i].(version := Some("2.8.6"))]
      else entries
    case None => entries
  }

  /** Only the version of the last cinemachine entry can change, and only to
      2.8.6; every name and every other entry stays as it was. */
  lemma FixTouchesOnlyCinemachine(entries: seq<PackageEntry>)
    ensures |FixedPackages(entries)| == |entries|
    ensures forall j :: 0 <= j < |entries| ==> FixedPackages(entries)[j].name == entries[j].name
    ensures forall j :: 0 <= j < |entries| && FixedPackages(entries)[j] != entries[j] ==>
      LastIndexOf(entries, CINEMACHINE) == Some(j) && FixedPackages(entries)[j].version == Some("2.8.6")
  {
  }

  /** The fix-up changes the list exactly when the bad pair is requested. */
  lemma FixFiresIff(entries: seq<PackageEntry>)
    ensures FixedPackages(entries) != entries <==> NeedsCinemachineFix(entries)
  {
    if NeedsCinemachineFix(entries) {
      var i := LastIndexOf(entries, CINEMACHINE).value;
      assert FixedPackages(entries)[i].version != entries[i].version;
    }
  }

  /** Applying the fix-up twice is the same as applying it once. */
  lemma FixIdempotent(entries: seq<PackageEntry>)
    ensures FixedPackages(FixedPackages(entries)) == FixedPackages(entries)
  {
    var fixed := FixedPackages(entries);
    if fixed != entries {
      var i := LastIndexOf(entries, CINEMACHINE).value;
      LastIndexUnchanged(entries, fixed, CINEMACHINE);
      assert LastIndexOf(fixed, CINEMACHINE) == Some(i);
      assert !NeedsCinemachineFix(fixed);
    }
  }

  /** Two lists with the same names have the same last index for a name. */
  lemma {:induction false} LastIndexUnchanged(a: seq<PackageEntry>, b: seq<PackageEntry>, name: string)
    requires |a| == |b|
    requires forall j :: 0 <= j < |a| ==> a[j].name == b[j].name
    ensures LastIndexOf(a, name) == LastIndexOf(b, name)
    decreases |a|
  {
    if |a| > 0 {
      LastIndexUnchanged(a[..|a| - 1], b[..|b| - 1], name);
    }
  }

  // ---------------------------------------------------------------------
  // Scripting defines
  // ---------------------------------------------------------------------

  /** The symbol whose presence records that the check has already run. */
  const PACKAGE_CHECKER_SCRIPTING_DEFINE: string := "STARTER_ASSETS_PACKAGES_CHECKED"

  /** The define symbols after `SetScriptingDefine`: ";" and the symbol are
      appended unless the symbol already occurs in them. */
  function WithDefine(defines: string, define: string): string {
    if Contains(defines, define) then defines else defines + ";" + define
  }

  /** After the update the symbol is present, the old symbols are kept as a
      prefix, and nothing changes when the symbol was already there. */
  lemma WithDefineMeaning(defines: string, define: string)
    ensures Contains(WithDefine(defines, define), define)
    ensures defines <= WithDefine(defines, define)
    ensures WithDefine(defines, define) == defines <==> Contains(defines, define)
  {
    if !Contains(defines, define) {
      ContainsSuffix(defines + ";", define);
      assert defines + ";" + define == (defines + ";") + define;
    }
  }

  /** Setting a define twice is the same as setting it once. */
  lemma WithDefineIdempotent(defines: string, define: string)
    ensures WithDefine(WithDefine(defines, define), define) == WithDefine(defines, define)
  {
    WithDefineMeaning(defines, define);
  }

  // ---------------------------------------------------------------------
  // The checker's state
  // ---------------------------------------------------------------------

  /** The static state of the checker: the requested packages, and the
      scripting define symbols of the selected build target group, which
      `PlayerSettings` stores in the editor. */
  class Checker {
    var packagesToAdd: seq<PackageEntry>
    var defines: string

    constructor(defines: string)
      ensures this.defines == defines && packagesToAdd == []
    {
      this.defines := defines;
      packagesToAdd := [];
    }

    /** `CheckScriptingDefine`: whether the symbol occurs in the defines. */
    method CheckScriptingDefine(define: string) returns (present: bool)
      ensures present <==> exists i: nat :: OccursAt(defines, define, i)
    {
      present := Contains(defines, define);
      ContainsIff(defines, define);
    }

    /** `SetScriptingDefine`. */
    method SetScriptingDefine(define: string)
      modifies this
      ensures defines == WithDefine(old(defines), define)
      ensures packagesToAdd == old(packagesToAdd)
    {
      if !Contains(defines, define) {
        defines := defines + ";" + define;
      }
    }

    /** Builds the package list from the `PackagesToAdd` lines, one entry per
        line and in order. */
    method ReadPackagesToAdd(lines: seq<string>)
      modifies this
      ensures packagesToAdd == ParseEntries(lines)
      ensures defines == old(defines)
    {
      packagesToAdd := [];
      for k := 0 to |lines|
        invariant |packagesToAdd| == k
        invariant defines == old(defines)
        invariant forall j :: 0 <= j < k ==> packagesToAdd[j] == ParseEntry(lines[j])
      {
        var split := Split(lines[k], '@');
        var entry := PackageEntry(split[0], if |split| > 1 then Some(split[1]) else None);
        packagesToAdd := packagesToAdd + [entry];
      }
      assert forall j :: 0 <= j < |lines| ==> packagesToAdd[j] == ParseEntries(lines)[j];
      assert packagesToAdd == ParseEntries(lines);
    }

    /** The cinemachine / inputsystem fix-up: one scan remembers the last
        version seen for each of the two packages and the position of the last
        cinemachine entry, then that entry's version is replaced. */
    method FixCinemachineVersion()
      modifies this
      ensures packagesToAdd == FixedPackages(old(packagesToAdd))
      ensures defines == old(defines)
    {
      var cinemachineVersion: Option<string> := Some("");
      var inputSystemVersion: Option<string> := Some("");
      var idxOfCinemachinePackage := -1;
      for i := 0 to |packagesToAdd|
        invariant cinemachineVersion == VersionOf(packagesToAdd[..i], CINEMACHINE)
        invariant inputSystemVersion == VersionOf(packagesToAdd[..i], INPUT_SYSTEM)
        invariant idxOfCinemachinePackage ==
          match LastIndexOf(packagesToAdd[..i], CINEMACHINE)
          case Some(k) => k
          case None => -1
      {
        assert packagesToAdd[..i + 1][..i] == packagesToAdd[..i];
        if packagesToAdd[i].name == CINEMACHINE {
          cinemachineVersion := packagesToAdd[i].version;
          idxOfCinemachinePackage := i;
        } else if packagesToAdd[i].name == INPUT_SYSTEM {
          inputSystemVersion := packagesToAdd[i].version;
        }
      }
      assert packagesToAdd[..|packagesToAdd|] == packagesToAdd;
      if idxOfCinemachinePackage != -1 && cinemachineVersion == Some("2.6.14") && inputSystemVersion == Some("1.3.0") {
        packagesToAdd := packagesToAdd[idxOfCinemachinePackage :=
          packagesToAdd[idxOfCinemachinePackage].(version := Some("2.8.6"))];
      }
    }
  }
}
