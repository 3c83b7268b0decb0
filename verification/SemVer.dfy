/**
 * Semantic versions: parsing, printing and ordering.
 * Ordering follows section 11 of Semantic Versioning 2.0.0 in that a version with a label sorts
 * below the one without; two labels are compared as plain text.
 */
module SemVer {
  import opened Wrappers
  import opened Strings

  datatype Version = Version(major: nat, minor: nat, patch: nat, suffix: string) {
    predicate IsStable() {
      suffix == ""
    }
  }

  // Length of the longest prefix of digits
  function DigitRun(s: string): (i: nat)
    ensures i <= |s|
    ensures forall j | 0 <= j < i :: IsDigit(s[j])
    ensures i < |s| ==> !IsDigit(s[i])
  {
    if s == [] || !IsDigit(s[0]) then 0 else 1 + DigitRun(s[1..])
  }

  // A number, a dot, and the rest
  function ReadComponent(s: string): Option<(nat, string)> {
    var i := DigitRun(s);
    if 0 < i < |s| && s[i] == '.' then Some((Number(s[..i]), s[i + 1..])) else None
  }

  function ReadPatch(s: string): Option<(nat, string)> {
    var i := DigitRun(s);
    if 0 < i && '\n' !in s[i..] then Some((Number(s[..i]), s[i..])) else None
  }

  function Parse(s: string): Option<Version> {
    var a := ReadComponent(s);
    if a.None? then None else
    var b := ReadComponent(a.value.1);
    if b.None? then None else
    var c := ReadPatch(b.value.1);
    if c.None? then None else Some(Version(a.value.0, b.value.0, c.value.0, c.value.1))
  }

  function Print(v: Version): string {
    Decimal(v.major) + "." + Decimal(v.minor) + "." + Decimal(v.patch) + v.suffix
  }

  // s is three numbers separated by dots, followed by a label on the same line
  ghost predicate IsSplit(s: string, a: string, b: string, c: string, suffix: string) {
    && IsNumber(a) && IsNumber(b) && IsNumber(c) && '\n' !in suffix
    && s == a + "." + b + "." + c + suffix
  }

  // The part of a label that begins where its leading digits end
  predicate StartsWithDigit(s: string) {
    s != [] && IsDigit(s[0])
  }

  lemma DigitRunAt(s: string, i: nat)
    requires i <= |s| && (forall j | 0 <= j < i :: IsDigit(s[j])) && (i < |s| ==> !IsDigit(s[i]))
    ensures DigitRun(s) == i
  {
  }

  lemma ReadComponentOf(a: string, rest: string)
    requires IsNumber(a)
    ensures ReadComponent(a + "." + rest) == Some((Number(a), rest))
  {
    var s := a + "." + rest;
    DigitRunAt(s, |a|);
    assert s[..|a|] == a && s[|a| + 1..] == rest;
  }

  lemma ReadPatchOf(c: string, suffix: string)
    requires IsNumber(c) && '\n' !in suffix && !StartsWithDigit(suffix)
    ensures ReadPatch(c + suffix) == Some((Number(c), suffix))
  {
    var s := c + suffix;
    DigitRunAt(s, |c|);
    assert s[..|c|] == c && s[|c|..] == suffix;
  }

  // A split whose label does not start with a digit is what Parse finds.
  lemma ParseOfSplit(s: string, a: string, b: string, c: string, suffix: string)
    requires IsSplit(s, a, b, c, suffix) && !StartsWithDigit(suffix)
    ensures Parse(s) == Some(Version(Number(a), Number(b), Number(c), suffix))
  {
    Regroup(a, b, c, suffix);
    ReadComponentOf(a, b + "." + (c + suffix));
    ReadComponentOf(b, c + suffix);
    ReadPatchOf(c, suffix);
  }

  // Every split can be made greedy by moving the leading digits of the label into the patch number.
  lemma GreedySplit(s: string, a: string, b: string, c: string, suffix: string) returns (c': string, suffix': string)
    requires IsSplit(s, a, b, c, suffix)
    ensures IsSplit(s, a, b, c', suffix') && !StartsWithDigit(suffix') && c' + suffix' == c + suffix
  {
    var i := DigitRun(suffix);
    c', suffix' := c + suffix[..i], suffix[i..];
    assert c' + suffix' == c + suffix;
    assert s == a + "." + b + "." + (c + suffix);
  }

  lemma ComponentSplit(s: string) returns (a: string)
    requires ReadComponent(s).Some?
    ensures IsNumber(a) && s == a + "." + ReadComponent(s).value.1 && Number(a) == ReadComponent(s).value.0
  {
    a := s[..DigitRun(s)];
    assert s == a + "." + s[|a| + 1..];
  }

  lemma PatchSplit(s: string) returns (c: string)
    requires ReadPatch(s).Some?
    ensures var (n, suffix) := ReadPatch(s).value;
      IsNumber(c) && s == c + suffix && Number(c) == n && '\n' !in suffix && !StartsWithDigit(suffix)
  {
    c := s[..DigitRun(s)];
  }

  lemma Regroup(a: string, b: string, c: string, suffix: string)
    ensures a + "." + (b + "." + (c + suffix)) == a + "." + b + "." + c + suffix
  {
  }

  // What Parse finds is a split, with the longest possible patch number.
  lemma ParseFindsASplit(s: string) returns (a: string, b: string, c: string)
    requires Parse(s).Some?
    ensures var v := Parse(s).value;
      IsSplit(s, a, b, c, v.suffix) && !StartsWithDigit(v.suffix) && v == Version(Number(a), Number(b), Number(c), v.suffix)
  {
    a := ComponentSplit(s);
    var s1 := ReadComponent(s).value.1;
    b := ComponentSplit(s1);
    var s2 := ReadComponent(s1).value.1;
    c := PatchSplit(s2);
    Regroup(a, b, c, Parse(s).value.suffix);
  }

  // Parse accepts exactly the strings of the documented form.
  lemma ParseAcceptsExactlyVersions(s: string)
    ensures Parse(s).Some? <==> exists a, b, c, suffix :: IsSplit(s, a, b, c, suffix)
  {
    if a, b, c, suffix :| IsSplit(s, a, b, c, suffix) {
      var c', suffix' := GreedySplit(s, a, b, c, suffix);
      ParseOfSplit(s, a, b, c', suffix');
    }
    if Parse(s).Some? {
      var a, b, c := ParseFindsASplit(s);
    }
  }

  // A version is recovered from its text exactly when its label is on one line and does not start
  // with a digit; labels of parsed versions are like that.
  lemma PrintParse(v: Version)
    ensures Parse(Print(v)) == Some(v) <==> '\n' !in v.suffix && !StartsWithDigit(v.suffix)
  {
    var a, b, c := Decimal(v.major), Decimal(v.minor), Decimal(v.patch);
    NumberOfDecimal(v.major);
    NumberOfDecimal(v.minor);
    NumberOfDecimal(v.patch);
    if '\n' !in v.suffix && !StartsWithDigit(v.suffix) {
      ParseOfSplit(Print(v), a, b, c, v.suffix);
    } else if Parse(Print(v)).Some? {
      var a', b', c' := ParseFindsASplit(Print(v));
    }
  }

  lemma ReparsePrinted(s: string)
    requires Parse(s).Some?
    ensures Parse(Print(Parse(s).value)) == Parse(s)
  {
    var a, b, c := ParseFindsASplit(s);
    PrintParse(Parse(s).value);
  }

  // ---------------------------------------------------------------------------------------------
  // Ordering

  // Comparison of strings, character by character
  predicate TextLess(a: string, b: string) {
    if b == "" then false
    else if a == "" then true
    else a[0] < b[0] || (a[0] == b[0] && TextLess(a[1..], b[1..]))
  }

  function CompareLabels(a: string, b: string): int {
    if a == b then 0
    else if b == "" then -1
    else if a == "" then 1
    else if TextLess(a, b) then -1
    else 1
  }

  function Compare(a: Version, b: Version): int {
    if a.major != b.major then a.major - b.major
    else if a.minor != b.minor then a.minor - b.minor
    else if a.patch != b.patch then a.patch - b.patch
    else CompareLabels(a.suffix, b.suffix)
  }

  lemma {:induction false} TextLessIsTotal(a: string, b: string)
    ensures TextLess(a, b) || a == b || TextLess(b, a)
    ensures !(TextLess(a, b) && TextLess(b, a)) && !TextLess(a, a)
  {
    if a != "" && b != "" {
      TextLessIsTotal(a[1..], b[1..]);
      if a[0] == b[0] && a[1..] == b[1..] {
        assert a == [a[0]] + a[1..] && b == [b[0]] + b[1..];
      }
    }
    if a != "" {
      TextLessIsTotal(a[1..], a[1..]);
    }
  }

  lemma {:induction false} TextLessIsTransitive(a: string, b: string, c: string)
    requires TextLess(a, b) && TextLess(b, c)
    ensures TextLess(a, c)
  {
    if a != "" && a[0] == b[0] == c[0] {
      TextLessIsTransitive(a[1..], b[1..], c[1..]);
    }
  }

  // Comparison is a total order, and it agrees with equality (and hence with the hash, which is taken
  // of the four members).
  lemma CompareIsATotalOrder(a: Version, b: Version, c: Version)
    ensures Compare(a, b) == 0 <==> a == b
    ensures Compare(a, b) < 0 <==> Compare(b, a) > 0
    ensures Compare(a, b) <= 0 && Compare(b, c) <= 0 ==> Compare(a, c) <= 0
  {
    TextLessIsTotal(a.suffix, b.suffix);
    TextLessIsTotal(b.suffix, c.suffix);
    TextLessIsTotal(a.suffix, c.suffix);
    if TextLess(a.suffix, b.suffix) && TextLess(b.suffix, c.suffix) {
      TextLessIsTransitive(a.suffix, b.suffix, c.suffix);
    }
  }

  // a comes before b: at the first position where they differ it has the smaller character, or it ends there.
  ghost predicate TextPrecedes(a: string, b: string) {
    exists k: nat :: DiffersAt(a, b, k) && (k == |a| || (k < |b| && a[k] < b[k]))
  }

  ghost predicate DiffersAt(a: string, b: string, k: nat) {
    k <= |a| && k <= |b| && a[..k] == b[..k] && (if k < |a| && k < |b| then a[k] != b[k] else |a| != |b|)
  }

  // A version without a label comes after all those with one.
  ghost predicate LabelPrecedes(a: string, b: string) {
    if b == "" then a != "" else a != "" && TextPrecedes(a, b)
  }

  // Which of two versions is earlier
  ghost predicate Precedes(a: Version, b: Version) {
    || a.major < b.major
    || (a.major == b.major && a.minor < b.minor)
    || (a.major == b.major && a.minor == b.minor && a.patch < b.patch)
    || (a.major == b.major && a.minor == b.minor && a.patch == b.patch && LabelPrecedes(a.suffix, b.suffix))
  }

  lemma DiffersLater(a: string, b: string, k: nat)
    requires a != "" && b != "" && a[0] == b[0]
    ensures DiffersAt(a, b, k + 1) <==> DiffersAt(a[1..], b[1..], k)
  {
    if k < |a| && k < |b| {
      assert a[..k + 1] == [a[0]] + a[1..][..k] && b[..k + 1] == [b[0]] + b[1..][..k];
    }
  }

  lemma {:induction false} TextLessIsByFirstDifference(a: string, b: string)
    ensures TextLess(a, b) <==> TextPrecedes(a, b)
  {
    if a != "" && b != "" && a[0] == b[0] {
      TextLessIsByFirstDifference(a[1..], b[1..]);
      if k: nat :| DiffersAt(a[1..], b[1..], k) && (k == |a[1..]| || (k < |b[1..]| && a[1..][k] < b[1..][k])) {
        DiffersLater(a, b, k);
      }
      if k: nat :| DiffersAt(a, b, k) && (k == |a| || (k < |b| && a[k] < b[k])) {
        assert k > 0;
        DiffersLater(a, b, k - 1);
      }
    } else {
      assert DiffersAt(a, b, 0) <==> a != b;
    }
  }

  // Comparison decides by the numbers in turn and then by the labels.
  lemma CompareIsByPrecedence(a: Version, b: Version)
    ensures Compare(a, b) < 0 <==> Precedes(a, b)
    ensures Compare(a, b) > 0 <==> Precedes(b, a)
  {
    TextLessIsByFirstDifference(a.suffix, b.suffix);
    TextLessIsByFirstDifference(b.suffix, a.suffix);
    TextLessIsTotal(a.suffix, b.suffix);
  }

  // A pre-release sorts below its release and above every earlier release.
  lemma PreReleaseSortsBelowItsRelease(v: Version, earlier: Version)
    requires !v.IsStable() && earlier.IsStable()
    ensures Compare(v, v.(suffix := "")) < 0
    ensures Compare(earlier, v.(suffix := "")) < 0 ==> Compare(earlier, v) < 0
  {
  }
}
