/** Helm and NuGet filenames: a name, a separator the name may itself contain, and a version
    that starts at the first later segment led by a digit. */
module VersionedFormat {
  import opened Outcomes
  import opened Strings

  /** Helm's chart reference and NuGet's package reference. */
  datatype VersionedRef = VersionedRef(name: string, version: string)

  predicate IsDigit(c: char) {
    '0' <= c <= '9'
  }

  predicate LedByDigit(s: string) {
    s != "" && IsDigit(s[0])
  }

  /** No segment of the name after the first may look like the start of a version. */
  predicate WellFormed(p: VersionedRef, sep: char) {
    && p.name != "" && LedByDigit(p.version)
    && var parts := Split(p.name, sep);
       forall i | 1 <= i < |parts| :: !LedByDigit(parts[i])
  }

  function Print(p: VersionedRef, sep: char, suffix: string): string {
    (p.name + [sep] + p.version) + suffix
  }

  /** By position: the version starts with a digit, and no digit of the name follows a separator. */
  lemma WellFormedIff(p: VersionedRef, sep: char)
    requires sep !in "0123456789"
    ensures WellFormed(p, sep) <==>
            && p.name != "" && p.version != "" && p.version[0] in "0123456789"
            && forall i | 0 <= i < |p.name| - 1 && p.name[i] == sep :: p.name[i + 1] !in "0123456789"
  {
    forall c: char ensures IsDigit(c) <==> c in "0123456789" {
      DigitChars(c);
    }
    LaterSegments(p.name, sep, "0123456789");
    assert (forall i | 1 <= i < |Split(p.name, sep)| :: !LedByDigit(Split(p.name, sep)[i])) <==>
        NoneStart(Split(p.name, sep), 1, "0123456789");
  }

  predicate FirstVersionPart(parts: seq<string>, n: nat) {
    && 1 <= n < |parts| && LedByDigit(parts[n])
    && forall i | 1 <= i < n :: !LedByDigit(parts[i])
  }

  lemma VersionPartsOfPrinted(p: VersionedRef, sep: char)
    requires !IsDigit(sep) && WellFormed(p, sep)
    ensures var parts := Split(p.name + [sep] + p.version, sep);
            var n := |Split(p.name, sep)|;
            && FirstVersionPart(parts, n)
            && Join(parts[..n], sep) == p.name && Join(parts[n..], sep) == p.version
  {
    SplitOfConcat(p.name, p.version, sep);
    JoinOfSplit(p.name, sep);
    JoinOfSplit(p.version, sep);
    var a, b := Split(p.name, sep), Split(p.version, sep);
    assert (a + b)[..|a|] == a && (a + b)[|a|..] == b;
  }

  lemma VersionPartsAreWellFormed(base: string, sep: char, n: nat)
    requires FirstVersionPart(Split(base, sep), n)
    ensures var parts := Split(base, sep);
            var p := VersionedRef(Join(parts[..n], sep), Join(parts[n..], sep));
            && base == p.name + [sep] + p.version
            && (p.name != "" ==> WellFormed(p, sep))
  {
    var parts := Split(base, sep);
    JoinOfSplit(base, sep);
    assert parts == parts[..n] + parts[n..];
    JoinOfConcat(parts[..n], parts[n..], sep);
    SplitOfJoin(parts[..n], sep);
    var version := Join(parts[n..], sep);
    assert version[0] == parts[n][0];
  }

  /** ParseChartFilename and ParsePackageFilename differ only in separator and suffix. */
  method ParseVersioned(filename: string, sep: char, suffix: string) returns (r: Option<VersionedRef>)
    requires !IsDigit(sep)
    ensures forall p: VersionedRef :: r == Some(p) <==> WellFormed(p, sep) && filename == Print(p, sep, suffix)
  {
    var cut := CutSuffix(filename, suffix);
    if cut.None? {
      forall p: VersionedRef ensures filename != Print(p, sep, suffix) {
        CutSuffixOf(p.name + [sep] + p.version, suffix);
      }
      return None;
    }
    var base := cut.value;
    var parts := Split(base, sep);
    forall p: VersionedRef | WellFormed(p, sep) && filename == Print(p, sep, suffix)
      ensures FirstVersionPart(parts, |Split(p.name, sep)|)
      ensures Join(parts[..|Split(p.name, sep)|], sep) == p.name &&
          Join(parts[|Split(p.name, sep)|..], sep) == p.version
    {
      CutSuffixOf(p.name + [sep] + p.version, suffix);
      VersionPartsOfPrinted(p, sep);
    }
    if |parts| < 2 {
      return None;
    }
    var versionIdx := -1;
    var i := 1;
    while i < |parts|
      invariant 1 <= i <= |parts|
      invariant versionIdx == -1
      invariant forall j | 1 <= j < i :: !LedByDigit(parts[j])
    {
      if LedByDigit(parts[i]) {
        versionIdx := i;
        break;
      }
      i := i + 1;
    }
    if versionIdx < 0 {
      return None;
    }
    VersionPartsAreWellFormed(base, sep, versionIdx);
    var name, version := Join(parts[..versionIdx], sep), Join(parts[versionIdx..], sep);
    if name == "" || version == "" {
      return None;
    }
    return Some(VersionedRef(name, version));
  }

  /** Without a digit after a separator there is no version. */
  lemma NoVersionNoReference(filename: string, sep: char, suffix: string, p: VersionedRef)
    requires sep !in "0123456789" && WellFormed(p, sep) && filename == Print(p, sep, suffix)
    ensures |p.name| < |filename| - |suffix| - 1
    ensures filename[|p.name|] == sep && filename[|p.name| + 1] in "0123456789"
  {
    WellFormedIff(p, sep);
  }

  method ParseChartFilename(filename: string) returns (r: Option<VersionedRef>)
    ensures forall p: VersionedRef :: r == Some(p) <==> WellFormed(p, '-') && filename == Print(p, '-', ".tgz")
    ensures forall p: VersionedRef :: r == Some(p) <==>
              && p.name != "" && p.version != "" && p.version[0] in "0123456789"
              && (forall i | 0 <= i < |p.name| - 1 && p.name[i] == '-' :: p.name[i + 1] !in "0123456789")
              && filename == p.name + "-" + p.version + ".tgz"
    ensures (forall i | 0 <= i < |filename| - 5 && filename[i] == '-' :: filename[i + 1] !in "0123456789") ==> r.None?
  {
    r := ParseVersioned(filename, '-', ".tgz");
    forall p: VersionedRef
      ensures WellFormed(p, '-') <==>
              && p.name != "" && p.version != "" && p.version[0] in "0123456789"
              && (forall i | 0 <= i < |p.name| - 1 && p.name[i] == '-' :: p.name[i + 1] !in "0123456789")
    {
      WellFormedIff(p, '-');
    }
    if r.Some? { NoVersionNoReference(filename, '-', ".tgz", r.value); }
  }

  method ParseNuGetFilename(filename: string) returns (r: Option<VersionedRef>)
    ensures forall p: VersionedRef :: r == Some(p) <==> WellFormed(p, '.') && filename == Print(p, '.', ".nupkg")
    ensures forall p: VersionedRef :: r == Some(p) <==>
              && p.name != "" && p.version != "" && p.version[0] in "0123456789"
              && (forall i | 0 <= i < |p.name| - 1 && p.name[i] == '.' :: p.name[i + 1] !in "0123456789")
              && filename == p.name + "." + p.version + ".nupkg"
    ensures (forall i | 0 <= i < |filename| - 7 && filename[i] == '.' :: filename[i + 1] !in "0123456789") ==> r.None?
  {
    r := ParseVersioned(filename, '.', ".nupkg");
    forall p: VersionedRef
      ensures WellFormed(p, '.') <==>
              && p.name != "" && p.version != "" && p.version[0] in "0123456789"
              && (forall i | 0 <= i < |p.name| - 1 && p.name[i] == '.' :: p.name[i + 1] !in "0123456789")
    {
      WellFormedIff(p, '.');
    }
    if r.Some? { NoVersionNoReference(filename, '.', ".nupkg", r.value); }
  }

  /** Every filename is printed by at most one well-formed reference, so parsing is a function of the filename. */
  lemma PrintIsInjective(p: VersionedRef, q: VersionedRef, sep: char, suffix: string)
    requires !IsDigit(sep) && WellFormed(p, sep) && WellFormed(q, sep)
    requires Print(p, sep, suffix) == Print(q, sep, suffix)
    ensures p == q
  {
    var base := p.name + [sep] + p.version;
    assert base == Print(p, sep, suffix)[..|Print(p, sep, suffix)| - |suffix|] == q.name + [sep] + q.version;
    VersionPartsOfPrinted(p, sep);
    VersionPartsOfPrinted(q, sep);
  }
}
