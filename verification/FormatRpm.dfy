/** RPM package filenames: name-version-release.arch.rpm. */
module RpmFormat {
  import opened Outcomes
  import opened Strings

  datatype PackageRef = PackageRef(name: string, version: string, release: string, architecture: string)

  predicate KnownArchitecture(arch: string) {
    arch in {"x86_64", "aarch64", "noarch", "i686", "i386", "armv7hl", "ppc64le", "ppc64", "s390x", "src"}
  }

  /** The name may contain hyphens and the release dots; version and release may not contain hyphens. */
  predicate WellFormed(p: PackageRef) {
    WellFormedNvr(p.name, p.version, p.release) && KnownArchitecture(p.architecture)
  }

  predicate WellFormedNvr(name: string, version: string, release: string) {
    name != "" && version != "" && release != "" && '-' !in version && '-' !in release
  }

  function PrintNvr(name: string, version: string, release: string): string {
    name + ['-'] + (version + ['-'] + release)
  }

  function Print(p: PackageRef): string {
    (PrintNvr(p.name, p.version, p.release) + ['.'] + p.architecture) + ".rpm"
  }

  function ParsePackageFilename(filename: string): Option<PackageRef> {
    match CutSuffix(filename, ".rpm")
    case None => None
    case Some(base) =>
      match CutLast(base, '.')
      case None => None
      case Some((rest, arch)) =>
        if rest == "" || arch == "" || !KnownArchitecture(arch) then None
        else
          match ParseNvr(rest)
          case None => None
          case Some((name, version, release)) => Some(PackageRef(name, version, release, arch))
  }

  function ParseNvr(rest: string): Option<(string, string, string)> {
    var parts := Split(rest, '-');
    if |parts| < 3 then None
    else
      var release, version := parts[|parts| - 1], parts[|parts| - 2];
      var name := Join(parts[..|parts| - 2], '-');
      if name == "" || version == "" || release == "" then None else Some((name, version, release))
  }

  lemma ParsedNvrPrints(rest: string, name: string, version: string, release: string)
    requires ParseNvr(rest) == Some((name, version, release))
    ensures WellFormedNvr(name, version, release) && rest == PrintNvr(name, version, release)
  {
    var parts := Split(rest, '-');
    JoinOfSplit(rest, '-');
    var head, tail := parts[..|parts| - 2], [version, release];
    assert parts == head + tail;
    JoinOfConcat(head, tail, '-');
    assert Join(tail, '-') == version + ['-'] + release;
    assert version in parts && release in parts;
  }

  lemma PrintedNvrParses(name: string, version: string, release: string)
    requires WellFormedNvr(name, version, release)
    ensures ParseNvr(PrintNvr(name, version, release)) == Some((name, version, release))
  {
    var parts := Split(PrintNvr(name, version, release), '-');
    SplitOfConcat(name, version + ['-'] + release, '-');
    SplitOfConcat(version, release, '-');
    SplitOfPlain(version, '-');
    SplitOfPlain(release, '-');
    assert parts == Split(name, '-') + [version, release];
    assert parts[..|parts| - 2] == Split(name, '-');
    JoinOfSplit(name, '-');
  }

  lemma KnownArchitecturesAreDotFree(arch: string)
    requires KnownArchitecture(arch)
    ensures '.' !in arch && arch != ""
  {
  }

  /** A filename parses to exactly the well-formed reference that prints it. */
  lemma ParsePrintIff(filename: string, p: PackageRef)
    ensures ParsePackageFilename(filename) == Some(p) <==> WellFormed(p) && filename == Print(p)
  {
    var nvr := PrintNvr(p.name, p.version, p.release);
    var base := nvr + ['.'] + p.architecture;
    if ParsePackageFilename(filename) == Some(p) {
      var (rest, arch) := CutLast(CutSuffix(filename, ".rpm").value, '.').value;
      ParsedNvrPrints(rest, p.name, p.version, p.release);
    }
    if WellFormed(p) && filename == Print(p) {
      KnownArchitecturesAreDotFree(p.architecture);
      CutSuffixOf(base, ".rpm");
      CutLastOf(nvr, '.', p.architecture);
      PrintedNvrParses(p.name, p.version, p.release);
    }
  }

  lemma KnownArchitectureIs(arch: string)
    ensures KnownArchitecture(arch) <==>
            || arch == "x86_64" || arch == "aarch64" || arch == "noarch" || arch == "i686" || arch == "i386"
            || arch == "armv7hl" || arch == "ppc64le" || arch == "ppc64" || arch == "s390x" || arch == "src"
  {
  }

  lemma ParsedByArchitecture(name: string, version: string, release: string, arch: string)
    requires WellFormedNvr(name, version, release) && '.' !in arch
    ensures ParsePackageFilename(Print(PackageRef(name, version, release, arch))) ==
            if KnownArchitecture(arch) then Some(PackageRef(name, version, release, arch)) else None
  {
    var nvr := PrintNvr(name, version, release);
    CutSuffixOf(nvr + ['.'] + arch, ".rpm");
    CutLastOf(nvr, '.', arch);
    PrintedNvrParses(name, version, release);
    if KnownArchitecture(arch) { KnownArchitecturesAreDotFree(arch); }
  }

  /** Of the filenames that differ only in their dot-free last part, the ten known architectures parse. */
  lemma ArchitectureIff(name: string, version: string, release: string, arch: string)
    requires name != "" && version != "" && release != "" && '-' !in version && '-' !in release && '.' !in arch
    ensures ParsePackageFilename(name + "-" + version + "-" + release + "." + arch + ".rpm") ==
            if || arch == "x86_64" || arch == "aarch64" || arch == "noarch" || arch == "i686" || arch == "i386"
               || arch == "armv7hl" || arch == "ppc64le" || arch == "ppc64" || arch == "s390x" || arch == "src"
            then Some(PackageRef(name, version, release, arch)) else None
  {
    KnownArchitectureIs(arch);
    ParsedByArchitecture(name, version, release, arch);
    assert name + "-" + version + "-" + release + "." + arch + ".rpm" ==
        Print(PackageRef(name, version, release, arch));
  }
}
