/** Debian package filenames (name_version_architecture.deb) and the APT pool layout. */
module DebianFormat {
  import opened Outcomes
  import opened Strings

  datatype PackageRef = PackageRef(name: string, version: string, architecture: string)

  predicate WellFormed(p: PackageRef) {
    && p.name != "" && p.version != "" && p.architecture != ""
    && '_' !in p.name && '_' !in p.version && '_' !in p.architecture
  }

  function Print(p: PackageRef): string {
    p.name + "_" + p.version + "_" + p.architecture + ".deb"
  }

  function ParsePackageFilename(filename: string): Option<PackageRef> {
    match CutSuffix(filename, ".deb")
    case None => None
    case Some(base) =>
      var parts := Split(base, '_');
      if |parts| != 3 || parts[0] == "" || parts[1] == "" || parts[2] == "" then None
      else Some(PackageRef(parts[0], parts[1], parts[2]))
  }

  lemma ParsePrintIff(filename: string, p: PackageRef)
    ensures ParsePackageFilename(filename) == Some(p) <==> WellFormed(p) && filename == Print(p)
  {
    var parts := [p.name, p.version, p.architecture];
    var base := p.name + "_" + p.version + "_" + p.architecture;
    assert Join(parts, '_') == base by {
      assert Join(parts[1..], '_') == p.version + ['_'] + p.architecture;
    }
    assert Print(p) == base + ".deb";
    if ParsePackageFilename(filename) == Some(p) {
      var b := CutSuffix(filename, ".deb").value;
      assert Split(b, '_') == parts;
      SplitIff(b, parts, '_');
      assert p.name in parts && p.version in parts && p.architecture in parts;
    }
    if WellFormed(p) && filename == Print(p) {
      CutSuffixOf(base, ".deb");
      SplitIff(base, parts, '_');
    }
  }

  lemma FilenameParses(name: string, version: string, arch: string)
    requires name != "" && version != "" && arch != "" && '_' !in name && '_' !in version && '_' !in arch
    ensures ParsePackageFilename(name + "_" + version + "_" + arch + ".deb") == Some(PackageRef(name, version, arch))
  {
    ParsePrintIff(name + "_" + version + "_" + arch + ".deb", PackageRef(name, version, arch));
  }

  function PoolLetter(name: string): string {
    if "lib" <= name && |name| > 3 then name[..4]
    else if name == "" then ""
    else name[..1]
  }

  /** A library goes under "lib" and one more letter, any other package under its first letter. */
  lemma PoolLetterIs(c: char, rest: string)
    ensures PoolLetter("lib" + [c] + rest) == "lib" + [c]
    ensures !("lib" <= [c] + rest) || [c] + rest == "lib" ==> PoolLetter([c] + rest) == [c]
  {
    assert ("lib" + [c] + rest)[..4] == "lib" + [c];
  }

  function PoolPath(component: string, p: PackageRef): string {
    Join(["pool", component, PoolLetter(p.name), p.name, Print(p)], '/')
  }

  /** The part of a key after its last slash, as ParseRoute isolates it. */
  function LastSegment(key: string): (r: string)
    ensures '/' !in r
  {
    match CutLast(key, '/')
    case None => key
    case Some((_, file)) => file
  }

  /** A pool path's file names its package again, so no two packages share a pool path. */
  lemma PoolPathRoundTrip(component: string, p: PackageRef)
    requires WellFormed(p)
    requires '/' !in p.name && '/' !in p.version && '/' !in p.architecture
    ensures ParsePackageFilename(LastSegment(PoolPath(component, p))) == Some(p)
    ensures '/' !in component ==>
              Split(PoolPath(component, p), '/') == ["pool", component, PoolLetter(p.name), p.name, Print(p)]
  {
    if '/' !in component {
      SplitOfJoin(["pool", component, PoolLetter(p.name), p.name, Print(p)], '/');
    }
    var dirs := ["pool", component, PoolLetter(p.name), p.name];
    assert dirs + [Print(p)] == ["pool", component, PoolLetter(p.name), p.name, Print(p)];
    JoinOfConcat(dirs, [Print(p)], '/');
    assert PoolPath(component, p) == Join(dirs, '/') + ['/'] + Print(p);
    CutLastOf(Join(dirs, '/'), '/', Print(p));
    ParsePrintIff(Print(p), p);
  }
}
