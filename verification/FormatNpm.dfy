/** npm registry keys: a bare or scoped package name, or a tarball under "/-/". */
module NpmFormat {
  import opened Outcomes
  import opened Strings

  const MARKER := "/-/"

  /** An empty scope means unscoped, an empty version package metadata. */
  datatype PackageRef = PackageRef(scope: string, name: string, version: string)

  predicate MarkerAt(s: string, i: nat) {
    i + 3 <= |s| && s[i] == '/' && s[i + 1] == '-' && s[i + 2] == '/'
  }

  function FullName(p: PackageRef): string {
    if p.scope == "" then p.name else "@" + p.scope + "/" + p.name
  }

  /** The first position of the tarball marker, or None. */
  function IndexMarker(s: string): (r: Option<nat>)
    ensures r.Some? ==> MarkerAt(s, r.value) && forall i | 0 <= i < r.value :: !MarkerAt(s, i)
    ensures r.None? ==> forall i: nat :: !MarkerAt(s, i)
  {
    if |s| < 3 then None
    else if MarkerAt(s, 0) then Some(0)
    else
      assert forall i: nat | i > 0 :: MarkerAt(s, i) <==> MarkerAt(s[1..], i - 1);
      match IndexMarker(s[1..])
      case None => None
      case Some(i) => Some(i + 1)
  }

  /** A tarball's name may even contain slashes, as long as the marker it precedes is the first one. */
  predicate WellFormedName(name: string, version: string) {
    && name != ""
    && if version == "" then '/' !in name else IndexMarker(name + "/-").None?
  }

  function TarballName(name: string, version: string): string {
    (name + "-") + (version + ".tgz")
  }

  function PrintName(name: string, version: string): string {
    if version == "" then name else name + MARKER + TarballName(name, version)
  }

  /** The version in a tarball's filename. */
  function ParseTarball(name: string, tarball: string): Option<string> {
    if tarball == "" || CutSuffix(tarball, ".tgz").None? || !(name + "-" <= tarball) then None
    else
      var afterName := TrimPrefix(tarball, name + "-");
      var version := if CutSuffix(afterName, ".tgz").Some? then CutSuffix(afterName, ".tgz").value else afterName;
      if version == "" then None else Some(version)
  }

  /** The part of a key after its scope: "name" or "name/-/name-version.tgz". */
  function ParseName(key: string): Option<(string, string)> {
    var marker := IndexMarker(key);
    if marker.Some? then
      var name, tarball := key[..marker.value], key[marker.value + 3..];
      var version := ParseTarball(name, tarball);
      if name == "" || version.None? then None else Some((name, version.value))
    else if key == "" || '/' in key then None
    else Some((key, ""))
  }

  lemma MarkerCuts(key: string, idx: nat)
    requires MarkerAt(key, idx)
    ensures key == key[..idx] + MARKER + key[idx + 3..]
  {
  }

  lemma MarkerSplits(key: string, name: string, tarball: string)
    requires key == name + MARKER + tarball
    ensures IndexMarker(key) == Some(|name|) <==> IndexMarker(name + "/-").None?
  {
    assert MarkerAt(key, |name|);
    assert forall i: nat | i < |name| :: MarkerAt(key, i) <==> MarkerAt(name + "/-", i);
    assert forall i: nat | |name| <= i :: !MarkerAt(name + "/-", i);
  }

  /** The suffix cannot overlap the name's trailing hyphen, so the version is what lies between. */
  lemma HyphenBeforeSuffix(base: string, n: nat)
    requires n < |base| + 4 && (base + ".tgz")[n] == '-'
    ensures n < |base|
  {
  }

  lemma ParsedTarballPrints(name: string, tarball: string, version: string)
    requires ParseTarball(name, tarball) == Some(version)
    ensures version != "" && tarball == TarballName(name, version)
  {
    var base, after := CutSuffix(tarball, ".tgz").value, TrimPrefix(tarball, name + "-");
    assert tarball[|name|] == '-' by { assert tarball == (name + "-") + after; }
    HyphenBeforeSuffix(base, |name|);
    assert after[|after| - 4..] == tarball[|tarball| - 4..] == ".tgz";
  }

  lemma PrintedTarballParses(name: string, version: string)
    requires version != ""
    ensures ParseTarball(name, TarballName(name, version)) == Some(version)
  {
  }

  lemma ParsedNamePrints(key: string, name: string, version: string)
    requires ParseName(key) == Some((name, version))
    ensures WellFormedName(name, version) && key == PrintName(name, version)
  {
    if IndexMarker(key).Some? {
      var idx := IndexMarker(key).value;
      var tarball := key[idx + 3..];
      ParsedTarballPrints(name, tarball, version);
      MarkerCuts(key, idx);
      MarkerSplits(key, name, tarball);
    }
  }

  lemma PrintedNameParses(name: string, version: string)
    requires WellFormedName(name, version)
    ensures ParseName(PrintName(name, version)) == Some((name, version))
  {
    var key := PrintName(name, version);
    if version == "" {
      assert forall i: nat :: !MarkerAt(key, i);
    } else {
      var tarball := TarballName(name, version);
      MarkerSplits(key, name, tarball);
      assert key[..|name|] == name && key[|name| + 3..] == tarball;
      PrintedTarballParses(name, version);
    }
  }

  function ParseScoped(key: string): Option<PackageRef> {
    if "@" <= key then
      var cut := Cut(key, '/');
      if cut.None? || cut.value.0 == "@" then None
      else
        var parsed := ParseName(cut.value.1);
        if parsed.None? then None
        else Some(PackageRef(TrimPrefix(cut.value.0, "@"), parsed.value.0, parsed.value.1))
    else
      var parsed := ParseName(key);
      if parsed.None? then None else Some(PackageRef("", parsed.value.0, parsed.value.1))
  }

  function ParseKey(key: string): Option<PackageRef> {
    ParseScoped(TrimPrefix(key, "/"))
  }

  predicate WellFormed(p: PackageRef) {
    && WellFormedName(p.name, p.version) && '/' !in p.scope
    && (p.scope == "" ==> !("@" <= p.name))
  }

  function Print(p: PackageRef): string {
    (if p.scope == "" then "" else "@" + p.scope + "/") + PrintName(p.name, p.version)
  }

  lemma ScopedIff(k: string, p: PackageRef)
    requires p.scope != ""
    ensures ParseScoped(k) == Some(p) <==> WellFormed(p) && k == Print(p)
  {
    var scopePart, rest := "@" + p.scope, PrintName(p.name, p.version);
    assert Print(p) == scopePart + ['/'] + rest;
    if ParseScoped(k) == Some(p) {
      var (s, r) := Cut(k, '/').value;
      assert k == s + ['/'] + r;
      assert k[0] == s[0] == '@';
      assert s == scopePart;
      ParsedNamePrints(r, p.name, p.version);
    }
    if WellFormed(p) && k == Print(p) {
      CutOf(scopePart, '/', rest);
      assert TrimPrefix(scopePart, "@") == p.scope;
      PrintedNameParses(p.name, p.version);
    }
  }

  lemma UnscopedIff(k: string, p: PackageRef)
    requires p.scope == ""
    ensures ParseScoped(k) == Some(p) <==> WellFormed(p) && k == Print(p)
  {
    assert Print(p) == PrintName(p.name, p.version);
    if ParseScoped(k) == Some(p) {
      assert !("@" <= k);
      ParsedNamePrints(k, p.name, p.version);
      assert k[0] == p.name[0];
    }
    if WellFormed(p) && k == Print(p) {
      PrintedNameParses(p.name, p.version);
      assert k[0] == p.name[0];
    }
  }

  /** A key parses to exactly the well-formed reference that prints it, up to one leading slash. */
  lemma ParsePrintIff(key: string, p: PackageRef)
    ensures ParseKey(key) == Some(p) <==> WellFormed(p) && TrimPrefix(key, "/") == Print(p)
  {
    if p.scope == "" {
      UnscopedIff(TrimPrefix(key, "/"), p);
    } else {
      ScopedIff(TrimPrefix(key, "/"), p);
    }
  }

  /** Printing then parsing loses nothing exactly when the printed key does not itself start with a slash. */
  lemma PrintParseIff(p: PackageRef)
    ensures ParseKey(Print(p)) == Some(p) <==> WellFormed(p) && !("/" <= Print(p))
  {
    ParsePrintIff(Print(p), p);
  }

  /** A metadata key is its package's conventional full name. */
  lemma MetadataKeyIsFullName(p: PackageRef)
    requires WellFormed(p) && p.version == ""
    ensures ParseKey(FullName(p)) == Some(p)
  {
    assert FullName(p) == Print(p);
    assert Print(p)[0] == if p.scope == "" then p.name[0] else '@';
    PrintParseIff(p);
  }

  lemma PlainNameIsWellFormed(name: string, version: string)
    requires name != "" && '/' !in name
    ensures WellFormedName(name, version)
  {
    assert forall i: nat :: !MarkerAt(name + "/-", i);
  }

  lemma KeyParses(key: string, p: PackageRef)
    requires WellFormed(p) && key == Print(p) && key != "" && key[0] != '/'
    ensures ParseKey(key) == Some(p)
  {
    ParsePrintIff(key, p);
  }

  /** The conventional metadata keys, spelled out. */
  lemma MetadataKeysParse(scope: string, name: string)
    requires scope != "" && '/' !in scope && name != "" && '/' !in name && name[0] != '@'
    ensures ParseKey(name) == Some(PackageRef("", name, ""))
    ensures ParseKey("@" + scope + "/" + name) == Some(PackageRef(scope, name, ""))
  {
    PlainNameIsWellFormed(name, "");
    assert name == Print(PackageRef("", name, ""));
    KeyParses(name, PackageRef("", name, ""));
    KeyParses("@" + scope + "/" + name, PackageRef(scope, name, ""));
  }

  /** The conventional tarball keys, spelled out. */
  lemma TarballKeyParses(name: string, version: string)
    requires name != "" && '/' !in name && name[0] != '@' && version != ""
    ensures ParseKey(name + "/-/" + name + "-" + version + ".tgz") == Some(PackageRef("", name, version))
  {
    PlainNameIsWellFormed(name, version);
    SpelledTarball("", name, version);
    KeyParses(name + "/-/" + name + "-" + version + ".tgz", PackageRef("", name, version));
  }

  lemma ScopedTarballKeyParses(scope: string, name: string, version: string)
    requires scope != "" && '/' !in scope && name != "" && '/' !in name && version != ""
    ensures ParseKey("@" + scope + "/" + name + "/-/" + name + "-" + version + ".tgz") ==
            Some(PackageRef(scope, name, version))
  {
    PlainNameIsWellFormed(name, version);
    SpelledTarball("@" + scope + "/", name, version);
    KeyParses("@" + scope + "/" + name + "/-/" + name + "-" + version + ".tgz", PackageRef(scope, name, version));
  }

  lemma SpelledTarball(prefix: string, name: string, version: string)
    requires version != ""
    ensures prefix + PrintName(name, version) == prefix + name + "/-/" + name + "-" + version + ".tgz"
    ensures prefix == "" ==> prefix + name == name
  {
  }
}
