/** Maven2 repository paths:
    group/as/directories/artifact/version/artifact-version[-classifier].extension */
module MavenFormat {
  import opened Outcomes
  import opened Strings

  datatype Coordinate = Coordinate(
    groupId: string, artifactId: string, version: string, classifier: string, extension: string)

  predicate IsAllDigits(s: string) {
    s != "" && forall c <- s :: '0' <= c <= '9'
  }

  /** Leftover version digits at the front of what would be a multi-part extension. */
  predicate LeadsWithNumber(s: string) {
    var idx := Index(s, '.');
    idx.Some? && IsAllDigits(s[..idx.value])
  }

  /** Classifier (empty for none) and extension of a file that belongs to artifact and version. */
  function ParseFile(prefix: string, file: string): Option<(string, string)> {
    if !(prefix <= file) then None
    else
      var rest := TrimPrefix(file, prefix);
      if "-" <= rest then
        var cut := Cut(TrimPrefix(rest, "-"), '.');
        if cut.None? || cut.value.0 == "" || cut.value.1 == "" then None else cut
      else if "." <= rest then
        var candidate := TrimPrefix(rest, ".");
        if LeadsWithNumber(candidate) || candidate == "" then None else Some(("", candidate))
      else None
  }

  predicate WellFormedTail(classifier: string, extension: string) {
    extension != "" && '.' !in classifier && (classifier == "" ==> !LeadsWithNumber(extension))
  }

  function PrintTail(classifier: string, extension: string): string {
    if classifier == "" then "." + extension else "-" + (classifier + ['.'] + extension)
  }

  lemma FileIff(prefix: string, file: string, classifier: string, extension: string)
    ensures ParseFile(prefix, file) == Some((classifier, extension)) <==>
            WellFormedTail(classifier, extension) && file == prefix + PrintTail(classifier, extension)
  {
    if ParseFile(prefix, file) == Some((classifier, extension)) {
      var rest := TrimPrefix(file, prefix);
      if "-" <= rest {
        assert rest == "-" + TrimPrefix(rest, "-");
      } else {
        assert rest == "." + TrimPrefix(rest, ".");
      }
    }
    if WellFormedTail(classifier, extension) && file == prefix + PrintTail(classifier, extension) {
      assert TrimPrefix(file, prefix) == PrintTail(classifier, extension);
      CutOf(classifier, '.', extension);
      assert classifier != "" ==> TrimPrefix(PrintTail(classifier, extension), "-") == classifier + ['.'] + extension;
      assert classifier == "" ==> TrimPrefix(PrintTail(classifier, extension), ".") == extension;
    }
  }

  function ParseSegments(segments: seq<string>): Option<Coordinate> {
    if |segments| < 4 then None
    else
      var n := |segments| - 3;
      var artifactId, version, file := segments[n], segments[n + 1], segments[n + 2];
      var parsed := ParseFile(artifactId + "-" + version, file);
      if version == "" || artifactId == "" || "" in segments[..n] || parsed.None? then None
      else Some(Coordinate(Join(segments[..n], '.'), artifactId, version, parsed.value.0, parsed.value.1))
  }

  function ParseCoordinate(path: string): Option<Coordinate> {
    ParseSegments(Split(TrimPrefix(path, "/"), '/'))
  }

  /** The directories a coordinate's group is spread over. */
  function GroupDirectories(c: Coordinate): (dirs: seq<string>)
    ensures dirs != []
  {
    Split(c.groupId, '.')
  }

  function FileName(c: Coordinate): string {
    c.artifactId + "-" + c.version + PrintTail(c.classifier, c.extension)
  }

  function Segments(c: Coordinate): seq<string> {
    GroupDirectories(c) + [c.artifactId, c.version, FileName(c)]
  }

  function Print(c: Coordinate): string {
    Join(Segments(c), '/')
  }

  predicate WellFormed(c: Coordinate) {
    && NoneContain(Segments(c), '/')
    && "" !in GroupDirectories(c) && c.artifactId != "" && c.version != ""
    && WellFormedTail(c.classifier, c.extension)
  }

  /** A dot inside one group directory cannot be told from the dot that joins two. */
  predicate DotFreeGroup(path: string) {
    var segments := Split(TrimPrefix(path, "/"), '/');
    |segments| >= 4 && NoneContain(segments[..|segments| - 3], '.')
  }

  lemma LastThree(s: seq<string>)
    requires |s| >= 3
    ensures s == s[..|s| - 3] + [s[|s| - 3], s[|s| - 2], s[|s| - 1]]
  {
  }

  lemma ParsedSegmentsPrint(segments: seq<string>, c: Coordinate)
    requires NoneContain(segments, '/')
    requires ParseSegments(segments) == Some(c) && NoneContain(segments[..|segments| - 3], '.')
    ensures WellFormed(c) && segments == Segments(c)
  {
    var n := |segments| - 3;
    FileIff(c.artifactId + "-" + c.version, segments[n + 2], c.classifier, c.extension);
    SplitOfJoin(segments[..n], '.');
    assert GroupDirectories(c) == segments[..n];
    assert segments[n + 2] == FileName(c);
    LastThree(segments);
  }

  lemma PrintedSegmentsParse(c: Coordinate)
    requires WellFormed(c)
    ensures var s := Segments(c); ParseSegments(s) == Some(c) && NoneContain(s[..|s| - 3], '.')
  {
    var s := Segments(c);
    var n := |s| - 3;
    assert s[..n] == GroupDirectories(c) && s[n] == c.artifactId && s[n + 1] == c.version && s[n + 2] == FileName(c);
    JoinOfSplit(c.groupId, '.');
    FileIff(c.artifactId + "-" + c.version, FileName(c), c.classifier, c.extension);
  }

  /** Among paths whose group directories hold no dot, a path parses to exactly the well-formed
      coordinate that prints it, up to one leading slash. */
  lemma ParsePrintIff(path: string, c: Coordinate)
    ensures ParseCoordinate(path) == Some(c) && DotFreeGroup(path) <==>
            WellFormed(c) && TrimPrefix(path, "/") == Print(c)
  {
    var p := TrimPrefix(path, "/");
    JoinOfSplit(p, '/');
    if ParseCoordinate(path) == Some(c) && DotFreeGroup(path) { ParsedSegmentsPrint(Split(p, '/'), c); }
    if WellFormed(c) { PrintedSegmentsParse(c); }
    SplitIff(p, Segments(c), '/');
  }

  /** A well-formed coordinate survives printing and parsing. */
  lemma PrintParse(c: Coordinate)
    requires WellFormed(c)
    ensures ParseCoordinate(Print(c)) == Some(c)
  {
    var dir := Segments(c)[0];
    assert dir in GroupDirectories(c);
    assert Print(c)[0] == dir[0] && dir[0] in dir;
    ParsePrintIff(Print(c), c);
  }

  lemma LeadsWithNumberIff(first: string, rest: string)
    requires first != "" && '.' !in first
    ensures LeadsWithNumber(first + ['.'] + rest) <==> forall c <- first :: c in "0123456789"
  {
    var s := first + ['.'] + rest;
    assert s[|first|] == '.' && s[..|first|] == first;
    var i := Index(s, '.').value;
    assert i >= |first| by {
      assert forall j | 0 <= j < |first| :: s[j] == first[j];
    }
    assert i == |first|;
    forall c: char ensures '0' <= c <= '9' <==> c in "0123456789" {
      DigitChars(c);
    }
  }

  /** A file whose name goes on with more version digits belongs to another version. */
  lemma LeftoverDigitsIff(prefix: string, first: string, rest: string)
    requires first != "" && '.' !in first
    ensures ParseFile(prefix, prefix + ("." + (first + "." + rest))) ==
            if forall c <- first :: c in "0123456789" then None else Some(("", first + "." + rest))
  {
    var candidate := first + "." + rest;
    LeadsWithNumberIff(first, rest);
    assert TrimPrefix(prefix + ("." + candidate), prefix) == "." + candidate;
    assert TrimPrefix("." + candidate, ".") == candidate;
  }

  /** For instance, version 1.0 does not own foo-1.0.1.jar. */
  lemma OtherVersionIsRejected(dirs: seq<string>, artifact: string, version: string, digits: string, rest: string)
    requires digits != "" && forall c <- digits :: c in "0123456789"
    ensures ParseSegments(dirs + [artifact, version, artifact + "-" + version + ("." + (digits + "." + rest))]).None?
  {
    assert '.' !in digits;
    LeftoverDigitsIff(artifact + "-" + version, digits, rest);
  }

  /** A path of two group directories, spelled out. */
  lemma PathParses(g: string, h: string, a: string, v: string, ext: string)
    requires g != "" && h != "" && a != "" && v != "" && ext != ""
    requires '/' !in g && '/' !in h && '/' !in a && '/' !in v && '/' !in ext && '.' !in ext
    ensures ParseCoordinate(g + "/" + h + "/" + a + "/" + v + "/" + (a + "-" + v + "." + ext)) ==
            Some(Coordinate(g + "." + h, a, v, "", ext))
  {
    SegmentsParse(g, h, a, v, "", ext, a + "-" + v + "." + ext);
    FiveSegments(g, h, a, v, a + "-" + v + "." + ext);
  }

  /** The same with a classifier. */
  lemma ClassifiedPathParses(g: string, h: string, a: string, v: string, classifier: string, ext: string)
    requires g != "" && h != "" && a != "" && v != "" && classifier != "" && ext != ""
    requires '/' !in g && '/' !in h && '/' !in a && '/' !in v && '/' !in classifier && '/' !in ext
    requires '.' !in classifier && '.' !in ext
    ensures ParseCoordinate(g + "/" + h + "/" + a + "/" + v + "/" + (a + "-" + v + "-" + classifier + "." + ext)) ==
            Some(Coordinate(g + "." + h, a, v, classifier, ext))
  {
    assert a + "-" + v + "-" + classifier + "." + ext == a + "-" + v + ("-" + classifier) + "." + ext;
    SegmentsParse(g, h, a, v, classifier, ext, a + "-" + v + "-" + classifier + "." + ext);
    FiveSegments(g, h, a, v, a + "-" + v + "-" + classifier + "." + ext);
  }

  lemma FiveSegments(g: string, h: string, a: string, v: string, file: string)
    requires g != "" && '/' !in g && '/' !in h && '/' !in a && '/' !in v && '/' !in file
    ensures var path := g + "/" + h + "/" + a + "/" + v + "/" + file;
            TrimPrefix(path, "/") == path && Split(path, '/') == [g, h, a, v, file]
  {
    var path := g + "/" + h + "/" + a + "/" + v + "/" + file;
    assert path[0] == g[0];
    SplitOfPlain(g, '/');
    SplitOfPlain(h, '/');
    SplitOfPlain(a, '/');
    SplitOfPlain(v, '/');
    SplitOfPlain(file, '/');
    SplitOfConcat(g, h, '/');
    SplitOfConcat(g + "/" + h, a, '/');
    SplitOfConcat(g + "/" + h + "/" + a, v, '/');
    SplitOfConcat(g + "/" + h + "/" + a + "/" + v, file, '/');
  }

  lemma SegmentsParse(g: string, h: string, a: string, v: string, classifier: string, ext: string, file: string)
    requires g != "" && h != "" && a != "" && v != "" && ext != "" && '.' !in classifier && '.' !in ext
    requires file == a + "-" + v + (if classifier == "" then "" else "-" + classifier) + "." + ext
    ensures ParseSegments([g, h, a, v, file]) == Some(Coordinate(g + "." + h, a, v, classifier, ext))
  {
    var segments := [g, h, a, v, file];
    assert segments[..2] == [g, h];
    assert Join([g, h], '.') == g + "." + h;
    assert file == (a + "-" + v) + PrintTail(classifier, ext);
    FileIff(a + "-" + v, file, classifier, ext);
  }
}
