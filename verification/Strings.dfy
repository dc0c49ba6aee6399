/** The string operations of Go's `strings` package that the program relies on, and
    the byte-wise order it sorts keys by. All separators are single ASCII characters. */
module Strings {
  import opened Outcomes

  /** Go's `<` on strings. */
  predicate Less(a: string, b: string) {
    b != [] && (a == [] || a[0] < b[0] || (a[0] == b[0] && Less(a[1..], b[1..])))
  }

  /** `Less` is a strict total order. */
  lemma {:induction false} LessIsTotalOrder(a: string, b: string, c: string)
    ensures !Less(a, a)
    ensures Less(a, b) || a == b || Less(b, a)
    ensures !(Less(a, b) && Less(b, a))
    ensures Less(a, b) && Less(b, c) ==> Less(a, c)
    decreases |a| + |b| + |c|
  {
    if a == [] {
    } else {
      LessIsTotalOrder(a[1..], if b == [] then [] else b[1..], if c == [] then [] else c[1..]);
      if b != [] && a[0] == b[0] && a[1..] == b[1..] {
        assert a == [a[0]] + a[1..] == b;
      }
    }
  }

  /** The texts first differ at position i, where a has the smaller character. */
  ghost predicate SmallerAt(a: string, b: string, i: int) {
    0 <= i < |a| && i < |b| && a[..i] == b[..i] && a[i] < b[i]
  }

  lemma SmallerBehind(c: char, x: string, y: string, i: nat)
    ensures SmallerAt([c] + x, [c] + y, i + 1) <==> SmallerAt(x, y, i)
    ensures [c] + x < [c] + y <==> x < y
  {
    var a, b := [c] + x, [c] + y;
    assert a[1..] == x && b[1..] == y;
    if i < |x| && i < |y| {
      assert a[..i + 1] == [c] + x[..i] && b[..i + 1] == [c] + y[..i];
      assert a[..i + 1][1..] == x[..i] && b[..i + 1][1..] == y[..i];
    }
  }

  lemma {:induction false} LessBySmaller(a: string, b: string)
    ensures Less(a, b) <==> a < b || exists i :: SmallerAt(a, b, i)
  {
    if a == [] || b == [] {
    } else if a[0] != b[0] {
      assert SmallerAt(a, b, 0) <==> a[0] < b[0];
      assert forall i | SmallerAt(a, b, i) && i > 0 :: a[..i][0] == a[0] && b[..i][0] == b[0];
    } else {
      var x, y := a[1..], b[1..];
      assert a == [a[0]] + x && b == [a[0]] + y;
      LessBySmaller(x, y);
      SmallerBehind(a[0], x, y, 0);
      forall i: nat ensures SmallerAt(a, b, i + 1) <==> SmallerAt(x, y, i) {
        SmallerBehind(a[0], x, y, i);
      }
      if i :| SmallerAt(a, b, i) {
        assert SmallerAt(a, b, (i - 1) + 1) && SmallerAt(x, y, i - 1);
      }
      if i :| SmallerAt(x, y, i) {
        assert SmallerAt(a, b, i + 1);
      }
    }
  }

  /** The order by position: a proper prefix comes first, otherwise the first difference decides. */
  lemma LessIff(a: string, b: string)
    ensures Less(a, b) <==> a < b || exists i | 0 <= i < |a| && i < |b| :: a[..i] == b[..i] && a[i] < b[i]
  {
    LessBySmaller(a, b);
    assert forall i | 0 <= i < |a| && i < |b| && a[..i] == b[..i] && a[i] < b[i] :: SmallerAt(a, b, i);
  }

  lemma DigitChars(c: char)
    ensures '0' <= c <= '9' <==> c in "0123456789"
  {
    if '0' <= c <= '9' {
      assert "0123456789"[c as int - '0' as int] == c;
    }
  }

  /** `strings.TrimPrefix` (prefix test is Dafny's `<=` on sequences). */
  function TrimPrefix(s: string, prefix: string): (r: string)
    ensures prefix <= s ==> s == prefix + r
    ensures !(prefix <= s) ==> r == s
  {
    if prefix <= s then s[|prefix|..] else s
  }

  /** `strings.CutSuffix`. */
  function CutSuffix(s: string, suffix: string): (r: Option<string>)
    ensures r.Some? ==> s == r.value + suffix
  {
    if |suffix| <= |s| && s[|s| - |suffix|..] == suffix then Some(s[..|s| - |suffix|]) else None
  }

  lemma CutSuffixOf(t: string, suffix: string)
    ensures CutSuffix(t + suffix, suffix) == Some(t)
  {
  }

  /** `strings.IndexByte`: the first position of c, or None. */
  function Index(s: string, c: char): (r: Option<nat>)
    ensures r.Some? ==> r.value < |s| && s[r.value] == c && c !in s[..r.value]
    ensures r.None? <==> c !in s
  {
    if s == [] then None
    else if s[0] == c then Some(0)
    else
      assert s == [s[0]] + s[1..];
      match Index(s[1..], c)
      case None => None
      case Some(i) =>
        assert s[..i + 1] == [s[0]] + s[1..][..i];
        Some(i + 1)
  }

  /** `strings.Cut` around the first occurrence of c. */
  function Cut(s: string, c: char): (r: Option<(string, string)>)
    ensures r.Some? ==> c !in r.value.0 && s == r.value.0 + [c] + r.value.1
  {
    match Index(s, c)
    case None => None
    case Some(i) => Some((s[..i], s[i + 1..]))
  }

  lemma CutOf(a: string, c: char, b: string)
    requires c !in a
    ensures Cut(a + [c] + b, c) == Some((a, b))
  {
    var s := a + [c] + b;
    assert s[|a|] == c;
    var i := Index(s, c).value;
    assert forall j | 0 <= j < |a| :: s[j] == a[j];
    assert c !in s[..i] && i == |a|;
    assert s[..|a|] == a && s[|a| + 1..] == b;
  }

  /** `strings.LastIndex`: the last position of c, or None. */
  function LastIndex(s: string, c: char): (r: Option<nat>)
    ensures r.Some? ==> r.value < |s| && s[r.value] == c && c !in s[r.value + 1..]
    ensures r.None? <==> c !in s
  {
    if s == [] then None
    else if s[|s| - 1] == c then Some(|s| - 1)
    else
      var n := |s| - 1;
      assert s == s[..n] + [s[n]];
      match LastIndex(s[..n], c)
      case None => None
      case Some(i) =>
        assert s[i + 1..] == s[..n][i + 1..] + [s[n]];
        Some(i)
  }

  /** Splits around the last occurrence of c. */
  function CutLast(s: string, c: char): (r: Option<(string, string)>)
    ensures r.Some? ==> c !in r.value.1 && s == r.value.0 + [c] + r.value.1
    ensures r.None? <==> c !in s
  {
    match LastIndex(s, c)
    case None => None
    case Some(i) => Some((s[..i], s[i + 1..]))
  }

  lemma CutLastOf(a: string, c: char, b: string)
    requires c !in b
    ensures CutLast(a + [c] + b, c) == Some((a, b))
  {
    var s := a + [c] + b;
    assert s[|a|] == c;
    var i := LastIndex(s, c).value;
    assert forall j | |a| < j < |s| :: s[j] == b[j - |a| - 1];
    assert c !in s[i + 1..] && i == |a|;
    assert s[..|a|] == a && s[|a| + 1..] == b;
  }

  /** `strings.Split` on one character. */
  function Split(s: string, sep: char): (parts: seq<string>)
    ensures |parts| > 0
  {
    if s == [] then [[]] else Prepend(s[0], Split(s[1..], sep), sep)
  }

  /** The parts of a text with one more character in front. */
  function Prepend(c: char, parts: seq<string>, sep: char): (r: seq<string>)
    requires |parts| > 0
    ensures |r| > 0
  {
    if c == sep then [[]] + parts else [[c] + parts[0]] + parts[1..]
  }

  /** `strings.Join` on one character. */
  function Join(parts: seq<string>, sep: char): string {
    if parts == [] then []
    else if |parts| == 1 then parts[0]
    else parts[0] + [sep] + Join(parts[1..], sep)
  }

  predicate NoneContain(parts: seq<string>, c: char) {
    forall p <- parts :: c !in p
  }

  lemma JoinOfPrepend(c: char, parts: seq<string>, sep: char)
    requires |parts| > 0
    ensures Join(Prepend(c, parts, sep), sep) == [c] + Join(parts, sep)
  {
  }

  lemma PrependIsPlain(c: char, parts: seq<string>, sep: char)
    requires |parts| > 0 && NoneContain(parts, sep)
    ensures NoneContain(Prepend(c, parts, sep), sep)
  {
  }

  lemma {:induction false} JoinOfSplit(s: string, sep: char)
    ensures Join(Split(s, sep), sep) == s
    ensures NoneContain(Split(s, sep), sep)
  {
    if s == [] {
    } else {
      JoinOfSplit(s[1..], sep);
      JoinOfPrepend(s[0], Split(s[1..], sep), sep);
      PrependIsPlain(s[0], Split(s[1..], sep), sep);
    }
  }

  lemma PrependToConcat(c: char, p: seq<string>, q: seq<string>, sep: char)
    requires |p| > 0
    ensures Prepend(c, p + q, sep) == Prepend(c, p, sep) + q
  {
  }

  lemma {:induction false} SplitOfConcat(a: string, b: string, sep: char)
    ensures Split(a + [sep] + b, sep) == Split(a, sep) + Split(b, sep)
  {
    var s := a + [sep] + b;
    if a == [] {
      assert s[1..] == b;
    } else {
      SplitOfConcat(a[1..], b, sep);
      assert s[1..] == a[1..] + [sep] + b;
      PrependToConcat(a[0], Split(a[1..], sep), Split(b, sep), sep);
    }
  }

  lemma {:induction false} SplitOfPlain(s: string, sep: char)
    requires sep !in s
    ensures Split(s, sep) == [s]
  {
    if s == [] {
    } else {
      SplitOfPlain(s[1..], sep);
      assert s == [s[0]] + s[1..];
    }
  }

  lemma {:induction false} SplitOfJoin(parts: seq<string>, sep: char)
    requires parts != [] && NoneContain(parts, sep)
    ensures Split(Join(parts, sep), sep) == parts
  {
    assert parts[0] in parts;
    SplitOfPlain(parts[0], sep);
    if |parts| > 1 {
      var rest := parts[1..];
      assert NoneContain(rest, sep) by {
        assert forall p <- rest :: p in parts;
      }
      SplitOfJoin(rest, sep);
      SplitOfConcat(parts[0], Join(rest, sep), sep);
    }
  }

  lemma {:induction false} JoinOfConcat(p: seq<string>, q: seq<string>, sep: char)
    requires p != [] && q != []
    ensures Join(p + q, sep) == Join(p, sep) + [sep] + Join(q, sep)
  {
    if |p| == 1 {
      assert (p + q)[1..] == q;
    } else {
      JoinOfConcat(p[1..], q, sep);
      assert (p + q)[1..] == p[1..] + q;
    }
  }

  /** The first segment starts the text, unless the text starts with a separator. */
  lemma FirstSegment(s: string, sep: char)
    ensures Split(s, sep)[0] != "" <==> s != "" && s[0] != sep
    ensures Split(s, sep)[0] != "" ==> Split(s, sep)[0][0] == s[0]
  {
  }

  /** No part, from the given one on, starts with one of these characters. */
  ghost predicate NoneStart(parts: seq<string>, from: nat, chars: string) {
    forall j | from <= j < |parts| && parts[j] != "" :: parts[j][0] !in chars
  }

  lemma NoneStartBehind(part: string, rest: seq<string>, chars: string)
    requires rest != []
    ensures NoneStart([part] + rest, 1, chars) <==> NoneStart(rest, 0, chars)
    ensures NoneStart(rest, 0, chars) <==> (rest[0] != "" ==> rest[0][0] !in chars) && NoneStart(rest, 1, chars)
    ensures NoneStart([part] + rest[1..], 1, chars) <==> NoneStart(rest, 1, chars)
  {
    assert forall j | 0 <= j < |rest| :: ([part] + rest)[j + 1] == rest[j];
    assert forall j | 1 <= j < |rest| :: ([part] + rest[1..])[j] == rest[j];
  }

  ghost predicate NoneFollow(s: string, sep: char, chars: string) {
    forall i | 0 <= i < |s| - 1 && s[i] == sep :: s[i + 1] !in chars
  }

  lemma NoneFollowBehind(c: char, t: string, sep: char, chars: string)
    ensures NoneFollow([c] + t, sep, chars) <==>
            (c == sep && t != "" ==> t[0] !in chars) && NoneFollow(t, sep, chars)
  {
    var s := [c] + t;
    if NoneFollow(s, sep, chars) {
      assert c == sep && t != "" ==> s[0] == sep && s[0 + 1] == t[0];
      forall i | 0 <= i < |t| - 1 && t[i] == sep ensures t[i + 1] !in chars {
        assert s[i + 1] == sep && s[i + 1 + 1] == t[i + 1];
      }
    }
    if (c == sep && t != "" ==> t[0] !in chars) && NoneFollow(t, sep, chars) {
      forall i | 0 <= i < |s| - 1 && s[i] == sep ensures s[i + 1] !in chars {
        if i > 0 {
          assert t[i - 1] == sep && t[i - 1 + 1] == s[i + 1];
        }
      }
    }
  }

  /** The later segments start right after the separators. */
  lemma {:induction false} LaterSegments(s: string, sep: char, chars: string)
    requires sep !in chars
    ensures NoneStart(Split(s, sep), 1, chars) <==> NoneFollow(s, sep, chars)
  {
    if s == [] {
    } else {
      var t := s[1..];
      var rest := Split(t, sep);
      assert s == [s[0]] + t;
      LaterSegments(t, sep, chars);
      FirstSegment(t, sep);
      NoneFollowBehind(s[0], t, sep, chars);
      NoneStartBehind(if s[0] == sep then "" else [s[0]] + rest[0], rest, chars);
    }
  }

  /** Splitting is the only way to write s as separator-free parts. */
  lemma SplitIff(s: string, parts: seq<string>, sep: char)
    ensures Split(s, sep) == parts <==> parts != [] && NoneContain(parts, sep) && Join(parts, sep) == s
  {
    JoinOfSplit(s, sep);
    if parts != [] && NoneContain(parts, sep) { SplitOfJoin(parts, sep); }
  }
}
