/** Labels, stable release tags, file extensions and release archive names. */
module Naming {
  import opened Basics
  import opened Text

  const MAX_ARTIFACT_NAME := 255
  const MAX_LABEL := 63

  predicate IsLowerAlphanumeric(c: char) {
    'a' <= c <= 'z' || '0' <= c <= '9'
  }

  /** A lower-case label in the style of section 2.1 of RFC 1123. */
  predicate ValidLabel(s: string) {
    && s != "" && |s| <= MAX_LABEL
    && IsLowerAlphanumeric(s[0]) && IsLowerAlphanumeric(s[|s| - 1])
    && forall i :: 1 <= i < |s| - 1 ==> IsLowerAlphanumeric(s[i]) || s[i] == '-'
  }

  /** Up to 63 lower-case letters, digits and hyphens, with no hyphen at either end. */
  lemma LabelGrammar(s: string)
    ensures ValidLabel(s) <==>
      && 1 <= |s| <= 63 && s[0] != '-' && s[|s| - 1] != '-'
      && forall i :: 0 <= i < |s| ==> 'a' <= s[i] <= 'z' || '0' <= s[i] <= '9' || s[i] == '-'
  {
  }

  // ----- release tags

  predicate ValidSemverTag(s: string) {
    |s| >= |"v0.0.0"| && s[0] == 'v'
    && var parts := Split(s[1..], '.');
       |parts| == 3 && forall i :: 0 <= i < 3 ==> IsDecimal(parts[i])
  }

  function PrintTag(major: nat, minor: nat, patch: nat): string {
    "v" + Join([Dec(major), Dec(minor), Dec(patch)], '.')
  }

  lemma NoDotInDecimal(n: nat)
    ensures '.' !in Dec(n) && |Dec(n)| >= 1
  {
    DecRoundTrip(n);
  }

  lemma PrintedTagIsValid(major: nat, minor: nat, patch: nat)
    ensures ValidSemverTag(PrintTag(major, minor, patch))
  {
    var parts := [Dec(major), Dec(minor), Dec(patch)];
    NoDotInDecimal(major);
    NoDotInDecimal(minor);
    NoDotInDecimal(patch);
    SplitUndoesJoin(parts, '.');
    DecRoundTrip(major);
    DecRoundTrip(minor);
    DecRoundTrip(patch);
    hide Dec, DecValue, Split;
    JoinOfFirst(Dec(major), [Dec(minor), Dec(patch)], '.');
    JoinOfFirst(Dec(minor), [Dec(patch)], '.');
    assert parts == [Dec(major)] + [Dec(minor), Dec(patch)] && [Dec(minor)] + [Dec(patch)] == [Dec(minor), Dec(patch)];
    assert PrintTag(major, minor, patch)[1..] == Join(parts, '.');
  }

  lemma ValidTagIsPrinted(s: string)
    requires ValidSemverTag(s)
    ensures exists major, minor, patch :: s == PrintTag(major, minor, patch)
  {
    var parts := Split(s[1..], '.');
    JoinUndoesSplit(s[1..], '.');
    DecimalIsPrinted(parts[0]);
    DecimalIsPrinted(parts[1]);
    DecimalIsPrinted(parts[2]);
    hide Split, Join, Dec, DecValue, IsDecimal;
    assert parts == [parts[0], parts[1], parts[2]];
    assert s == PrintTag(DecValue(parts[0]), DecValue(parts[1]), DecValue(parts[2]));
  }

  /** The tag test accepts exactly "v" and three dotted decimal numbers, item 2 of SemVer 2.0.0. */
  lemma StableTagGrammar(s: string)
    ensures ValidSemverTag(s) <==> exists major, minor, patch :: s == PrintTag(major, minor, patch)
  {
    hide ValidSemverTag, PrintTag;
    if ValidSemverTag(s) {
      ValidTagIsPrinted(s);
    }
    if exists major, minor, patch :: s == PrintTag(major, minor, patch) {
      var major, minor, patch :| s == PrintTag(major, minor, patch);
      PrintedTagIsValid(major, minor, patch);
    }
  }

  // ----- extensions

  predicate IsSeparator(c: char) {
    c == '.' || c == '-'
  }

  /** Alphanumerics and separators, with no separator first, last or next to another. */
  predicate WellSeparated(s: string) {
    && s != "" && !IsSeparator(s[0]) && !IsSeparator(s[|s| - 1])
    && (forall i :: 0 <= i < |s| ==> IsLowerAlphanumeric(s[i]) || IsSeparator(s[i]))
    && (forall i :: 1 <= i < |s| ==> !(IsSeparator(s[i - 1]) && IsSeparator(s[i])))
  }

  /** The scan with its one flag. */
  method ValidExtension(s: string) returns (r: bool)
    ensures r <==> WellSeparated(s) && |s| <= 63
  {
    if s == "" || |s| > MAX_LABEL {
      return false;
    }
    var previousWasSeparator := true;
    for i := 0 to |s|
      invariant previousWasSeparator <==> i == 0 || IsSeparator(s[i - 1])
      invariant i > 0 ==> !IsSeparator(s[0])
      invariant forall j :: 0 <= j < i ==> IsLowerAlphanumeric(s[j]) || IsSeparator(s[j])
      invariant forall j :: 1 <= j < i ==> !(IsSeparator(s[j - 1]) && IsSeparator(s[j]))
    {
      if IsLowerAlphanumeric(s[i]) {
        previousWasSeparator := false;
      } else {
        if (s[i] != '.' && s[i] != '-') || previousWasSeparator {
          return false;
        }
        previousWasSeparator := true;
      }
    }
    r := !previousWasSeparator;
  }

  predicate IsSegment(s: string) {
    s != "" && All(s, IsLowerAlphanumeric)
  }

  ghost predicate IsSegmentList(segments: seq<string>, separators: seq<char>) {
    && |segments| == |separators| + 1
    && (forall i :: 0 <= i < |segments| ==> IsSegment(segments[i]))
    && (forall i :: 0 <= i < |separators| ==> IsSeparator(separators[i]))
  }

  ghost function Weave(segments: seq<string>, separators: seq<char>): string
    requires |segments| == |separators| + 1
  {
    if separators == [] then segments[0]
    else segments[0] + [separators[0]] + Weave(segments[1..], separators[1..])
  }

  lemma WellSeparatedSplits(first: string, sep: char, rest: string)
    requires IsSegment(first) && IsSeparator(sep)
    ensures WellSeparated(first + [sep] + rest) <==> WellSeparated(rest)
  {
    var s, k := first + [sep] + rest, |first| + 1;
    assert s[..k] == first + [sep] && s[k..] == rest;
    assert forall i :: 0 <= i < |first| ==> s[i] == first[i];
    assert s[k - 1] == sep && !IsSeparator(s[k - 2]);
    if WellSeparated(rest) {
      forall i | 0 <= i < |s| ensures IsLowerAlphanumeric(s[i]) || IsSeparator(s[i]) {
        assert i >= k ==> s[i] == rest[i - k];
      }
      forall i | 1 <= i < |s| ensures !(IsSeparator(s[i - 1]) && IsSeparator(s[i])) {
        if i > k {
          assert s[i - 1] == rest[i - k - 1] && s[i] == rest[i - k];
        } else if i == k {
          assert s[i] == rest[0];
        }
      }
      assert s[|s| - 1] == rest[|rest| - 1];
    }
    if WellSeparated(s) {
      forall i | 0 <= i < |rest|
        ensures IsLowerAlphanumeric(rest[i]) || IsSeparator(rest[i])
        ensures i >= 1 ==> !(IsSeparator(rest[i - 1]) && IsSeparator(rest[i]))
      {
        assert rest[i] == s[k + i];
        assert s[k + i - 1] == if i == 0 then sep else rest[i - 1];
      }
      assert s[|s| - 1] == if rest == "" then sep else rest[|rest| - 1];
      assert rest != "" && rest[0] == s[k];
    }
  }

  lemma {:induction false} WovenIsWellSeparated(segments: seq<string>, separators: seq<char>)
    requires IsSegmentList(segments, separators)
    ensures WellSeparated(Weave(segments, separators))
  {
    assert IsSegment(segments[0]);
    if separators != [] {
      hide WellSeparated;
      WovenIsWellSeparated(segments[1..], separators[1..]);
      WellSeparatedSplits(segments[0], separators[0], Weave(segments[1..], separators[1..]));
    }
  }

  function SegmentLength(s: string): (n: nat)
    ensures n <= |s| && All(s[..n], IsLowerAlphanumeric) && (n < |s| ==> !IsLowerAlphanumeric(s[n]))
  {
    if s == "" || !IsLowerAlphanumeric(s[0]) then 0
    else
      assert s[..1 + SegmentLength(s[1..])] == [s[0]] + s[1..][..SegmentLength(s[1..])];
      1 + SegmentLength(s[1..])
  }

  lemma {:induction false} WellSeparatedIsWoven(s: string) returns (segments: seq<string>, separators: seq<char>)
    requires WellSeparated(s)
    ensures IsSegmentList(segments, separators) && Weave(segments, separators) == s
  {
    var n := SegmentLength(s);
    if n == |s| {
      assert s[..n] == s;
      segments, separators := [s], [];
    } else {
      var first, sep, rest := s[..n], s[n], s[n + 1..];
      assert s == first + [sep] + rest;
      WellSeparatedSplits(first, sep, rest);
      hide WellSeparated;
      var segments', separators' := WellSeparatedIsWoven(rest);
      segments, separators := [first] + segments', [sep] + separators';
      assert segments[1..] == segments' && separators[1..] == separators';
    }
  }

  /** The scan accepts exactly non-empty alphanumeric segments joined by single separators. */
  lemma ExtensionGrammar(s: string)
    ensures WellSeparated(s) <==>
      exists segments, separators :: IsSegmentList(segments, separators) && Weave(segments, separators) == s
  {
    if WellSeparated(s) {
      var segments, separators := WellSeparatedIsWoven(s);
    }
    if exists segments, separators :: IsSegmentList(segments, separators) && Weave(segments, separators) == s {
      var segments, separators :| IsSegmentList(segments, separators) && Weave(segments, separators) == s;
      WovenIsWellSeparated(segments, separators);
    }
  }

  // ----- archive names

  predicate AcceptedFields(version: string, os: string, arch: string, extension: string) {
    ValidSemverTag(version) && ValidLabel(os) && ValidLabel(arch)
    && WellSeparated(extension) && |extension| <= 63
  }

  function PrintName(version: string, os: string, arch: string, extension: string): string
    requires version != ""
  {
    "diskforge_" + version[1..] + "_" + os + "_" + arch + "." + extension
  }

  method ArtifactName(version: string, os: string, arch: string, extension: string) returns (r: Option<string>)
    ensures r.Some? <==> AcceptedFields(version, os, arch, extension)
                         && |PrintName(version, os, arch, extension)| <= 255
    ensures r.Some? ==> DecodeName(r.value) == Some((version, os, arch, extension))
  {
    if !ValidSemverTag(version) || !ValidLabel(os) || !ValidLabel(arch) {
      return None;
    }
    var accepted := ValidExtension(extension);
    if !accepted {
      return None;
    }
    var name := PrintName(version, os, arch, extension);
    if |name| > MAX_ARTIFACT_NAME {
      return None;
    }
    NameRoundTrip(version, os, arch, extension);
    r := Some(name);
  }

  /** A parser for archive names: fields at underscores, then the extension after the first dot. */
  function DecodeName(name: string): Option<(string, string, string, string)> {
    var fields := Split(name, '_');
    if |fields| != 4 then None
    else
      var tail := Split(fields[3], '.');
      if |tail| < 2 then None
      else Some(("v" + fields[1], fields[2], tail[0], Join(tail[1..], '.')))
  }

  lemma {:induction false} JoinedChars(parts: seq<string>, sep: char, c: char)
    requires forall i :: 0 <= i < |parts| ==> c !in parts[i]
    requires c != sep
    ensures c !in Join(parts, sep)
  {
    if |parts| > 1 {
      JoinedChars(parts[1..], sep, c);
    }
  }

  lemma TagHasNoUnderscore(version: string)
    requires ValidSemverTag(version)
    ensures '_' !in version[1..]
  {
    JoinUndoesSplit(version[1..], '.');
    JoinedChars(Split(version[1..], '.'), '.', '_');
  }

  lemma SplitOfFourFields(a: string, b: string, c: string, d: string)
    requires '_' !in a && '_' !in b && '_' !in c && '_' !in d
    ensures Split(a + "_" + b + "_" + c + "_" + d, '_') == [a, b, c, d]
  {
    hide Split;
    SplitOfFirst(a, b + ['_'] + (c + ['_'] + d), '_');
    SplitOfFirst(b, c + ['_'] + d, '_');
    SplitOfFirst(c, d, '_');
    SplitOfPlain(d, '_');
    assert a + "_" + b + "_" + c + "_" + d == a + ['_'] + (b + ['_'] + (c + ['_'] + d));
  }

  /** The parser recovers all four fields of every accepted name. */
  lemma NameRoundTrip(version: string, os: string, arch: string, extension: string)
    requires AcceptedFields(version, os, arch, extension)
    ensures DecodeName(PrintName(version, os, arch, extension)) == Some((version, os, arch, extension))
  {
    TagHasNoUnderscore(version);
    var bare, tail := version[1..], arch + ['.'] + extension;
    assert version == "v" + bare;
    assert '_' !in os && '_' !in tail && '.' !in arch;
    hide *;
    SplitOfFourFields("diskforge", bare, os, tail);
    SplitOfFirst(arch, extension, '.');
    NameIsJoined(version, os, arch, extension);
    DecodeFields(PrintName(version, os, arch, extension), bare, os, arch, extension);
  }

  lemma NameIsJoined(version: string, os: string, arch: string, extension: string)
    requires version != ""
    ensures PrintName(version, os, arch, extension) ==
            "diskforge" + "_" + version[1..] + "_" + os + "_" + (arch + ['.'] + extension)
  {
  }

  lemma DecodeFields(name: string, bare: string, os: string, arch: string, extension: string)
    requires Split(name, '_') == ["diskforge", bare, os, arch + ['.'] + extension]
    requires Split(arch + ['.'] + extension, '.') == [arch] + Split(extension, '.')
    ensures DecodeName(name) == Some(("v" + bare, os, arch, extension))
  {
    hide Split, Join;
    JoinUndoesSplit(extension, '.');
    assert ([arch] + Split(extension, '.'))[1..] == Split(extension, '.');
  }
}
