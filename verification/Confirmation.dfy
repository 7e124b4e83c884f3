/**
 The consent token. Its record encodes six identity fields without ambiguity, and the token
 itself splits in one way only, so one confirmed token stands for one target and image.
 */
module Confirmation {
  import opened Basics
  import opened Text
  import opened Paths
  import opened Naming
  import opened Model

  /** The 32 bytes of a SHA-256 sum; the function that computes them is a parameter throughout. */
  type Sum = s: seq<Byte> | |s| == 32 witness seq(32, i => 0)

  const MAX_IDENTITY_TEXT := 256

  predicate IsPrintable(c: char) {
    0x20 <= c as int <= 0x7e
  }

  predicate ValidIdentityText(s: string) {
    |s| <= MAX_IDENTITY_TEXT && All(s, IsPrintable)
  }

  predicate AcceptedTarget(t: TargetIdentity) {
    && IsAbs(t.canonicalPath) && Clean(t.canonicalPath) == t.canonicalPath
    && HasPrefix(t.canonicalPath, "/dev/")
    && t.sizeBytes > 0
    && ValidLabel(Base(t.canonicalPath))
    && ValidIdentityText(t.serial) && ValidIdentityText(t.wwn)
  }

  function Record(t: TargetIdentity, i: ImageIdentity): string
    requires t.sizeBytes > 0 && i.uncompressedBytes > 0
  {
    "v1\n" + t.canonicalPath + "\n" + t.serial + "\n" + t.wwn + "\n"
    + Dec(t.sizeBytes) + "\n" + Dec(i.uncompressedBytes) + "\n" + i.sha256 + "\n"
  }

  function Token(device: string, digest: string, binding: seq<Byte>): string
    requires |digest| >= 12
  {
    "confirm-v1-" + device + "-" + digest[..12] + "-" + Hex(binding)
  }

  /** A parser for tokens: the last two fields have fixed length, so the label may contain hyphens. */
  function DecodeToken(token: string): Option<(string, string, string)> {
    var n := |token|;
    if n < 41 || !HasPrefix(token, "confirm-v1-") || token[n - 30] != '-' || token[n - 17] != '-' then None
    else Some((token[11..n - 30], token[n - 29..n - 17], token[n - 16..]))
  }

  lemma TokenDecodes(device: string, digest: string, binding: seq<Byte>)
    requires |digest| >= 12 && |binding| == 8
    ensures DecodeToken(Token(device, digest, binding)) == Some((device, digest[..12], Hex(binding)))
  {
    var token := Token(device, digest, binding);
    var n := |token|;
    hide Hex;
    assert token[..11] == "confirm-v1-";
    assert token[11..n - 30] == device && token[n - 29..n - 17] == digest[..12] && token[n - 16..] == Hex(binding);
  }

  /** Checks in the order the program makes them; an accepted token decodes to label, digest fragment and binding. */
  function ConfirmationToken(t: TargetIdentity, i: ImageIdentity, sha256: string -> Sum): (r: Result<string, GateCode>)
    ensures r == Err(InvalidTarget) <==> !AcceptedTarget(t)
    ensures r == Err(InvalidImageSize) <==> AcceptedTarget(t) && i.uncompressedBytes <= 0
    ensures r == Err(InvalidDigest) <==> AcceptedTarget(t) && i.uncompressedBytes > 0 && !ValidDigest(i.sha256)
    ensures r.Ok? <==> Accepted(t, i)
    ensures r.Ok? ==>
      DecodeToken(r.value) == Some((Base(t.canonicalPath), i.sha256[..12], Hex(sha256(Record(t, i))[..8])))
  {
    if !AcceptedTarget(t) then Err(InvalidTarget)
    else if i.uncompressedBytes <= 0 then Err(InvalidImageSize)
    else if !ValidDigest(i.sha256) then Err(InvalidDigest)
    else
      TokenDecodes(Base(t.canonicalPath), i.sha256, sha256(Record(t, i))[..8]);
      Ok(Token(Base(t.canonicalPath), i.sha256, sha256(Record(t, i))[..8]))
  }

  predicate Accepted(t: TargetIdentity, i: ImageIdentity) {
    AcceptedTarget(t) && i.uncompressedBytes > 0 && ValidDigest(i.sha256)
  }

  /** `path` is /dev, then at least one more component. */
  ghost predicate IsBelowDev(path: string, parts: seq<string>) {
    parts != [] && AllNames(parts) && path == Absolute(["dev"] + parts)
  }

  lemma CanonicalBelowDev(path: string) returns (parts: seq<string>)
    requires IsCanonical(path) && HasPrefix(path, "/dev/")
    ensures IsBelowDev(path, parts)
  {
    assert "/dev" == Absolute(["dev"]) && "/dev" + "/" == "/dev/";
    AbsoluteIsCanonical(["dev"]);
    hide Clean, Components;
    PathWithinIsComponentPrefix(path, "/dev");
    var all := Components(path);
    parts := all[1..];
    assert all == ["dev"] + parts;
    assert |path| > |"/dev"|;
  }

  lemma BelowDevIsCanonical(path: string, parts: seq<string>)
    requires IsBelowDev(path, parts)
    ensures IsCanonical(path) && HasPrefix(path, "/dev/") && Base(path) == parts[|parts| - 1]
  {
    var all := ["dev"] + parts;
    assert AllNames(all);
    AbsoluteIsCanonical(all);
    BaseOfAbsolute(all);
    JoinOfFirst("dev", parts, '/');
    assert path == "/dev/" + Join(parts, '/');
  }

  /** Printable ASCII of at most 256 characters. */
  lemma IdentityTextGrammar(s: string)
    ensures ValidIdentityText(s) <==> |s| <= 256 && forall i :: 0 <= i < |s| ==> ' ' <= s[i] <= '~'
  {
  }

  /**
   Exactly which identities get a token, with every bound written out: a path below /dev whose last
   component is a label, positive sizes, printable serial and identifier, 64 lower-case digits.
   */
  lemma TokenIsGranted(t: TargetIdentity, i: ImageIdentity, sha256: string -> Sum)
    ensures ConfirmationToken(t, i, sha256).Ok? <==>
      && (exists parts :: IsBelowDev(t.canonicalPath, parts) && ValidLabel(parts[|parts| - 1]))
      && t.sizeBytes > 0 && i.uncompressedBytes > 0
      && |t.serial| <= 256 && (forall k :: 0 <= k < |t.serial| ==> ' ' <= t.serial[k] <= '~')
      && |t.wwn| <= 256 && (forall k :: 0 <= k < |t.wwn| ==> ' ' <= t.wwn[k] <= '~')
      && |i.sha256| == 64 && forall k :: 0 <= k < 64 ==> '0' <= i.sha256[k] <= '9' || 'a' <= i.sha256[k] <= 'f'
  {
    IdentityTextGrammar(t.serial);
    IdentityTextGrammar(t.wwn);
    ValidDigestIsLowerHex(i.sha256);
    hide Clean, Base, ValidLabel, ValidIdentityText, ValidDigest, HasPrefix, IsBelowDev;
    if IsCanonical(t.canonicalPath) && HasPrefix(t.canonicalPath, "/dev/") {
      var parts := CanonicalBelowDev(t.canonicalPath);
      BelowDevIsCanonical(t.canonicalPath, parts);
    }
    forall parts | IsBelowDev(t.canonicalPath, parts)
      ensures IsCanonical(t.canonicalPath) && HasPrefix(t.canonicalPath, "/dev/")
      ensures parts != [] && Base(t.canonicalPath) == parts[|parts| - 1]
    {
      BelowDevHasLast(t.canonicalPath, parts);
      BelowDevIsCanonical(t.canonicalPath, parts);
    }
  }

  lemma BelowDevHasLast(path: string, parts: seq<string>)
    requires IsBelowDev(path, parts)
    ensures parts != []
  {
  }

  /** The six fields the code binds. */
  predicate SameBoundFields(t: TargetIdentity, i: ImageIdentity, t': TargetIdentity, i': ImageIdentity) {
    && t.canonicalPath == t'.canonicalPath
    && t.serial == t'.serial
    && t.wwn == t'.wwn
    && t.sizeBytes == t'.sizeBytes
    && i.uncompressedBytes == i'.uncompressedBytes
    && i.sha256 == i'.sha256
  }

  lemma NoNewlines(t: TargetIdentity, i: ImageIdentity)
    requires Accepted(t, i)
    ensures '\n' !in t.serial && '\n' !in t.wwn && '\n' !in i.sha256
    ensures '\n' !in Dec(t.sizeBytes) && '\n' !in Dec(i.uncompressedBytes)
  {
    DecRoundTrip(t.sizeBytes);
    DecRoundTrip(i.uncompressedBytes);
    hide Dec, DecValue, Clean, Base, ValidLabel;
    assert forall c :: IsDigit(c) ==> c != '\n';
  }

  /** Eight lines: the version, the six fields in order, and nothing after the last newline. */
  lemma RecordInLines(t: TargetIdentity, i: ImageIdentity)
    requires Accepted(t, i) && '\n' !in t.canonicalPath
    ensures Split(Record(t, i), '\n') ==
      ["v1", t.canonicalPath, t.serial, t.wwn, Dec(t.sizeBytes), Dec(i.uncompressedBytes), i.sha256, ""]
  {
    NoNewlines(t, i);
    hide Dec, Accepted, Split;
    LinesOfRecord(t.canonicalPath, t.serial, t.wwn, Dec(t.sizeBytes), Dec(i.uncompressedBytes), i.sha256);
  }

  lemma LinesOfRecord(a: string, b: string, c: string, d: string, e: string, f: string)
    requires '\n' !in a && '\n' !in b && '\n' !in c && '\n' !in d && '\n' !in e && '\n' !in f
    ensures Split("v1\n" + a + "\n" + b + "\n" + c + "\n" + d + "\n" + e + "\n" + f + "\n", '\n') ==
      ["v1", a, b, c, d, e, f, ""]
  {
    hide Split;
    var ra := "v1\n" + a;
    var rb := ra + "\n" + b;
    var rc := rb + "\n" + c;
    var rd := rc + "\n" + d;
    var re := rd + "\n" + e;
    var rf := re + "\n" + f;
    SplitOfPlain("v1", '\n');
    assert ra == "v1" + ['\n'] + a && rf + "\n" == rf + ['\n'] + "";
    SplitOfLast("v1", a, '\n');
    SplitOfLast(ra, b, '\n');
    SplitOfLast(rb, c, '\n');
    SplitOfLast(rc, d, '\n');
    SplitOfLast(rd, e, '\n');
    SplitOfLast(re, f, '\n');
    SplitOfLast(rf, "", '\n');
  }

  lemma SplitOfLast(a: string, b: string, sep: char)
    requires sep !in b
    ensures Split(a + [sep] + b, sep) == Split(a, sep) + [b]
  {
    SplitOfConcat(a, b, sep);
    SplitOfPlain(b, sep);
  }

  /** Equal records mean equal fields, even when path components contain newlines. */
  lemma RecordIsInjective(t: TargetIdentity, i: ImageIdentity, t': TargetIdentity, i': ImageIdentity)
    requires Accepted(t, i) && Accepted(t', i')
    ensures Record(t, i) == Record(t', i') <==> SameBoundFields(t, i, t', i')
  {
    if Record(t, i) == Record(t', i') {
      NoNewlines(t, i);
      NoNewlines(t', i');
      DecIsInjective(t.sizeBytes, t'.sizeBytes);
      DecIsInjective(i.uncompressedBytes, i'.uncompressedBytes);
      hide Dec, Clean, Base, ValidLabel, ValidDigest;
      DecodeFromTheRight(
        t.canonicalPath, t.serial, t.wwn, Dec(t.sizeBytes), Dec(i.uncompressedBytes), i.sha256,
        t'.canonicalPath, t'.serial, t'.wwn, Dec(t'.sizeBytes), Dec(i'.uncompressedBytes), i'.sha256);
    }
  }

  /** Only the first field may contain newlines, so the lines are told apart from the last one back. */
  lemma DecodeFromTheRight(
    a: string, b: string, c: string, d: string, e: string, f: string,
    a': string, b': string, c': string, d': string, e': string, f': string)
    requires '\n' !in b && '\n' !in c && '\n' !in d && '\n' !in e && '\n' !in f
    requires '\n' !in b' && '\n' !in c' && '\n' !in d' && '\n' !in e' && '\n' !in f'
    requires "v1\n" + a + "\n" + b + "\n" + c + "\n" + d + "\n" + e + "\n" + f + "\n"
          == "v1\n" + a' + "\n" + b' + "\n" + c' + "\n" + d' + "\n" + e' + "\n" + f' + "\n"
    ensures a == a' && b == b' && c == c' && d == d' && e == e' && f == f'
  {
    var ra, ra' := "v1\n" + a, "v1\n" + a';
    var rb, rb' := ra + "\n" + b, ra' + "\n" + b';
    var rc, rc' := rb + "\n" + c, rb' + "\n" + c';
    var rd, rd' := rc + "\n" + d, rc' + "\n" + d';
    var re, re' := rd + "\n" + e, rd' + "\n" + e';
    var rf, rf' := re + "\n" + f, re' + "\n" + f';
    CutAtLastSeparator(rf, "", rf', "", '\n');
    CutAtLastSeparator(re, f, re', f', '\n');
    CutAtLastSeparator(rd, e, rd', e', '\n');
    CutAtLastSeparator(rc, d, rc', d', '\n');
    CutAtLastSeparator(rb, c, rb', c', '\n');
    CutAtLastSeparator(ra, b, ra', b', '\n');
    assert a == ra[3..] && a' == ra'[3..];
  }

  /** Despite hyphens in labels, equal tokens have equal parts: two of the three have fixed length. */
  lemma TokenParts(device: string, digest: string, binding: seq<Byte>, device': string, digest': string, binding': seq<Byte>)
    requires |digest| >= 12 && |digest'| >= 12 && |binding| == 8 && |binding'| == 8
    ensures Token(device, digest, binding) == Token(device', digest', binding') <==>
            device == device' && digest[..12] == digest'[..12] && binding == binding'
  {
    TokenDecodes(device, digest, binding);
    TokenDecodes(device', digest', binding');
    hide DecodeToken, Hex;
    if Token(device, digest, binding) == Token(device', digest', binding') {
      HexIsInjective(binding, binding');
    }
  }

  /** Members of the unreserved set of section 2.3 of RFC 3986 that a token uses, all lower case. */
  predicate IsTokenChar(c: char) {
    IsLowerAlphanumeric(c) || c == '-'
  }

  lemma TokenShape(t: TargetIdentity, i: ImageIdentity, sha256: string -> Sum)
    requires Accepted(t, i)
    ensures
      var token := ConfirmationToken(t, i, sha256).value;
      |token| <= 104 && All(token, IsTokenChar) && HasPrefix(token, "confirm-v1-")
  {
    ValidDigestIsLowerHex(i.sha256);
    var device, binding := Base(t.canonicalPath), Hex(sha256(Record(t, i))[..8]);
    assert All(device, IsTokenChar) && All(binding, IsTokenChar) && All(i.sha256[..12], IsTokenChar);
    TokenChars(device, i.sha256[..12], binding);
  }

  lemma TokenChars(device: string, fragment: string, binding: string)
    requires All(device, IsTokenChar) && All(fragment, IsTokenChar) && All(binding, IsTokenChar)
    ensures All("confirm-v1-" + device + "-" + fragment + "-" + binding, IsTokenChar)
  {
  }

  /** Nothing else enters the token: not the kernel name, partition flag, relations, source path or compressed size. */
  lemma OtherFieldsAreNotBound(
    t: TargetIdentity, i: ImageIdentity, sha256: string -> Sum,
    kName: string, isPartition: bool, descendants: seq<string>, path: string, compressedBytes: int)
    ensures ConfirmationToken(t, i, sha256) ==
      ConfirmationToken(t.(kName := kName, isPartition := isPartition, descendants := descendants),
                        i.(path := path, compressedBytes := compressedBytes), sha256)
  {
  }

  /** The truncated sums of the two records differ unless the records are the same. */
  ghost predicate NoCollision(
    t: TargetIdentity, i: ImageIdentity, t': TargetIdentity, i': ImageIdentity, sha256: string -> Sum)
  {
    Accepted(t, i) && Accepted(t', i') && sha256(Record(t, i))[..8] == sha256(Record(t', i'))[..8] ==>
      Record(t, i) == Record(t', i')
  }

  /** Consent: with no collision between the two truncated sums, one token fixes all six fields. */
  lemma ConfirmedTokenFixesIdentity(
    t: TargetIdentity, i: ImageIdentity, t': TargetIdentity, i': ImageIdentity, sha256: string -> Sum)
    requires Accepted(t, i) && Accepted(t', i')
    requires NoCollision(t, i, t', i', sha256)
    ensures ConfirmationToken(t, i, sha256) == ConfirmationToken(t', i', sha256) <==> SameBoundFields(t, i, t', i')
  {
    var binding, binding' := sha256(Record(t, i))[..8], sha256(Record(t', i'))[..8];
    RecordIsInjective(t, i, t', i');
    TokenParts(Base(t.canonicalPath), i.sha256, binding, Base(t'.canonicalPath), i'.sha256, binding');
    hide Record, Token, AcceptedTarget, ValidDigest, Clean, Base;
  }
}
