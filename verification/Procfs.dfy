/**
 The text of /proc/self/mountinfo and /proc/swaps: octal escapes, white-space fields,
 record parsing, and the printed form each parser inverts.
 */
module Procfs {
  import opened Basics
  import opened Text

  // ----- octal escapes

  function EscapeChar(c: char): string {
    if c == ' ' then "\\040"
    else if c == '\t' then "\\011"
    else if c == '\n' then "\\012"
    else if c == '\\' then "\\134"
    else [c]
  }

  /** What the kernel prints for a path: space, tab, newline and backslash in octal. */
  function Escape(s: string): string {
    if s == "" then "" else EscapeChar(s[0]) + Escape(s[1..])
  }

  function Unescaped(code: string): Option<char> {
    if code == "\\040" then Some(' ')
    else if code == "\\011" then Some('\t')
    else if code == "\\012" then Some('\n')
    else if code == "\\134" then Some('\\')
    else None
  }

  /** One left-to-right pass that replaces the four escapes and copies everything else. */
  function UnescapeMount(s: string): string {
    if s == "" then ""
    else if |s| >= 4 && Unescaped(s[..4]).Some? then
      [Unescaped(s[..4]).value] + UnescapeMount(s[4..])
    else [s[0]] + UnescapeMount(s[1..])
  }

  lemma UnescapeOfChar(c: char, rest: string)
    ensures UnescapeMount(EscapeChar(c) + rest) == [c] + UnescapeMount(rest)
  {
    var code := EscapeChar(c);
    var e := code + rest;
    if |code| == 4 {
      assert e[..4] == code && e[4..] == rest;
      assert Unescaped(code) == Some(c);
    } else {
      assert e[0] == c && e[1..] == rest;
      assert |e| >= 4 ==> e[..4][0] != '\\';
    }
  }

  /** Unescaping undoes the kernel's escaping, for every string. */
  lemma {:induction false} UnescapeUndoesEscape(s: string)
    ensures UnescapeMount(Escape(s)) == s
  {
    if s != "" {
      UnescapeOfChar(s[0], Escape(s[1..]));
      UnescapeUndoesEscape(s[1..]);
      hide UnescapeMount, EscapeChar;
      assert s == [s[0]] + s[1..];
    }
  }

  /** The four octal codes stand for space, tab, newline and backslash. */
  lemma UnescapeOfCodes(s: string)
    ensures UnescapeMount("\\040" + s) == " " + UnescapeMount(s) && UnescapeMount("\\011" + s) == "\t" + UnescapeMount(s)
    ensures UnescapeMount("\\012" + s) == "\n" + UnescapeMount(s) && UnescapeMount("\\134" + s) == "\\" + UnescapeMount(s)
  {
    hide UnescapeMount;
    UnescapeOfChar(' ', s);
    UnescapeOfChar('\t', s);
    UnescapeOfChar('\n', s);
    UnescapeOfChar('\\', s);
  }

  /** Any other character is copied, a backslash that starts none of the codes included. */
  lemma UnescapeCopies(s: string)
    requires s != ""
    requires |s| >= 4 ==> s[..4] != "\\040" && s[..4] != "\\011" && s[..4] != "\\012" && s[..4] != "\\134"
    ensures UnescapeMount(s) == [s[0]] + UnescapeMount(s[1..])
  {
  }

  // ----- fields

  /** `unicode.IsSpace`. */
  predicate IsSpace(c: char) {
    var n := c as int;
    9 <= n <= 13 || n == 0x20 || n == 0x85 || n == 0xA0 || n == 0x1680 || 0x2000 <= n <= 0x200A
    || n == 0x2028 || n == 0x2029 || n == 0x202F || n == 0x205F || n == 0x3000
  }

  function WordLength(s: string): (n: nat)
    ensures n <= |s|
    ensures forall i :: 0 <= i < n ==> !IsSpace(s[i])
    ensures n < |s| ==> IsSpace(s[n])
  {
    if s == "" || IsSpace(s[0]) then 0 else 1 + WordLength(s[1..])
  }

  /** `strings.Fields`. */
  function Fields(s: string): (r: seq<string>)
    ensures AllWords(r)
    decreases |s|
  {
    if s == "" then []
    else if IsSpace(s[0]) then Fields(s[1..])
    else [s[..WordLength(s)]] + Fields(s[WordLength(s)..])
  }

  predicate IsWord(s: string) {
    s != "" && forall i :: 0 <= i < |s| ==> !IsSpace(s[i])
  }

  predicate AllWords(parts: seq<string>) {
    forall i :: 0 <= i < |parts| ==> IsWord(parts[i])
  }

  lemma {:induction false} FieldsUndoJoin(parts: seq<string>)
    requires AllWords(parts)
    ensures Fields(Join(parts, ' ')) == parts
  {
    if parts != [] {
      var s := Join(parts, ' ');
      var n := |parts[0]|;
      assert s[..n] == parts[0];
      assert forall i :: 0 <= i < n ==> s[i] == parts[0][i];
      assert |parts| > 1 ==> s[n] == ' ';
      assert WordLength(s) == n;
      FieldsUndoJoin(parts[1..]);
      if |parts| == 1 {
        assert s[n..] == "";
      } else {
        assert s[n..] == [' '] + Join(parts[1..], ' ');
        assert s[n..][1..] == Join(parts[1..], ' ');
      }
      assert parts == [parts[0]] + parts[1..];
    }
  }

  /** Any white space separates: the fields of two texts, one after the other. */
  lemma {:induction false} FieldsOfConcat(a: string, c: char, b: string)
    requires IsSpace(c) || c in " \t\n\r"
    ensures Fields(a + [c] + b) == Fields(a) + Fields(b)
    decreases |a|
  {
    hide Fields, IsSpace, WordLength;
    var s := a + [c] + b;
    SpacesAreSpaces(c);
    if a == "" {
      FieldsAfterSpace(s);
      FieldsOfNothing();
      assert s[1..] == b;
    } else if IsSpace(a[0]) {
      FieldsAfterSpace(s);
      FieldsAfterSpace(a);
      assert s[1..] == a[1..] + [c] + b;
      FieldsOfConcat(a[1..], c, b);
    } else {
      var n := WordLength(a);
      assert s[n] == if n < |a| then a[n] else c;
      assert forall i :: 0 <= i < n ==> s[i] == a[i];
      WordEndsAt(s, n);
      FieldsFromWord(s);
      FieldsFromWord(a);
      assert s[..n] == a[..n];
      assert s[n..] == a[n..] + [c] + b;
      FieldsOfConcat(a[n..], c, b);
    }
  }

  lemma SpacesAreSpaces(c: char)
    requires IsSpace(c) || c in " \t\n\r"
    ensures IsSpace(c)
  {
  }

  lemma FieldsOfNothing()
    ensures Fields("") == []
  {
  }

  lemma FieldsAfterSpace(s: string)
    requires s != "" && IsSpace(s[0])
    ensures Fields(s) == Fields(s[1..])
  {
  }

  lemma FieldsFromWord(s: string)
    requires s != "" && !IsSpace(s[0])
    ensures WordLength(s) > 0 && Fields(s) == [s[..WordLength(s)]] + Fields(s[WordLength(s)..])
  {
  }

  lemma {:induction false} WordEndsAt(s: string, n: nat)
    requires n < |s| && IsSpace(s[n]) && forall i :: 0 <= i < n ==> !IsSpace(s[i])
    ensures WordLength(s) == n
  {
  }

  // ----- mount records

  datatype MountRecord = MountRecord(device: string, mountpoint: string, filesystem: string, readOnly: bool)

  /** `slices.Index`, with -1 for an absent word. */
  function IndexOf(fields: seq<string>, word: string): (r: int)
    ensures -1 <= r < |fields|
    ensures r >= 0 ==> fields[r] == word && word !in fields[..r]
    ensures r < 0 ==> word !in fields
  {
    if fields == [] then -1
    else if fields[0] == word then 0
    else
      var r := IndexOf(fields[1..], word);
      assert fields == [fields[0]] + fields[1..];
      if r < 0 then -1
      else
        assert fields[..r + 1] == [fields[0]] + fields[1..][..r];
        r + 1
  }

  predicate ContainsOption(options: string, expected: string) {
    expected in Split(options, ',')
  }

  /** Membership in the comma-separated list, whole words only. */
  lemma OptionsAreWords(words: seq<string>, word: string)
    requires words != [] && forall i :: 0 <= i < |words| ==> ',' !in words[i]
    ensures ContainsOption(Join(words, ','), word) <==> word in words
  {
    SplitUndoesJoin(words, ',');
  }

  function ParseMountRecord(line: string): Option<MountRecord> {
    var fields := Fields(line);
    var separator := IndexOf(fields, "-");
    if |fields| < 6 || separator < 0 || separator + 3 >= |fields| then None
    else Some(MountRecord(
      fields[2],
      UnescapeMount(fields[4]),
      fields[separator + 1],
      ContainsOption(fields[5], "ro") || ContainsOption(fields[separator + 3], "ro")))
  }

  /** Every line, as its fields: which ones are refused, and where each value comes from. */
  lemma ParseOfFields(fields: seq<string>, dash: nat)
    requires AllWords(fields) && dash < |fields| && fields[dash] == "-" && "-" !in fields[..dash]
    ensures ParseMountRecord(Join(fields, ' ')).Some? <==> |fields| >= 6 && |fields| - dash >= 4
    ensures ParseMountRecord(Join(fields, ' ')).Some? ==>
      ParseMountRecord(Join(fields, ' ')).value == MountRecord(
        fields[2], UnescapeMount(fields[4]), fields[dash + 1],
        ContainsOption(fields[5], "ro") || ContainsOption(fields[dash + 3], "ro"))
  {
    hide Fields, Join, UnescapeMount, ContainsOption, IsWord;
    FieldsUndoJoin(fields);
    FirstIndex(fields, "-", dash);
  }

  lemma ParseWithoutDash(fields: seq<string>)
    requires AllWords(fields) && "-" !in fields
    ensures ParseMountRecord(Join(fields, ' ')).None?
  {
    hide Fields, Join, UnescapeMount, ContainsOption, IsWord;
    FieldsUndoJoin(fields);
  }

  lemma FirstIndex(fields: seq<string>, word: string, i: nat)
    requires i < |fields| && fields[i] == word && word !in fields[..i]
    ensures IndexOf(fields, word) == i
  {
  }

  /** Everything a mountinfo line holds, in the order proc(5) lists it. */
  datatype MountLine = MountLine(
    id: string, parent: string, device: string, root: string, mountpoint: string, options: seq<string>,
    optional: seq<string>,
    filesystem: string, source: string, superOptions: seq<string>)
  {
    function Head(): seq<string> {
      [id, parent, device, root, Escape(mountpoint), Join(options, ',')]
    }

    function Words(): seq<string> {
      Head() + optional + ["-", filesystem, source, Join(superOptions, ',')]
    }

    function PlainHead(): seq<string> {
      [id, parent, device, root, Join(options, ',')] + optional
    }

    function Print(): string {
      Join(Words(), ' ')
    }

    predicate PlainOptions() {
      && options != [] && superOptions != []
      && (forall i :: 0 <= i < |options| ==> ',' !in options[i])
      && (forall i :: 0 <= i < |superOptions| ==> ',' !in superOptions[i])
    }

    /** White space in the mountpoint is only what the kernel escapes; no field before the dash is a dash. */
    predicate Printable() {
      && AllWords(PlainHead() + [filesystem, source, Join(superOptions, ',')]) && PlainOptions()
      && mountpoint != "" && mountpoint != "-"
      && (forall i :: 0 <= i < |mountpoint| ==> IsSpace(mountpoint[i]) ==> mountpoint[i] in " \t\n")
      && "-" !in PlainHead()
    }
  }

  lemma {:induction false} EscapedIsWord(s: string)
    requires s != ""
    requires forall i :: 0 <= i < |s| ==> IsSpace(s[i]) ==> s[i] in " \t\n"
    ensures IsWord(Escape(s)) && (s != "-" ==> Escape(s) != "-")
  {
    UnescapeUndoesEscape(s);
    assert UnescapeMount("-") == "-" + UnescapeMount("") == "-";
    EscapedHasNoSpace(s);
  }

  lemma {:induction false} EscapedHasNoSpace(s: string)
    requires forall i :: 0 <= i < |s| ==> IsSpace(s[i]) ==> s[i] in " \t\n"
    ensures forall i :: 0 <= i < |Escape(s)| ==> !IsSpace(Escape(s)[i])
    ensures |Escape(s)| >= |s|
  {
    if s != "" {
      EscapedHasNoSpace(s[1..]);
      assert IsSpace(s[0]) ==> s[0] in " \t\n";
      var code := EscapeChar(s[0]);
      assert forall i :: 0 <= i < |code| ==> !IsSpace(code[i]);
    }
  }

  /** Parsing a printed line returns its record, whatever the optional fields; "ro" counts as a whole option only. */
  lemma ParseUndoesPrint(l: MountLine)
    requires l.Printable()
    ensures ParseMountRecord(l.Print()) == Some(MountRecord(
        l.device, l.mountpoint, l.filesystem, "ro" in l.options || "ro" in l.superOptions))
  {
    OptionsAreWords(l.options, "ro");
    OptionsAreWords(l.superOptions, "ro");
    EscapedIsWord(l.mountpoint);
    UnescapeUndoesEscape(l.mountpoint);
    PrintedWords(l);
    hide Fields, Join, Escape, UnescapeMount, IndexOf, ContainsOption, IsWord;
    var words, n := l.Words(), |l.optional|;
    FieldsUndoJoin(words);
    DashFollowsOptionalFields(l);
    assert words[2] == l.device && words[4] == Escape(l.mountpoint) && words[5] == Join(l.options, ',');
    assert words[7 + n] == l.filesystem && words[9 + n] == Join(l.superOptions, ',');
  }

  lemma PrintedWords(l: MountLine)
    requires l.Printable() && IsWord(Escape(l.mountpoint))
    ensures AllWords(l.Words())
  {
    assert IsWord("-");
    hide IsWord, Escape, Join;
    var words, n := l.Words(), |l.optional|;
    var plain := l.PlainHead() + [l.filesystem, l.source, Join(l.superOptions, ',')];
    forall i | 0 <= i < |words| ensures IsWord(words[i]) {
      var j := if i < 4 then i else if i < 6 + n then i - 1 else i - 2;
      assert i == 4 || i == 6 + n || words[i] == plain[j];
    }
  }

  lemma DashFollowsOptionalFields(l: MountLine)
    requires l.Printable() && Escape(l.mountpoint) != "-"
    ensures IndexOf(l.Words(), "-") == 6 + |l.optional|
  {
    var words := l.Words();
    hide Escape, Join;
    var before := l.PlainHead();
    assert before[0] == l.id && before[1] == l.parent && before[2] == l.device
           && before[3] == l.root && before[4] == Join(l.options, ',');
    forall i | 0 <= i < 6 + |l.optional| ensures words[i] != "-" {
      if i >= 6 {
        assert words[i] == l.optional[i - 6] == before[i - 1];
      }
    }
    assert words[6 + |l.optional|] == "-";
  }

  /** Reads every line or refuses the whole file. */
  method ParseMounts(lines: seq<string>) returns (r: Option<seq<MountRecord>>)
    ensures r.None? <==> exists i :: 0 <= i < |lines| && ParseMountRecord(lines[i]).None?
    ensures r.Some? ==> |r.value| == |lines|
    ensures r.Some? ==> forall i :: 0 <= i < |lines| ==> ParseMountRecord(lines[i]) == Some(r.value[i])
  {
    var records: seq<MountRecord> := [];
    for n := 0 to |lines|
      invariant |records| == n
      invariant forall i :: 0 <= i < n ==> ParseMountRecord(lines[i]) == Some(records[i])
    {
      var record := ParseMountRecord(lines[n]);
      if record.None? {
        return None;
      }
      records := records + [record.value];
    }
    r := Some(records);
  }

  // ----- swap records

  datatype SwapRecord = SwapRecord(source: string, kind: string)

  function ParseSwapRecord(line: string): Option<SwapRecord> {
    var fields := Fields(line);
    if |fields| < 2 then None else Some(SwapRecord(UnescapeMount(fields[0]), fields[1]))
  }

  /** Parsing a printed swap line returns its source and kind. */
  lemma SwapParseUndoesPrint(source: string, kind: string, rest: seq<string>)
    requires source != "" && IsWord(kind) && AllWords(rest)
    requires forall i :: 0 <= i < |source| ==> IsSpace(source[i]) ==> source[i] in " \t\n"
    ensures ParseSwapRecord(Join([Escape(source), kind] + rest, ' ')) == Some(SwapRecord(source, kind))
  {
    EscapedIsWord(source);
    UnescapeUndoesEscape(source);
    hide Escape, UnescapeMount, Fields, Join;
    FieldsUndoJoin([Escape(source), kind] + rest);
  }

  /** Skips the heading line, then reads every line or refuses the whole file. */
  method ParseSwaps(lines: seq<string>) returns (r: Option<seq<SwapRecord>>)
    ensures r.None? <==> exists i :: 1 <= i < |lines| && ParseSwapRecord(lines[i]).None?
    ensures r.Some? ==> |r.value| == if lines == [] then 0 else |lines| - 1
    ensures r.Some? ==> forall i :: 1 <= i < |lines| ==> ParseSwapRecord(lines[i]) == Some(r.value[i - 1])
  {
    var records: seq<SwapRecord> := [];
    var first := true;
    for n := 0 to |lines|
      invariant first <==> n == 0
      invariant |records| == if n == 0 then 0 else n - 1
      invariant forall i :: 1 <= i < n ==> ParseSwapRecord(lines[i]) == Some(records[i - 1])
    {
      if first {
        first := false;
      } else {
        var record := ParseSwapRecord(lines[n]);
        if record.None? {
          return None;
        }
        records := records + [record.value];
      }
    }
    r := Some(records);
  }
}
