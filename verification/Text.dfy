/** Splitting, joining, decimal and hexadecimal text, with the round trips each promises. */
module Text {
  import opened Basics

  type Byte = x: int | 0 <= x < 256

  // ----- separators

  function Prepend(c: char, parts: seq<string>): (r: seq<string>)
    requires parts != []
    ensures |r| == |parts|
  {
    [[c] + parts[0]] + parts[1..]
  }

  /** `strings.Split` with a one-character separator. */
  function Split(s: string, sep: char): (r: seq<string>)
    ensures |r| >= 1
    ensures forall i :: 0 <= i < |r| ==> sep !in r[i]
  {
    if s == "" then [""]
    else if s[0] == sep then [""] + Split(s[1..], sep)
    else Prepend(s[0], Split(s[1..], sep))
  }

  function Join(parts: seq<string>, sep: char): string {
    if parts == [] then ""
    else if |parts| == 1 then parts[0]
    else parts[0] + [sep] + Join(parts[1..], sep)
  }

  lemma {:induction false} JoinUndoesSplit(s: string, sep: char)
    ensures Join(Split(s, sep), sep) == s
  {
    if s != "" {
      JoinUndoesSplit(s[1..], sep);
      assert s == [s[0]] + s[1..];
    }
  }

  lemma {:induction false} SplitOfPlain(s: string, sep: char)
    requires sep !in s
    ensures Split(s, sep) == [s]
  {
    if s != "" {
      SplitOfPlain(s[1..], sep);
      assert s == [s[0]] + s[1..];
    }
  }

  lemma SplitOfCons(c: char, s: string, sep: char)
    ensures Split([c] + s, sep) == if c == sep then [""] + Split(s, sep) else Prepend(c, Split(s, sep))
  {
    assert ([c] + s)[1..] == s;
  }

  lemma PrependThenAppend(c: char, parts: seq<string>, more: seq<string>)
    requires parts != []
    ensures Prepend(c, parts + more) == Prepend(c, parts) + more
  {
    assert (parts + more)[1..] == parts[1..] + more;
  }

  lemma {:induction false} SplitOfConcat(a: string, b: string, sep: char)
    ensures Split(a + [sep] + b, sep) == Split(a, sep) + Split(b, sep)
  {
    hide Split, Prepend;
    if a == "" {
      SplitOfCons(sep, b, sep);
      SplitOfEmpty(sep);
      assert a + [sep] + b == [sep] + b;
    } else {
      var c, rest := a[0], a[1..];
      SplitOfConcat(rest, b, sep);
      SplitOfCons(c, rest, sep);
      SplitOfCons(c, rest + [sep] + b, sep);
      PrependThenAppend(c, Split(rest, sep), Split(b, sep));
      assert a == [c] + rest;
      assert a + [sep] + b == [c] + (rest + [sep] + b);
    }
  }

  lemma SplitOfEmpty(sep: char)
    ensures Split("", sep) == [""]
  {
  }

  lemma SplitOfFirst(a: string, rest: string, sep: char)
    requires sep !in a
    ensures Split(a + [sep] + rest, sep) == [a] + Split(rest, sep)
  {
    SplitOfConcat(a, rest, sep);
    SplitOfPlain(a, sep);
  }

  lemma JoinOfFirst(a: string, rest: seq<string>, sep: char)
    requires rest != []
    ensures Join([a] + rest, sep) == a + [sep] + Join(rest, sep)
  {
    assert ([a] + rest)[1..] == rest;
  }

  lemma {:induction false} SplitUndoesJoin(parts: seq<string>, sep: char)
    requires parts != [] && forall i :: 0 <= i < |parts| ==> sep !in parts[i]
    ensures Split(Join(parts, sep), sep) == parts
  {
    SplitOfPlain(parts[0], sep);
    if |parts| > 1 {
      SplitUndoesJoin(parts[1..], sep);
      SplitOfConcat(parts[0], Join(parts[1..], sep), sep);
    }
  }

  lemma {:induction false} JoinOfConcat(a: seq<string>, b: seq<string>, sep: char)
    requires a != [] && b != []
    ensures Join(a + b, sep) == Join(a, sep) + [sep] + Join(b, sep)
  {
    if |a| == 1 {
      assert (a + b)[1..] == b;
    } else {
      assert (a + b)[1..] == a[1..] + b;
      JoinOfConcat(a[1..], b, sep);
    }
  }

  /** Text cut at its last separator is cut in one way only. */
  lemma CutAtLastSeparator(a: string, b: string, a': string, b': string, sep: char)
    requires a + [sep] + b == a' + [sep] + b' && sep !in b && sep !in b'
    ensures a == a' && b == b'
  {
    SplitOfConcat(a, b, sep);
    SplitOfConcat(a', b', sep);
    SplitOfPlain(b, sep);
    SplitOfPlain(b', sep);
    var parts, parts' := Split(a, sep) + [b], Split(a', sep) + [b'];
    assert parts == parts' && parts[|parts| - 1] == b && parts'[|parts'| - 1] == b';
    assert a == (a + [sep] + b)[..|a|] && a' == (a' + [sep] + b')[..|a'|];
  }

  // ----- decimal text

  predicate IsDigit(c: char) {
    '0' <= c <= '9'
  }

  function Digit(d: int): (c: char)
    requires 0 <= d < 10
    ensures IsDigit(c) && c as int - '0' as int == d
  {
    ('0' as int + d) as char
  }

  /** Printing with `%d`. */
  function Dec(n: nat): string {
    if n < 10 then [Digit(n)] else Dec(n / 10) + [Digit(n % 10)]
  }

  function DecValue(s: string): nat
    requires All(s, IsDigit)
  {
    if s == "" then 0
    else 10 * DecValue(s[..|s| - 1]) + (s[|s| - 1] as int - '0' as int)
  }

  /** A numeric identifier: digits, at least one, no leading zero except "0" itself. */
  predicate IsDecimal(s: string) {
    s != "" && (|s| > 1 ==> s[0] != '0') && All(s, IsDigit)
  }

  lemma {:induction false} DecRoundTrip(n: nat)
    ensures IsDecimal(Dec(n)) && DecValue(Dec(n)) == n
    ensures n > 0 ==> Dec(n)[0] != '0'
  {
    if n < 10 {
      assert Dec(n)[..0] == "";
    } else {
      DecRoundTrip(n / 10);
      assert Dec(n)[..|Dec(n)| - 1] == Dec(n / 10);
    }
  }

  lemma {:induction false} DecimalIsPrinted(s: string)
    requires IsDecimal(s)
    ensures s == Dec(DecValue(s))
    ensures s[0] != '0' ==> DecValue(s) > 0
  {
    var init, last := s[..|s| - 1], s[|s| - 1];
    assert s == init + [last] && IsDigit(last);
    if init != "" {
      DecimalIsPrinted(init);
    }
  }

  lemma DecIsInjective(a: nat, b: nat)
    ensures Dec(a) == Dec(b) ==> a == b
  {
    DecRoundTrip(a);
    DecRoundTrip(b);
  }

  const MAX_INT64: int := 0x7FFF_FFFF_FFFF_FFFF

  /** `strconv.ParseInt(s, 10, 64)`: an optional sign, then digits, within 64 signed bits. */
  function ParseInt64(s: string): (r: Option<int>)
    ensures r.Some? ==> -MAX_INT64 - 1 <= r.value <= MAX_INT64
  {
    var signed := s != "" && (s[0] == '-' || s[0] == '+');
    var digits := if signed then s[1..] else s;
    if digits == "" || !All(digits, IsDigit) then None
    else
      var v: int := if signed && s[0] == '-' then -(DecValue(digits) as int) else DecValue(digits) as int;
      if -MAX_INT64 - 1 <= v <= MAX_INT64 then Some(v) else None
  }

  /** Printed numbers are read back with either sign, up to the bounds of 64 bits. */
  lemma ParseInt64UndoesPrint(n: nat)
    ensures ParseInt64(Dec(n)) == ParseInt64("+" + Dec(n)) == if n <= 9223372036854775807 then Some(n) else None
    ensures ParseInt64("-" + Dec(n)) == if n <= 9223372036854775808 then Some(-(n as int)) else None
  {
    DecRoundTrip(n);
    hide Dec, DecValue;
    assert ("+" + Dec(n))[1..] == Dec(n) == ("-" + Dec(n))[1..];
    assert IsDigit(Dec(n)[0]);
  }

  /** Anything but digits behind the optional sign is refused. */
  lemma ParseInt64Refuses(s: string, i: nat)
    requires i < |s| && !('0' <= s[i] <= '9') && (i == 0 ==> s[0] != '-' && s[0] != '+')
    ensures ParseInt64(s).None? && ParseUint32(s).None?
  {
    hide DecValue;
    var digits := if s[0] == '-' || s[0] == '+' then s[1..] else s;
    assert digits[if digits == s then i else i - 1] == s[i];
  }

  /** `strconv.ParseUint(s, 10, 32)`. */
  function ParseUint32(s: string): (r: Option<nat>)
    ensures r.Some? ==> r.value < 0x1_0000_0000
  {
    if s == "" || !All(s, IsDigit) || DecValue(s) >= 0x1_0000_0000 then None
    else Some(DecValue(s))
  }

  lemma ParseUint32UndoesPrint(n: nat)
    ensures ParseUint32(Dec(n)) == if n <= 4294967295 then Some(n) else None
  {
    DecRoundTrip(n);
    hide Dec, DecValue;
  }

  // ----- hexadecimal text

  predicate IsLowerHex(c: char) {
    '0' <= c <= '9' || 'a' <= c <= 'f'
  }

  predicate IsHex(c: char) {
    IsLowerHex(c) || 'A' <= c <= 'F'
  }

  function HexDigit(d: int): (c: char)
    requires 0 <= d < 16
    ensures IsLowerHex(c)
    ensures d == if c <= '9' then c as int - '0' as int else c as int - 'a' as int + 10
  {
    if d < 10 then ('0' as int + d) as char else ('a' as int + d - 10) as char
  }

  /** `hex.EncodeToString`. */
  function Hex(bytes: seq<Byte>): (r: string)
    ensures |r| == 2 * |bytes| && All(r, IsLowerHex)
  {
    if bytes == [] then ""
    else [HexDigit(bytes[0] / 16), HexDigit(bytes[0] % 16)] + Hex(bytes[1..])
  }

  function HexValue(c: char): (v: int)
    requires '0' <= c <= '9' || 'a' <= c <= 'f'
    ensures 0 <= v < 16
  {
    if c <= '9' then c as int - '0' as int else c as int - 'a' as int + 10
  }

  /** The bytes that pairs of hexadecimal digits stand for, the high half first. */
  function Unhex(s: string): (r: seq<Byte>)
    requires |s| % 2 == 0 && forall i :: 0 <= i < |s| ==> '0' <= s[i] <= '9' || 'a' <= s[i] <= 'f'
    ensures |r| == |s| / 2
  {
    seq(|s| / 2, i requires 0 <= i < |s| / 2 => 16 * HexValue(s[2 * i]) + HexValue(s[2 * i + 1]))
  }

  /** Characters `2 * i` and `2 * i + 1` are the high and the low half of byte `i`. */
  lemma {:induction false} HexDigitsOfByte(bytes: seq<Byte>, i: nat)
    requires i < |bytes|
    ensures Hex(bytes)[2 * i] == HexDigit(bytes[i] / 16) && Hex(bytes)[2 * i + 1] == HexDigit(bytes[i] % 16)
  {
    if i > 0 {
      HexDigitsOfByte(bytes[1..], i - 1);
      assert Hex(bytes)[2 * i] == Hex(bytes[1..])[2 * (i - 1)];
      assert Hex(bytes)[2 * i + 1] == Hex(bytes[1..])[2 * (i - 1) + 1];
    }
  }

  lemma UnhexUndoesHex(bytes: seq<Byte>)
    ensures Unhex(Hex(bytes)) == bytes
  {
    hide Hex;
    forall i | 0 <= i < |bytes| ensures Unhex(Hex(bytes))[i] == bytes[i] {
      HexDigitsOfByte(bytes, i);
    }
  }

  lemma HexUndoesUnhex(s: string)
    requires |s| % 2 == 0 && forall i :: 0 <= i < |s| ==> '0' <= s[i] <= '9' || 'a' <= s[i] <= 'f'
    ensures Hex(Unhex(s)) == s
  {
    hide Hex;
    var printed := Hex(Unhex(s));
    forall i | 0 <= i < |s| ensures printed[i] == s[i] {
      PairOfDigits(s, i / 2);
      assert i == 2 * (i / 2) || i == 2 * (i / 2) + 1;
    }
  }

  lemma PairOfDigits(s: string, j: nat)
    requires |s| % 2 == 0 && forall i :: 0 <= i < |s| ==> '0' <= s[i] <= '9' || 'a' <= s[i] <= 'f'
    requires j < |s| / 2
    ensures Hex(Unhex(s))[2 * j] == s[2 * j] && Hex(Unhex(s))[2 * j + 1] == s[2 * j + 1]
  {
    hide Hex;
    HexDigitsOfByte(Unhex(s), j);
    var high, low := HexValue(s[2 * j]), HexValue(s[2 * j + 1]);
    assert Unhex(s)[j] == 16 * high + low;
    assert (16 * high + low) / 16 == high && (16 * high + low) % 16 == low;
  }

  lemma HexIsInjective(a: seq<Byte>, b: seq<Byte>)
    requires Hex(a) == Hex(b)
    ensures a == b
  {
    UnhexUndoesHex(a);
    UnhexUndoesHex(b);
  }

  function LowerChar(c: char): char {
    if 'A' <= c <= 'Z' then (c as int + 32) as char else c
  }

  function Lower(s: string): string {
    seq(|s|, i requires 0 <= i < |s| => LowerChar(s[i]))
  }

  /** The digest test: decodable hexadecimal of 32 bytes, 64 characters, already in lower case. */
  predicate ValidDigest(s: string) {
    |s| % 2 == 0 && All(s, IsHex) && |s| / 2 == 32 && |s| == 64 && s == Lower(s)
  }

  lemma ValidDigestIsLowerHex(s: string)
    ensures ValidDigest(s) <==> |s| == 64 && All(s, IsLowerHex)
    ensures ValidDigest(s) <==> |s| == 64 && forall i :: 0 <= i < |s| ==> '0' <= s[i] <= '9' || 'a' <= s[i] <= 'f'
  {
    if |s| == 64 && All(s, IsLowerHex) {
      assert forall i :: 0 <= i < |s| ==> LowerChar(s[i]) == s[i];
      assert s == Lower(s);
    }
    if ValidDigest(s) {
      forall i | 0 <= i < |s| ensures IsLowerHex(s[i]) {
        assert s[i] == Lower(s)[i] == LowerChar(s[i]);
      }
    }
  }

  /** The valid digests are exactly the printed sums of 32 bytes. */
  lemma ValidDigestsArePrintedSums(s: string)
    ensures ValidDigest(s) <==> exists sum: seq<Byte> :: |sum| == 32 && s == Hex(sum)
  {
    ValidDigestIsLowerHex(s);
    hide ValidDigest, Hex;
    if ValidDigest(s) {
      HexUndoesUnhex(s);
      assert |Unhex(s)| == 32;
    }
  }
}
