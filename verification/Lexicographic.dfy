/**
 The order in which the program sorts device names: code point by code point, a proper
 prefix first. A sorted, duplicate-free sequence is a canonical form of its set of names.
 */
module Lexicographic {
  import opened Basics

  predicate Less(a: string, b: string) {
    b != [] && (a == [] || a[0] < b[0] || (a[0] == b[0] && Less(a[1..], b[1..])))
  }

  /** Where they first differ the lesser character decides, and a proper prefix comes first. */
  lemma {:induction false} LessAtFirstDifference(a: string, b: string, k: nat)
    requires k <= |a| && k <= |b| && a[..k] == b[..k]
    ensures k < |a| && k < |b| && a[k] as int < b[k] as int ==> Less(a, b) && !Less(b, a)
    ensures k == |a| < |b| ==> Less(a, b) && !Less(b, a)
  {
    if k > 0 {
      assert a[0] == a[..k][0] == b[..k][0] == b[0];
      assert a[1..][..k - 1] == a[..k][1..] == b[1..][..k - 1];
      LessAtFirstDifference(a[1..], b[1..], k - 1);
    }
  }

  lemma {:induction false} LessIsTotal(a: string, b: string)
    ensures Less(a, b) || Less(b, a) || a == b
    ensures !(Less(a, b) && Less(b, a))
    ensures !Less(a, a)
  {
    if a != [] && b != [] {
      LessIsTotal(a[1..], b[1..]);
      assert a[0] == b[0] && a[1..] == b[1..] ==> [a[0]] + a[1..] == [b[0]] + b[1..];
      assert a == [a[0]] + a[1..] && b == [b[0]] + b[1..];
    }
    if a != [] {
      LessIsTotal(a[1..], a[1..]);
    }
  }

  lemma {:induction false} LessIsTransitive(a: string, b: string, c: string)
    requires Less(a, b) && Less(b, c)
    ensures Less(a, c)
  {
    if a != [] && a[0] == b[0] == c[0] {
      LessIsTransitive(a[1..], b[1..], c[1..]);
    }
  }

  ghost predicate StrictlySorted(s: seq<string>) {
    forall i, j :: 0 <= i < j < |s| ==> Less(s[i], s[j])
  }

  ghost function Elements(s: seq<string>): (r: set<string>)
    ensures forall x :: x in r <==> x in s
  {
    set x | x in s
  }

  function Insert(x: string, s: seq<string>): (r: seq<string>)
    ensures forall y :: y in r <==> y == x || y in s
    ensures StrictlySorted(s) && x !in s ==> StrictlySorted(r)
  {
    if s == [] then [x]
    else if Less(x, s[0]) then
      InsertFirst(x, s);
      [x] + s
    else
      InsertLater(x, s);
      var rest := Insert(x, s[1..]);
      assert forall i :: 0 <= i < |rest| ==> rest[i] in rest;
      [s[0]] + rest
  }

  lemma InsertFirst(x: string, s: seq<string>)
    requires s != [] && Less(x, s[0])
    ensures StrictlySorted(s) ==> StrictlySorted([x] + s)
  {
    if StrictlySorted(s) {
      forall i | 0 < i < |s| ensures Less(x, s[i]) {
        LessIsTransitive(x, s[0], s[i]);
      }
    }
  }

  lemma InsertLater(x: string, s: seq<string>)
    requires s != [] && !Less(x, s[0])
    ensures forall y :: y in s <==> y == s[0] || y in s[1..]
    ensures StrictlySorted(s) && x !in s ==> forall y :: y == x || y in s[1..] ==> Less(s[0], y)
  {
    LessIsTotal(x, s[0]);
  }

  ghost predicate Sorted(s: seq<string>) {
    forall i, j :: 0 <= i < j < |s| ==> !Less(s[j], s[i])
  }

  /** `slices.Sort` on directory entries. */
  function Sort(s: seq<string>): (r: seq<string>)
    ensures forall y :: y in r <==> y in s
    ensures Sorted(r)
  {
    if s == [] then []
    else
      assert forall y :: y in s <==> y == s[0] || y in s[1..];
      InsertKeepsSorted(s[0], Sort(s[1..]));
      Insert(s[0], Sort(s[1..]))
  }

  lemma {:induction false} InsertKeepsSorted(x: string, s: seq<string>)
    requires Sorted(s)
    ensures Sorted(Insert(x, s))
  {
    if s != [] {
      LessIsTotal(x, s[0]);
      if Less(x, s[0]) {
        forall i | 0 <= i < |s| ensures !Less(s[i], x) {
          LessIsTotal(s[0], s[i]);
          LessIsTotal(x, s[i]);
          if Less(s[0], s[i]) {
            LessIsTransitive(x, s[0], s[i]);
          }
        }
      } else {
        InsertKeepsSorted(x, s[1..]);
        var rest := Insert(x, s[1..]);
        forall i | 0 <= i < |rest| ensures !Less(rest[i], s[0]) {
          assert rest[i] in rest;
          assert rest[i] == x || exists j :: 1 <= j < |s| && s[j] == rest[i];
        }
      }
    }
  }

  /** The first match in sorted order is the least match. */
  lemma FirstOfSortedIsLeast(s: seq<string>, ok: string -> bool, k: nat)
    requires Sorted(s) && k < |s| && ok(s[k])
    ensures First(s, ok).Some? && !Less(s[k], First(s, ok).value)
  {
    hide First, Less;
    assert s[k] in s;
    LessIsTotal(s[k], s[k]);
    var i :| 0 <= i < |s| && s[i] == First(s, ok).value && forall j :: 0 <= j < i ==> !ok(s[j]);
  }

  /** Collects map keys in whatever order iteration yields them, then sorts. */
  method SortedKeys(keys: set<string>) returns (r: seq<string>)
    ensures StrictlySorted(r) && Elements(r) == keys
  {
    r := [];
    var rest := keys;
    while rest != {}
      invariant rest <= keys && StrictlySorted(r) && Elements(r) == keys - rest
    {
      var x :| x in rest;
      r := Insert(x, r);
      rest := rest - {x};
    }
  }

  /** Two strictly sorted sequences are equal exactly when they hold the same names. */
  lemma {:induction false} CanonicalForm(a: seq<string>, b: seq<string>)
    requires StrictlySorted(a) && StrictlySorted(b)
    ensures a == b <==> Elements(a) == Elements(b)
  {
    assert |b| > 0 ==> b[0] in Elements(b);
    if Elements(a) == Elements(b) {
      if a == [] {
      } else {
        assert a[0] in Elements(b);
        var j :| 0 <= j < |b| && b[j] == a[0];
        assert b[0] in Elements(a);
        var i :| 0 <= i < |a| && a[i] == b[0];
        LessIsTotal(a[0], b[0]);
        assert a[0] == b[0];
        TailElements(a);
        TailElements(b);
        CanonicalForm(a[1..], b[1..]);
        assert a == [a[0]] + a[1..] && b == [b[0]] + b[1..];
      }
    }
  }

  lemma TailElements(a: seq<string>)
    requires a != [] && StrictlySorted(a)
    ensures StrictlySorted(a[1..]) && Elements(a[1..]) == Elements(a) - {a[0]}
  {
    forall x | x in a[1..] ensures x != a[0] {
      LessIsTotal(x, a[0]);
    }
    assert forall x :: x in a ==> x == a[0] || x in a[1..];
  }
}
