/** Failure-carrying values shared by every module. */
module Basics {

  datatype Option<+T> = None | Some(value: T)

  datatype Result<+T, +E> = Ok(value: T) | Err(error: E)

  function Min(a: int, b: int): int {
    if a <= b then a else b
  }

  /** The first element that satisfies `ok`, as a loop with an early return finds it. */
  function First(s: seq<string>, ok: string -> bool): (r: Option<string>)
    ensures r.Some? ==> r.value in s && ok(r.value)
    ensures r.None? <==> forall x :: x in s ==> !ok(x)
    ensures r.Some? ==> exists i :: 0 <= i < |s| && s[i] == r.value && forall j :: 0 <= j < i ==> !ok(s[j])
  {
    if s == [] then None
    else if ok(s[0]) then Some(s[0])
    else
      assert forall x :: x in s <==> x == s[0] || x in s[1..];
      var r := First(s[1..], ok);
      assert r.Some? ==> exists i :: 1 <= i < |s| && s[i] == r.value && forall j :: 0 <= j < i ==> !ok(s[j]) by {
        if r.Some? {
          var i :| 0 <= i < |s[1..]| && s[1..][i] == r.value && forall j :: 0 <= j < i ==> !ok(s[1..][j]);
          assert s[i + 1] == r.value && forall j :: 0 <= j < i + 1 ==> j == 0 || s[j] == s[1..][j - 1];
        }
      }
      r
  }

  function Filter(s: seq<string>, ok: string -> bool): (r: seq<string>)
    ensures forall x :: x in r <==> x in s && ok(x)
  {
    if s == [] then []
    else
      assert forall x :: x in s <==> x == s[0] || x in s[1..];
      (if ok(s[0]) then [s[0]] else []) + Filter(s[1..], ok)
  }

  predicate All(s: string, ok: char -> bool) {
    forall i :: 0 <= i < |s| ==> ok(s[i])
  }
}
