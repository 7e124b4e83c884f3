/**
 Slash-separated paths as the `filepath` package treats them, and the fact the mount
 search rests on: for canonical paths, textual containment is component-list prefix.
 */
module Paths {
  import opened Basics
  import opened Text

  predicate IsAbs(path: string) {
    path != "" && path[0] == '/'
  }

  /** One directory entry: not empty, no slash, and neither "." nor "..". */
  predicate IsName(s: string) {
    s != "" && '/' !in s && s != "." && s != ".."
  }

  predicate AllNames(parts: seq<string>) {
    forall i :: 0 <= i < |parts| ==> IsName(parts[i])
  }

  /** What one more component makes of the list so far. */
  function Step(c: string, rooted: bool, done: seq<string>): (r: seq<string>)
    requires '/' !in c && (rooted ==> AllNames(done))
    ensures rooted ==> AllNames(r)
  {
    if c == "" || c == "." then done
    else if c != ".." then done + [c]
    else if done != [] && done[|done| - 1] != ".." then done[..|done| - 1]
    else if rooted then done
    else done + [c]
  }

  /** Drops empty and "." components and lets ".." cancel what precedes it. */
  function Normalize(parts: seq<string>, rooted: bool, done: seq<string>): (r: seq<string>)
    requires forall i :: 0 <= i < |parts| ==> '/' !in parts[i]
    requires rooted ==> AllNames(done)
    ensures rooted ==> AllNames(r)
  {
    if parts == [] then done else Normalize(parts[1..], rooted, Step(parts[0], rooted, done))
  }

  /** `filepath.Clean`. */
  function Clean(path: string): string {
    if path == "" then "."
    else
      var rooted := path[0] == '/';
      var parts := Normalize(Split(path, '/'), rooted, []);
      if rooted then "/" + Join(parts, '/')
      else if parts == [] then "."
      else Join(parts, '/')
  }

  function LastNonEmpty(parts: seq<string>): string {
    if parts == [] then "/"
    else if parts[|parts| - 1] != "" then parts[|parts| - 1]
    else LastNonEmpty(parts[..|parts| - 1])
  }

  /** `filepath.Base`. */
  function Base(path: string): (r: string)
    ensures r != ""
  {
    BaseIsNotEmpty(Split(path, '/'));
    if path == "" then "." else LastNonEmpty(Split(path, '/'))
  }

  lemma BaseIsNotEmpty(parts: seq<string>)
    ensures LastNonEmpty(parts) != ""
  {
  }

  /** `filepath.Join("/dev", name)`. */
  function InDev(name: string): string {
    if name == "" then "/dev" else Clean("/dev/" + name)
  }

  predicate IsCanonical(path: string) {
    IsAbs(path) && Clean(path) == path
  }

  function Absolute(parts: seq<string>): string {
    "/" + Join(parts, '/')
  }

  /** The components of a canonical path; "/" has none. */
  function Components(path: string): (r: seq<string>)
    requires IsCanonical(path)
    ensures AllNames(r) && path == Absolute(r)
  {
    Normalize(Split(path, '/'), true, [])
  }

  lemma {:induction false} NormalizeOfNames(parts: seq<string>, rooted: bool, done: seq<string>)
    requires AllNames(parts) && AllNames(done)
    ensures Normalize(parts, rooted, done) == done + parts
  {
    if parts != [] {
      NormalizeOfNames(parts[1..], rooted, done + [parts[0]]);
      assert done + parts == done + [parts[0]] + parts[1..];
    }
  }

  ghost predicate NoSlashes(parts: seq<string>) {
    forall i :: 0 <= i < |parts| ==> '/' !in parts[i]
  }

  lemma NamesHaveNoSlashes(parts: seq<string>)
    requires AllNames(parts)
    ensures NoSlashes(parts)
  {
  }

  lemma SplitOfAbsolute(parts: seq<string>)
    requires NoSlashes(parts)
    ensures Split(Absolute(parts), '/') == [""] + if parts == [] then [""] else parts
  {
    SplitOfConcat("", Join(parts, '/'), '/');
    assert Absolute(parts) == "" + ['/'] + Join(parts, '/');
    if parts != [] {
      SplitUndoesJoin(parts, '/');
    }
  }

  /** The canonical absolute paths are exactly the joined lists of names. */
  lemma AbsoluteIsCanonical(parts: seq<string>)
    requires AllNames(parts)
    ensures IsCanonical(Absolute(parts)) && Components(Absolute(parts)) == parts
  {
    SplitOfAbsolute(parts);
    var split := Split(Absolute(parts), '/');
    assert split[1..] == if parts == [] then [""] else parts;
    assert Normalize(split, true, []) == Normalize(split[1..], true, []);
    if parts == [] {
      assert Normalize([""], true, []) == Normalize([""][1..], true, []) == [];
    } else {
      NormalizeOfNames(parts, true, []);
    }
    assert Normalize(split, true, []) == parts;
  }

  /** Cleaning an absolute path yields a canonical one, so cleaning twice changes nothing. */
  lemma CleanIsCanonical(path: string)
    requires IsAbs(path)
    ensures IsCanonical(Clean(path))
  {
    AbsoluteIsCanonical(Normalize(Split(path, '/'), true, []));
  }

  // ----- the laws of `filepath.Clean` and `filepath.Base`

  lemma {:induction false} NormalizeOfConcat(a: seq<string>, b: seq<string>, rooted: bool, done: seq<string>)
    requires NoSlashes(a) && NoSlashes(b) && (rooted ==> AllNames(done))
    ensures Normalize(a + b, rooted, done) == Normalize(b, rooted, Normalize(a, rooted, done))
  {
    if a == [] {
      assert a + b == b;
    } else {
      hide Step;
      assert (a + b)[0] == a[0] && (a + b)[1..] == a[1..] + b;
      NormalizeOfConcat(a[1..], b, rooted, Step(a[0], rooted, done));
    }
  }

  lemma CleanOfAbsolute(parts: seq<string>)
    requires NoSlashes(parts)
    ensures Clean(Absolute(parts)) == Absolute(Normalize(parts, true, []))
  {
    SplitOfAbsolute(parts);
    var split := Split(Absolute(parts), '/');
    assert split[1..] == if parts == [] then [""] else parts;
    assert Normalize(split, true, []) == Normalize(split[1..], true, []);
    if parts == [] {
      assert Normalize([""], true, []) == Normalize([""][1..], true, []) == [];
    }
  }

  /**
   Empty and "." components vanish, ".." cancels the name before it, and the root absorbs "..".
   With `AbsoluteIsCanonical` these laws fix the value of `Clean` on every absolute path.
   */
  lemma CleanLaws(before: seq<string>, c: string, name: string, after: seq<string>)
    requires NoSlashes(before) && NoSlashes(after) && IsName(name) && (c == "" || c == ".")
    ensures Clean(Absolute(before + [c] + after)) == Clean(Absolute(before + after))
    ensures Clean(Absolute(before + [name, ".."] + after)) == Clean(Absolute(before + after))
    ensures Clean(Absolute([".."] + after)) == Clean(Absolute(after))
  {
    assert NoSlashes([c]) && NoSlashes([name, ".."]) && NoSlashes([".."]);
    hide Clean, Absolute, Normalize, IsName, AllNames, NoSlashes;
    StepLaws(Normalize(before, true, []), c, name);
    CleanOfDropped(before, [c], after);
    CleanOfDropped(before, [name, ".."], after);
    CleanAtRoot(after);
  }

  lemma CleanAtRoot(after: seq<string>)
    requires NoSlashes(after)
    ensures Clean(Absolute([".."] + after)) == Clean(Absolute(after))
  {
    hide Clean, Absolute, Normalize;
    StepLaws([], "", "a");
    CleanOfDropped([], [".."], after);
    assert [] + [".."] + after == [".."] + after && [] + after == after;
  }

  lemma StepLaws(done: seq<string>, c: string, name: string)
    requires AllNames(done) && IsName(name) && (c == "" || c == ".")
    ensures Normalize([c], true, done) == done && Normalize([name, ".."], true, done) == done
    ensures Normalize([], true, []) == Normalize([".."], true, []) == []
  {
    assert [c][1..] == [] == [".."][1..] && [name, ".."][1..] == [".."] && (done + [name])[..|done|] == done;
  }

  lemma CleanOfDropped(before: seq<string>, middle: seq<string>, after: seq<string>)
    requires NoSlashes(before) && NoSlashes(middle) && NoSlashes(after)
    requires Normalize(middle, true, Normalize(before, true, [])) == Normalize(before, true, [])
    ensures Clean(Absolute(before + middle + after)) == Clean(Absolute(before + after))
  {
    hide Clean, Absolute, Normalize;
    CleanOfAbsolute(before + middle + after);
    CleanOfAbsolute(before + after);
    NormalizeOfConcat(before + middle, after, true, []);
    NormalizeOfConcat(before, middle, true, []);
    NormalizeOfConcat(before, after, true, []);
  }

  lemma {:induction false} NormalizeKeepsWords(parts: seq<string>, rooted: bool, done: seq<string>)
    requires NoSlashes(parts) && NoSlashes(done) && "" !in done && (rooted ==> AllNames(done))
    ensures NoSlashes(Normalize(parts, rooted, done)) && "" !in Normalize(parts, rooted, done)
  {
    if parts != [] {
      NormalizeKeepsWords(parts[1..], rooted, Step(parts[0], rooted, done));
    }
  }

  /** Cleaning neither makes a path absolute nor relative. */
  lemma CleanKeepsRoot(path: string)
    ensures IsAbs(Clean(path)) <==> IsAbs(path)
  {
    if path != "" && path[0] != '/' {
      var parts := Normalize(Split(path, '/'), false, []);
      NormalizeKeepsWords(Split(path, '/'), false, []);
      if parts != [] {
        assert parts[0] in parts;
        assert Join(parts, '/')[0] == parts[0][0];
      }
    }
  }

  /** The last non-empty component; "/" when there is none and "." for the empty path. */
  lemma BaseLaws(path: string, name: string)
    requires name != "" && '/' !in name
    ensures Base("") == "." && Base("/") == "/" && Base(name) == name && Base(path + "/" + name) == name
    ensures path != "" ==> Base(path + "/") == Base(path)
  {
    SplitOfPlain(name, '/');
    SplitOfConcat(path, name, '/');
    SplitOfConcat(path, "", '/');
    SplitOfConcat("", "", '/');
    SplitOfEmpty('/');
    assert path + ['/'] + "" == path + "/" && "" + ['/'] + "" == "/" && path + ['/'] + name == path + "/" + name;
    hide Split;
    var parts := Split(path, '/');
    assert (parts + [""])[..|parts|] == parts && (parts + [name])[|parts|] == name;
    assert LastNonEmpty(["", ""]) == LastNonEmpty(["", ""][..1]) == LastNonEmpty([""][..0]) == "/";
    assert Split("/", '/') == ["", ""];
  }

  lemma BaseOfAbsolute(parts: seq<string>)
    requires AllNames(parts) && parts != []
    ensures Base(Absolute(parts)) == parts[|parts| - 1]
  {
    SplitOfAbsolute(parts);
  }

  lemma BaseOfName(name: string)
    requires IsName(name)
    ensures Base(name) == name && InDev(name) == "/dev/" + name && Base(InDev(name)) == name
  {
    SplitOfPlain(name, '/');
    assert Join(["dev", name], '/') == "dev" + ['/'] + Join([name], '/');
    assert "/dev/" + name == Absolute(["dev", name]);
    assert AllNames(["dev", name]);
    AbsoluteIsCanonical(["dev", name]);
    BaseOfAbsolute(["dev", name]);
  }

  // ----- containment

  predicate HasPrefix(s: string, prefix: string) {
    prefix <= s
  }

  /** Whether `path` lies at or below `mountpoint`, judged by the text. */
  predicate PathWithin(path: string, mountpoint: string) {
    if mountpoint == "/" then IsAbs(path)
    else path == mountpoint || HasPrefix(path, mountpoint + "/")
  }

  lemma RootHasNoComponents(path: string)
    requires IsCanonical(path)
    ensures Components(path) == [] <==> path == "/"
  {
    if path == "/" {
      AbsoluteIsCanonical([]);
      assert Absolute([]) == "/";
    }
  }

  lemma PrefixComponentsAreWithin(path: string, mountpoint: string)
    requires IsCanonical(path) && IsCanonical(mountpoint)
    requires Components(mountpoint) <= Components(path)
    ensures PathWithin(path, mountpoint)
    ensures Components(mountpoint) != Components(path) ==> |mountpoint| < |path|
  {
    var m, p := Components(mountpoint), Components(path);
    RootHasNoComponents(mountpoint);
    var rest := p[|m|..];
    assert p == m + rest;
    if m == [] {
      if p != [] {
        assert IsName(p[0]);
        assert |Join(p, '/')| >= |p[0]|;
      }
    } else if rest != [] {
      JoinOfConcat(m, rest, '/');
      assert path == mountpoint + "/" + Join(rest, '/');
    } else {
      assert p == m;
    }
  }

  lemma WithinHasPrefixComponents(path: string, mountpoint: string)
    requires IsCanonical(path) && IsCanonical(mountpoint)
    requires PathWithin(path, mountpoint)
    ensures Components(mountpoint) <= Components(path)
  {
    hide Components, Clean, Split, Join, Normalize, IsName;
    RootHasNoComponents(mountpoint);
    RootHasNoComponents(path);
    var m, p := Components(mountpoint), Components(path);
    if mountpoint != "/" && path != mountpoint {
      var rest := path[|mountpoint| + 1..];
      assert path == mountpoint + ['/'] + rest;
      SplitOfConcat(mountpoint, rest, '/');
      NamesHaveNoSlashes(m);
      NamesHaveNoSlashes(p);
      SplitOfAbsolute(m);
      SplitOfAbsolute(p);
      assert [""] + p == [""] + (m + Split(rest, '/'));
      assert p == ([""] + p)[1..] && m + Split(rest, '/') == ([""] + (m + Split(rest, '/')))[1..];
    }
  }

  /** For canonical paths, textual containment is component-list prefix. */
  lemma PathWithinIsComponentPrefix(path: string, mountpoint: string)
    requires IsCanonical(path) && IsCanonical(mountpoint)
    ensures PathWithin(path, mountpoint) <==> Components(mountpoint) <= Components(path)
  {
    if PathWithin(path, mountpoint) {
      WithinHasPrefixComponents(path, mountpoint);
    } else if Components(mountpoint) <= Components(path) {
      PrefixComponentsAreWithin(path, mountpoint);
    }
  }

  /** All mountpoints that contain a path form a chain, and the longer text lies deeper. */
  lemma ContainersFormAChain(path: string, a: string, b: string)
    requires IsCanonical(path) && IsCanonical(a) && IsCanonical(b)
    requires PathWithin(path, a) && PathWithin(path, b)
    ensures PathWithin(a, b) || PathWithin(b, a)
    ensures |a| > |b| <==> PathWithin(a, b) && a != b
  {
    WithinHasPrefixComponents(path, a);
    WithinHasPrefixComponents(path, b);
    var ca, cb := Components(a), Components(b);
    if |ca| <= |cb| {
      assert ca <= cb;
      PrefixComponentsAreWithin(b, a);
      if PathWithin(a, b) {
        WithinHasPrefixComponents(a, b);
        assert ca == cb;
      }
    } else {
      assert cb <= ca;
      PrefixComponentsAreWithin(a, b);
    }
  }
}
