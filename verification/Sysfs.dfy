/**
 One snapshot of /sys/class/block, and the relations the program reads from it. A node is
 any entry that can be stat'ed; the snapshot itself is the node of the directory.
 */
module Sysfs {
  import opened Basics
  import opened Lexicographic

  datatype Node = Node(
    text: Option<string>,          // trimmed content, when the entry is a readable file
    listing: Option<seq<string>>,  // entry names, when the entry is a readable directory
    sub: map<string, Node>)        // the entries that can be stat'ed
  {
    predicate Has(name: string) {
      name in sub
    }

    predicate IsPartition() {
      Has("partition")
    }

    /** The names under "slaves"; an absent directory has none, an unreadable one is an error. */
    function Slaves(): Option<seq<string>> {
      if Has("slaves") then sub["slaves"].listing else Some([])
    }

    predicate IsPartitionChild(name: string) {
      Has(name) && sub[name].IsPartition()
    }

    function PartitionChildren(): Option<seq<string>> {
      if listing.None? then None
      else Some(Filter(listing.value, name => IsPartitionChild(name)))
    }

    /** Trimmed content of a file one or two levels down. */
    function Read(name: string): Option<string> {
      if Has(name) then sub[name].text else None
    }

    function ReadBelow(directory: string, name: string): Option<string> {
      if Has(directory) then sub[directory].Read(name) else None
    }
  }

  /** The directory of a device: at top level, or under the first top-level name that holds it. */
  function BlockPath(root: Node, name: string): Option<Node> {
    if root.Has(name) then Some(root.sub[name])
    else if root.listing.None? then None
    else
      var parent := First(Sort(root.listing.value), p => root.Has(p) && root.sub[p].Has(name));
      if parent.None? then None else Some(root.sub[parent.value].sub[name])
  }

  /** The first top-level name under which `name` carries a partition marker. */
  function PartitionParent(root: Node, name: string): (r: Option<string>)
    requires root.listing.Some?
    ensures r.Some? ==> r.value in root.listing.value
  {
    First(Sort(root.listing.value), p => root.Has(p) && root.sub[p].IsPartitionChild(name))
  }

  /** The parent found is the least top-level name under which the partition appears. */
  lemma PartitionParentIsLeast(root: Node, name: string)
    requires root.listing.Some?
    ensures PartitionParent(root, name).None? <==>
      forall p :: p in root.listing.value && root.Has(p) ==> !root.sub[p].IsPartitionChild(name)
    ensures PartitionParent(root, name).Some? ==>
      var parent := PartitionParent(root, name).value;
      && parent in root.listing.value && root.Has(parent) && root.sub[parent].IsPartitionChild(name)
      && forall p :: p in root.listing.value && root.Has(p) && root.sub[p].IsPartitionChild(name) ==> !Less(p, parent)
  {
    hide Less, Sort, First;
    var sorted := Sort(root.listing.value);
    var ok := p => root.Has(p) && root.sub[p].IsPartitionChild(name);
    assert PartitionParent(root, name) == First(sorted, ok);
    forall p | p in root.listing.value && root.Has(p) && root.sub[p].IsPartitionChild(name)
      ensures First(sorted, ok).Some? && !Less(p, First(sorted, ok).value)
    {
      assert p in sorted;
      var k :| 0 <= k < |sorted| && sorted[k] == p;
      FirstOfSortedIsLeast(sorted, ok, k);
    }
  }

  /** A name at top level wins, listed or not; otherwise any listed top-level directory that holds it resolves it. */
  lemma BlockPathResolves(root: Node, name: string)
    ensures BlockPath(root, name).Some? <==>
      || root.Has(name)
      || (root.listing.Some? && exists p :: p in root.listing.value && root.Has(p) && root.sub[p].Has(name))
    ensures root.Has(name) ==> BlockPath(root, name) == Some(root.sub[name])
    ensures BlockPath(root, name).Some? && !root.Has(name) ==>
      root.listing.Some?
      && exists p :: p in root.listing.value && root.Has(p) && root.sub[p].Has(name)
                     && BlockPath(root, name).value == root.sub[p].sub[name]
                     && forall q :: q in root.listing.value && root.Has(q) && root.sub[q].Has(name) ==> !Less(q, p)
  {
    if root.listing.Some? {
      hide Sort, First, Less;
      var sorted, ok := Sort(root.listing.value), p => root.Has(p) && root.sub[p].Has(name);
      var parent := First(sorted, ok);
      assert parent.Some? ==> parent.value in root.listing.value;
      forall q | q in root.listing.value && root.Has(q) && root.sub[q].Has(name)
        ensures parent.Some? && !Less(q, parent.value)
      {
        assert q in sorted;
        var k :| 0 <= k < |sorted| && sorted[k] == q;
        FirstOfSortedIsLeast(sorted, ok, k);
      }
    }
  }

  /** What a device depends on: its partition parent and its slaves. */
  function Dependencies(root: Node, name: string): (r: set<string>) {
    var parent := if root.listing.Some? then PartitionParent(root, name) else None;
    var node := BlockPath(root, name);
    (if parent.Some? then {parent.value} else {})
    + (if node.Some? && node.value.Slaves().Some? then set s | s in node.value.Slaves().value else {})
  }

  /** Partition children, which the walk follows from its starting device only. */
  function Children(root: Node, name: string): (r: set<string>) {
    var node := BlockPath(root, name);
    if node.Some? && node.value.PartitionChildren().Some?
    then set s | s in node.value.PartitionChildren().value else {}
  }

  function Next(root: Node, start: string, name: string): set<string> {
    Dependencies(root, name) + if name == start then Children(root, name) else {}
  }

  /** A device whose relations cannot be read in full. */
  predicate Broken(root: Node, start: string, name: string) {
    var node := BlockPath(root, name);
    node.None? || root.listing.None? || node.value.Slaves().None?
    || (name == start && node.value.PartitionChildren().None?)
  }

  // ----- the relations as the directories hold them

  /** The "slaves" directory of the device lists `s`. */
  ghost predicate ListsSlave(root: Node, name: string, s: string) {
    var node := BlockPath(root, name);
    && node.Some? && "slaves" in node.value.sub
    && node.value.sub["slaves"].listing.Some? && s in node.value.sub["slaves"].listing.value
  }

  /** The directory `name` below the top-level directory `p` carries a partition marker. */
  ghost predicate Marks(root: Node, p: string, name: string) {
    p in root.sub && name in root.sub[p].sub && "partition" in root.sub[p].sub[name].sub
  }

  /** `p` is the first listed name, in sorted order, that marks the device as its partition. */
  ghost predicate IsParent(root: Node, name: string, p: string) {
    && root.listing.Some? && p in root.listing.value && Marks(root, p, name)
    && forall q :: q in root.listing.value && Marks(root, q, name) ==> q == p || Less(p, q)
  }

  /** The directory of the device lists `c`, which carries a partition marker. */
  ghost predicate ListsPartition(root: Node, name: string, c: string) {
    var node := BlockPath(root, name);
    && node.Some? && node.value.listing.Some? && c in node.value.listing.value
    && c in node.value.sub && "partition" in node.value.sub[c].sub
  }

  lemma ParentIsFirstMarked(root: Node, name: string, p: string)
    requires root.listing.Some?
    ensures PartitionParent(root, name) == Some(p) <==> IsParent(root, name, p)
  {
    PartitionParentIsLeast(root, name);
    hide PartitionParent, Less;
    var parent := PartitionParent(root, name);
    if parent.Some? {
      forall q | q in root.listing.value && Marks(root, q, name) ensures q == parent.value || Less(parent.value, q) {
        LessIsTotal(q, parent.value);
      }
      LessIsTotal(p, parent.value);
    }
  }

  /** One step of the walk follows exactly what the directories hold: slaves, the parent and, at the start, partitions. */
  lemma RelationsAreListed(root: Node, start: string, name: string, n: string)
    ensures n in Dependencies(root, name) <==> ListsSlave(root, name, n) || IsParent(root, name, n)
    ensures n in Next(root, start, name) <==>
      ListsSlave(root, name, n) || IsParent(root, name, n) || (name == start && ListsPartition(root, name, n))
  {
    hide BlockPath, PartitionParent, IsParent;
    if root.listing.Some? {
      ParentIsFirstMarked(root, name, n);
    } else {
      assert !IsParent(root, name, n) by { NoParentWithoutListing(root, name, n); }
    }
  }

  lemma NoParentWithoutListing(root: Node, name: string, n: string)
    requires root.listing.None?
    ensures !IsParent(root, name, n)
  {
  }

  /** A device cannot be read in full exactly when it is nowhere or one of the directories above cannot be read. */
  lemma BrokenIsUnreadable(root: Node, start: string, name: string)
    ensures Broken(root, start, name) <==>
      var node := BlockPath(root, name);
      || node.None? || root.listing.None?
      || ("slaves" in node.value.sub && node.value.sub["slaves"].listing.None?)
      || (name == start && node.value.listing.None?)
  {
    hide BlockPath;
  }

  // ----- reachability

  ghost predicate IsPath(root: Node, start: string, path: seq<string>) {
    path != [] && path[0] == start
    && forall i :: 0 <= i < |path| - 1 ==> path[i + 1] in Next(root, start, path[i])
  }

  ghost predicate Reaches(root: Node, start: string, name: string) {
    exists path :: IsPath(root, start, path) && path[|path| - 1] == name
  }

  lemma ReachesItself(root: Node, start: string)
    ensures Reaches(root, start, start)
  {
    assert IsPath(root, start, [start]);
  }

  lemma ReachesNext(root: Node, start: string, name: string, next: string)
    requires Reaches(root, start, name) && next in Next(root, start, name)
    ensures Reaches(root, start, next)
  {
    var path :| IsPath(root, start, path) && path[|path| - 1] == name;
    var longer := path + [next];
    assert IsPath(root, start, longer) && longer[|longer| - 1] == next;
  }

  /** Whatever a reached device lists is reached, through any number of layers. */
  lemma ListedIsReached(root: Node, start: string, name: string, n: string)
    requires Reaches(root, start, name)
    requires ListsSlave(root, name, n) || IsParent(root, name, n) || (name == start && ListsPartition(root, name, n))
    ensures Reaches(root, start, n)
  {
    hide Next, ListsSlave, IsParent, ListsPartition, Reaches;
    RelationsAreListed(root, start, name, n);
    ReachesNext(root, start, name, n);
  }

  ghost predicate Closed(root: Node, start: string, names: set<string>) {
    forall n {:trigger Next(root, start, n)} :: n in names ==> Next(root, start, n) <= names
  }

  lemma {:induction false} PathStaysInside(root: Node, start: string, names: set<string>, path: seq<string>)
    requires start in names && Closed(root, start, names) && IsPath(root, start, path)
    ensures path[|path| - 1] in names
  {
    if |path| > 1 {
      var init := path[..|path| - 1];
      PathStaysInside(root, start, names, init);
      assert path[|path| - 2 + 1] in Next(root, start, path[|path| - 2]);
    }
  }

  /** Reachability is the least closed set: it lies inside every closed set that holds the start. */
  lemma ReachableIsLeast(root: Node, start: string, names: set<string>)
    requires start in names && Closed(root, start, names)
    ensures forall n :: Reaches(root, start, n) ==> n in names
  {
    forall n | Reaches(root, start, n) ensures n in names {
      var path :| IsPath(root, start, path) && path[|path| - 1] == n;
      PathStaysInside(root, start, names, path);
    }
  }

  // ----- a finite universe, so that the walk ends on every snapshot, cyclic or not

  function Listed(node: Node): set<string> {
    (if node.listing.Some? then set n | n in node.listing.value else {})
    + (if node.Slaves().Some? then set n | n in node.Slaves().value else {})
  }

  function Universe(root: Node, start: string): set<string> {
    {start} + Listed(root)
    + (set a, n | a in root.sub && n in Listed(root.sub[a]) :: n)
    + (set a, b, n | a in root.sub && b in root.sub[a].sub && n in Listed(root.sub[a].sub[b]) :: n)
  }

  lemma NextInUniverse(root: Node, start: string, name: string)
    ensures Next(root, start, name) <= Universe(root, start)
  {
    var node := BlockPath(root, name);
    if node.Some? {
      assert Listed(node.value) <= Universe(root, start) by {
        if root.Has(name) {
          assert name in root.sub;
        } else {
          var parent := First(Sort(root.listing.value), p => root.Has(p) && root.sub[p].Has(name));
          assert parent.value in root.sub && name in root.sub[parent.value].sub;
        }
      }
      assert Children(root, name) <= Listed(node.value);
    }
  }

  /** Every device a walk from `start` depends on. */
  ghost function Closure(root: Node, start: string): (r: set<string>)
    ensures forall n :: n in r <==> Reaches(root, start, n)
  {
    UniverseHoldsReachable(root, start);
    set n | n in Universe(root, start) && Reaches(root, start, n)
  }

  lemma UniverseHoldsReachable(root: Node, start: string)
    ensures forall n :: Reaches(root, start, n) ==> n in Universe(root, start)
  {
    forall n | n in Universe(root, start) ensures Next(root, start, n) <= Universe(root, start) {
      NextInUniverse(root, start, n);
    }
    ReachableIsLeast(root, start, Universe(root, start));
  }

  lemma ClosureIsClosed(root: Node, start: string)
    ensures start in Closure(root, start) && Closed(root, start, Closure(root, start))
  {
    ReachesItself(root, start);
    forall n, m | n in Closure(root, start) && m in Next(root, start, n) ensures m in Closure(root, start) {
      ReachesNext(root, start, n, m);
    }
  }

  ghost predicate Resolvable(root: Node, start: string) {
    forall n :: Reaches(root, start, n) ==> !Broken(root, start, n)
  }

  // ----- the walk

  /** The names seen since `before` are all readable, and all they relate to has been seen. */
  ghost predicate Settled(root: Node, start: string, before: set<string>, seen: set<string>) {
    forall n {:trigger Next(root, start, n)} {:trigger Broken(root, start, n)} ::
      n in seen && n !in before ==> !Broken(root, start, n) && Next(root, start, n) <= seen
  }

  class Walk {
    var seen: set<string>

    constructor ()
      ensures seen == {}
    {
      seen := {};
    }

    /** Depth-first over parent, slaves and, at the start only, partition children. */
    method WalkRelated(root: Node, ghost start: string, name: string, includePartitions: bool, ghost all: set<string>)
      returns (ok: bool)
      requires Closed(root, start, all) && seen <= all && name in all
      requires if includePartitions then name == start else start in seen
      modifies this
      ensures old(seen) <= seen <= all && name in seen
      ensures ok ==> Settled(root, start, old(seen), seen)
      ensures !ok ==> exists n :: n in seen && Broken(root, start, n)
      decreases |all - seen|, 1
    {
      if name in seen {
        return true;
      }
      seen := seen + {name};
      ghost var entered := seen;
      Shrinks(all, old(seen), seen, name);

      var node := BlockPath(root, name);
      if node.None? || root.listing.None? {
        return false;
      }
      var parent := PartitionParent(root, name);
      var parents := if parent.Some? then [parent.value] else [];
      RelationsAreNext(root, start, name);
      ok := WalkAll(root, start, parents, all);
      if !ok {
        return;
      }
      ghost var climbed := seen;
      var slaves := node.value.Slaves();
      if slaves.None? {
        return false;
      }
      Fewer(all, entered, seen);
      ok := WalkAll(root, start, Sort(slaves.value), all);
      if !ok {
        return;
      }
      SettledTogether(root, start, entered, climbed, seen);
      if includePartitions {
        ghost var descended := seen;
        var partitions := node.value.PartitionChildren();
        if partitions.None? {
          return false;
        }
        Fewer(all, entered, seen);
        ok := WalkAll(root, start, partitions.value, all);
        if !ok {
          return;
        }
        SettledTogether(root, start, entered, descended, seen);
      }
      SettledNode(root, start, old(seen), name, seen);
    }

    /** The walk of each name in turn, stopping at the first failure. */
    method WalkAll(root: Node, ghost start: string, names: seq<string>, ghost all: set<string>) returns (ok: bool)
      requires Closed(root, start, all) && seen <= all && start in seen && Elements(names) <= all
      modifies this
      ensures old(seen) <= seen <= all
      ensures ok ==> Elements(names) <= seen && Settled(root, start, old(seen), seen)
      ensures !ok ==> exists n :: n in seen && Broken(root, start, n)
      decreases |all - seen|, 2
    {
      ok := true;
      for i := 0 to |names|
        invariant old(seen) <= seen <= all
        invariant forall j :: 0 <= j < i ==> names[j] in seen
        invariant Settled(root, start, old(seen), seen)
      {
        Fewer(all, old(seen), seen);
        ghost var before := seen;
        ok := WalkRelated(root, start, names[i], false, all);
        if !ok {
          return;
        }
        SettledTogether(root, start, old(seen), before, seen);
      }
    }
  }

  /** `Next`, spelled out as the lists the walk goes through. */
  lemma RelationsAreNext(root: Node, start: string, name: string)
    requires BlockPath(root, name).Some? && root.listing.Some?
    ensures
      var node, parent := BlockPath(root, name).value, PartitionParent(root, name);
      Next(root, start, name) ==
        Elements(if parent.Some? then [parent.value] else [])
        + (if node.Slaves().Some? then Elements(Sort(node.Slaves().value)) else {})
        + (if name == start && node.PartitionChildren().Some? then Elements(node.PartitionChildren().value) else {})
  {
  }

  lemma SettledNode(root: Node, start: string, before: set<string>, name: string, seen: set<string>)
    requires Settled(root, start, before + {name}, seen)
    requires !Broken(root, start, name) && Next(root, start, name) <= seen
    ensures Settled(root, start, before, seen)
  {
  }

  lemma SettledTogether(root: Node, start: string, a: set<string>, b: set<string>, c: set<string>)
    requires a <= b <= c && Settled(root, start, a, b) && Settled(root, start, b, c)
    ensures Settled(root, start, a, c)
  {
  }

  lemma Shrinks(all: set<string>, before: set<string>, after: set<string>, name: string)
    requires name in all - before && after == before + {name}
    ensures |all - after| < |all - before|
  {
    assert all - after == (all - before) - {name};
  }

  lemma Fewer(universe: set<string>, before: set<string>, after: set<string>)
    requires before <= after
    ensures |universe - after| <= |universe - before|
  {
    Smaller(universe - after, universe - before);
  }

  lemma {:induction false} Smaller(a: set<string>, b: set<string>)
    requires a <= b
    ensures |a| <= |b|
  {
    if a != {} {
      var x :| x in a;
      Smaller(a - {x}, b - {x});
    }
  }

  /** The contract of `related`: canonical, exactly the reachable names, or refused. */
  ghost predicate IsRelated(root: Node, start: string, r: Option<seq<string>>) {
    && (r.Some? <==> Resolvable(root, start))
    && (r.Some? ==> StrictlySorted(r.value) && Elements(r.value) == Closure(root, start))
  }

  lemma SeenIsClosure(root: Node, start: string, seen: set<string>)
    requires start in seen && seen <= Closure(root, start) && Settled(root, start, {}, seen)
    ensures seen == Closure(root, start) && Resolvable(root, start)
  {
    ReachableIsLeast(root, start, seen);
  }

  method Related(root: Node, start: string) returns (r: Option<seq<string>>)
    ensures IsRelated(root, start, r)
  {
    var walk := new Walk();
    ClosureIsClosed(root, start);
    var ok := walk.WalkRelated(root, start, start, true, Closure(root, start));
    if !ok {
      return None;
    }
    SeenIsClosure(root, start, walk.seen);
    var names := SortedKeys(walk.seen);
    r := Some(names);
  }

  /** When every directory read works, the walk fails exactly on an unresolved reachable name. */
  lemma FailureIsUnresolvedName(root: Node, start: string, r: Option<seq<string>>)
    requires IsRelated(root, start, r)
    requires root.listing.Some?
    requires forall n :: BlockPath(root, n).Some? ==>
        BlockPath(root, n).value.Slaves().Some? && BlockPath(root, n).value.listing.Some?
    ensures r.None? <==> exists n :: Reaches(root, start, n) && BlockPath(root, n).None?
  {
  }

  /** Comparing two results as sequences compares them as sets. */
  lemma RelatedIsCanonical(a: Node, s: string, r: Option<seq<string>>, b: Node, t: string, q: Option<seq<string>>)
    requires IsRelated(a, s, r) && IsRelated(b, t, q) && r.Some? && q.Some?
    ensures r == q <==> Closure(a, s) == Closure(b, t)
  {
    CanonicalForm(r.value, q.value);
  }
}
