/**
 Why the resolved root disk is the disk the root filesystem lives on: every chain of
 slaves and partition parents that starts at the root mount runs into it.
 */
module RootChains {
  import opened Basics
  import opened Lexicographic
  import opened Paths
  import opened Sysfs
  import opened Observer

  ghost predicate IsChain(root: Node, chain: seq<string>) {
    chain != [] && forall i :: 0 <= i < |chain| - 1 ==> chain[i + 1] in Dependencies(root, chain[i])
  }

  ghost predicate Acyclic(root: Node) {
    forall chain :: IsChain(root, chain) && |chain| > 1 ==> chain[0] != chain[|chain| - 1]
  }

  /** Every partition below `name` has a parent and every device-mapper name has a slave. */
  ghost predicate Accounted(root: Node, name: string) {
    root.listing.Some?
    && forall n :: Reaches(root, name, n) && BlockPath(root, n).Some? ==>
         && (BlockPath(root, n).value.IsPartition() ==> PartitionParent(root, n).Some?)
         && (HasPrefix(n, "dm-") ==> BlockPath(root, n).value.Slaves() != Some([]))
  }

  lemma ChainIsPath(root: Node, chain: seq<string>)
    requires IsChain(root, chain)
    ensures Reaches(root, chain[0], chain[|chain| - 1])
  {
    hide Dependencies, Children;
    assert IsPath(root, chain[0], chain);
  }

  /** A chain that cannot go on has arrived at the disk. */
  lemma ChainEndsAtDisk(root: Node, chain: seq<string>, disk: string)
    requires IsChain(root, chain) && IsOnlyDisk(root, chain[0], disk) && Accounted(root, chain[0])
    requires Dependencies(root, chain[|chain| - 1]) == {}
    ensures chain[|chain| - 1] == disk
  {
    var name, end := chain[0], chain[|chain| - 1];
    ChainIsPath(root, chain);
    assert !Broken(root, name, end);
    NoDependencies(root, end);
    assert IsPhysical(root, end);
  }

  lemma NoDependencies(root: Node, n: string)
    requires root.listing.Some? && BlockPath(root, n).Some? && BlockPath(root, n).value.Slaves().Some?
    ensures PartitionParent(root, n).Some? ==> Dependencies(root, n) != {}
    ensures BlockPath(root, n).value.Slaves() != Some([]) ==> Dependencies(root, n) != {}
  {
    hide BlockPath, PartitionParent;
    var slaves := BlockPath(root, n).value.Slaves().value;
    assert PartitionParent(root, n).Some? ==> PartitionParent(root, n).value in Dependencies(root, n);
    assert slaves != [] ==> slaves[0] in Dependencies(root, n);
  }

  /** On an acyclic snapshot every chain from the root mount continues to the disk. */
  lemma {:induction false} EveryChainReachesDisk(root: Node, chain: seq<string>, disk: string) returns (longer: seq<string>)
    requires Acyclic(root) && IsChain(root, chain)
    requires IsOnlyDisk(root, chain[0], disk) && Accounted(root, chain[0])
    ensures IsChain(root, longer) && chain <= longer && longer[|longer| - 1] == disk
    decreases |Closure(root, chain[0]) - Elements(chain)|
  {
    hide Dependencies, Accounted, IsOnlyDisk, Acyclic, Closure, Elements;
    if Dependencies(root, chain[|chain| - 1]) == {} {
      ChainEndsAtDisk(root, chain, disk);
      return chain;
    }
    var step := NextInChain(root, chain);
    longer := EveryChainReachesDisk(root, step, disk);
  }

  /** One more dependency, a device not met before, so fewer are left. */
  lemma NextInChain(root: Node, chain: seq<string>) returns (longer: seq<string>)
    requires Acyclic(root) && IsChain(root, chain) && Dependencies(root, chain[|chain| - 1]) != {}
    ensures IsChain(root, longer) && chain < longer && longer[0] == chain[0]
    ensures |Closure(root, longer[0]) - Elements(longer)| < |Closure(root, chain[0]) - Elements(chain)|
  {
    hide Dependencies, Acyclic, Reaches, Closure;
    var next :| next in Dependencies(root, chain[|chain| - 1]);
    longer := chain + [next];
    assert IsChain(root, longer);
    ChainIsPath(root, longer);
    NoReturn(root, chain, next);
    assert Elements(longer) == Elements(chain) + {next};
    Shrinks(Closure(root, chain[0]), Elements(chain), Elements(longer), next);
  }

  lemma NoReturn(root: Node, chain: seq<string>, next: string)
    requires Acyclic(root) && IsChain(root, chain) && next in Dependencies(root, chain[|chain| - 1])
    ensures next !in chain
  {
    hide Dependencies;
    forall i | 0 <= i < |chain| ensures chain[i] != next {
      var cycle := chain[i..] + [next];
      assert IsChain(root, cycle);
      assert cycle[0] == chain[i] && cycle[|cycle| - 1] == next;
    }
  }
}
