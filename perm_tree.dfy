/** The permutation tree: nodes holding one symbol each, and the tree object
    that owns them (include/tree.h, the PMTree part of src/alg.cpp). */
module PermTree {
  import opened SeqUtil

  /** Key of the technical root; it never belongs to a permutation. */
  const Sentinel: char := '*'

  /** A node: its symbol and the children it owns, in the order they were
      appended. A value of this type is a finite tree without sharing. */
  datatype PMNode = PMNode(key: char, child: seq<PMNode>)

  /** The keys of a list of nodes, in order. */
  function Keys(nodes: seq<PMNode>): (r: seq<char>)
    ensures |r| == |nodes|
    ensures forall i :: 0 <= i < |nodes| ==> r[i] == nodes[i].key
  {
    seq(|nodes|, i requires 0 <= i < |nodes| => nodes[i].key)
  }

  /** The node with key `key` once buildLevel has run on it with the
      remaining symbols `rest`: a leaf when nothing remains, otherwise one
      child per symbol of `rest`. */
  function Level(key: char, rest: seq<char>): PMNode
    decreases |rest|, 1
  {
    if rest == [] then PMNode(key, [])
    else PMNode(key, Children(rest, |rest|))
  }

  /** The first k children buildLevel appends for `rest`: child j carries
      rest[j] and is built from `rest` without (the first occurrence of)
      rest[j]. */
  function Children(rest: seq<char>, k: nat): (r: seq<PMNode>)
    requires k <= |rest|
    ensures |r| == k
    decreases |rest|, 0, k
  {
    if k == 0 then []
    else Children(rest, k - 1) + [Level(rest[k - 1], RemoveFirst(rest, rest[k - 1]))]
  }

  lemma {:induction false} ChildrenAt(rest: seq<char>, k: nat, j: nat)
    requires j < k <= |rest|
    ensures Children(rest, k)[j] == Level(rest[j], RemoveFirst(rest, rest[j]))
    decreases k
  {
    var all := Children(rest, k);
    var prev := Children(rest, k - 1);
    var last := Level(rest[k - 1], RemoveFirst(rest, rest[k - 1]));
    assert all == prev + [last];
    if j < k - 1 {
      ChildrenAt(rest, k - 1, j);
      assert all[j] == prev[j];
      assert all[j] == Level(rest[j], RemoveFirst(rest, rest[j]));
    } else {
      assert all[j] == last;
      assert rest[j] == rest[k - 1];
      assert all[j] == Level(rest[j], RemoveFirst(rest, rest[j]));
    }
  }

  /** Number of leaves below (and including) a node. */
  function LeafCount(t: PMNode): nat
    decreases t, 1
  {
    if t.child == [] then 1 else LeavesFrom(t.child, |t.child|)
  }

  /** Number of leaves below the first k nodes of `nodes`. */
  function LeavesFrom(nodes: seq<PMNode>, k: nat): nat
    requires k <= |nodes|
    decreases nodes, k
  {
    if k == 0 then 0 else LeavesFrom(nodes, k - 1) + LeafCount(nodes[k - 1])
  }

  /** `PMNode(k)`: a node holding `k` and no children yet. It is a leaf, and
      it is what buildLevel leaves it as when no symbol remains. */
  function NewNode(k: char): (r: PMNode)
    ensures r.key == k && r.child == []
    ensures LeafCount(r) == 1
    ensures r == Level(k, [])
  {
    PMNode(k, [])
  }

  /** Shape of one level: the node keeps its key, its children carry the
      remaining symbols as keys in the order given, and it is a leaf exactly
      when no symbol remains. */
  lemma LevelShape(key: char, rest: seq<char>)
    ensures Level(key, rest).key == key
    ensures Keys(Level(key, rest).child) == rest
    ensures Level(key, rest).child == [] <==> rest == []
  {
    var ks := Keys(Level(key, rest).child);
    forall j | 0 <= j < |rest| ensures ks[j] == rest[j] {
      ChildrenAt(rest, |rest|, j);
    }
  }

  /** Each level with k remaining symbols has k! leaves below it, with or
      without repeated symbols. */
  lemma {:induction false} LevelLeafCount(key: char, rest: seq<char>)
    ensures LeafCount(Level(key, rest)) == Fact(|rest|)
    decreases |rest|, 1
  {
    if rest != [] {
      ChildrenLeafCount(rest, |rest|);
      TimesIsProduct(|rest|, Fact(|rest| - 1));
      FactStep(|rest|);
    }
  }

  /** The first k children of a level have (|rest| - 1)! leaves each. */
  lemma {:induction false} ChildrenLeafCount(rest: seq<char>, k: nat)
    requires 1 <= |rest| && k <= |rest|
    ensures LeavesFrom(Children(rest, |rest|), k) == Times(k, Fact(|rest| - 1))
    decreases |rest|, 0, k
  {
    if k > 0 {
      ChildrenLeafCount(rest, k - 1);
      ChildLeafCount(rest, k - 1);
    }
  }

  lemma {:induction false} ChildLeafCount(rest: seq<char>, j: nat)
    requires j < |rest|
    ensures LeafCount(Children(rest, |rest|)[j]) == Fact(|rest| - 1)
    decreases |rest|, 0, 0
  {
    var sub := RemoveFirst(rest, rest[j]);
    var child := Children(rest, |rest|)[j];
    ChildrenAt(rest, |rest|, j);
    assert child == Level(rest[j], sub);
    LevelLeafCount(rest[j], sub);
    assert |sub| == |rest| - 1;
    assert LeafCount(child) == Fact(|sub|);
  }

  /** buildLevel: builds the subtree below a node with key `key` from the
      remaining symbols, appending one child per symbol of `rest`. */
  method BuildLevel(key: char, rest: seq<char>) returns (node: PMNode)
    ensures node == Level(key, rest)
    decreases |rest|
  {
    if rest == [] {
      return NewNode(key);
    }
    var children: seq<PMNode> := [];
    for i := 0 to |rest|
      invariant children == Children(rest, i)
    {
      var c := rest[i];
      var next := RemoveFirst(rest, c);
      var child := BuildLevel(c, next);
      children := children + [child];
    }
    node := PMNode(key, children);
  }

  /** The permutation tree over an alphabet. Its fields are fixed by the
      constructor and only read afterwards. */
  class PMTree {
    const root: PMNode
    const n: nat
    const factorial: nat
    /** The alphabet the tree was built from, as given. */
    ghost const alphabet: seq<char>

    /** What construction establishes: the alphabet size, its factorial,
        and a sentinel root over the sorted alphabet. */
    ghost predicate Valid()
      ensures Valid() ==> root.key == Sentinel && factorial >= 1
    {
      && n == |alphabet|
      && factorial == Fact(n)
      && root == Level(Sentinel, SortAscending(alphabet))
    }

    constructor (input: seq<char>)
      ensures alphabet == input
      ensures Valid()
    {
      var f := 1;
      var i := 2;
      while i <= |input|
        invariant 2 <= i <= |input| + 1 || i == 2
        invariant f == Fact(i - 1)
      {
        FactStep(i);
        f := f * i;
        i := i + 1;
      }
      var sorted := SortAscending(input);
      var top := BuildLevel(Sentinel, sorted);
      alphabet := input;
      n := |input|;
      factorial := f;
      root := top;
    }

    /** root(): the sentinel node whose children carry the sorted alphabet. */
    function Root(): (r: PMNode)
      requires Valid()
      ensures r.key == Sentinel
      ensures Keys(r.child) == SortAscending(alphabet)
      ensures multiset(Keys(r.child)) == multiset(alphabet)
    {
      LevelShape(Sentinel, SortAscending(alphabet));
      root
    }

    /** size(): the number of symbols the tree was built from. */
    function Size(): (r: nat)
      requires Valid()
      ensures r == |alphabet|
    {
      n
    }

    /** fac(): size()!, so 1 for both the empty and a one-symbol alphabet. */
    function Fac(): (r: nat)
      requires Valid()
      ensures r == Fact(|alphabet|)
      ensures r == LeafCount(Root())
    {
      LevelLeafCount(Sentinel, SortAscending(alphabet));
      factorial
    }
  }
}
