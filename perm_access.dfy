/** The read-only algorithms over a built tree (src/alg.cpp): depth-first
    enumeration, retrieval by rank from the full list, and retrieval by
    factorial-number-system decoding. */
module PermAccess {
  import opened SeqUtil
  import opened Permutations
  import opened PermTree

  /** Alphabets the engine is meant for: no repeated symbol and no symbol
      that collides with the root's sentinel key. */
  predicate WellFormed(alphabet: seq<char>)
  {
    Distinct(alphabet) && Sentinel !in alphabet
  }

  /** The path buffer after dfs enters a node with key `key`: the sentinel
      root adds nothing, every other node adds its key. */
  function Enter(buf: seq<char>, key: char): seq<char>
  {
    if key != Sentinel then buf + [key] else buf
  }

  /** The sequences dfs appends to `out` when it visits `node` with path
      buffer `buf`: one per leaf, left to right. */
  function Visit(node: PMNode, buf: seq<char>): seq<seq<char>>
    decreases node, 1
  {
    var path := Enter(buf, node.key);
    if node.child == [] then [path] else VisitFrom(node.child, |node.child|, path)
  }

  /** What dfs appends for the first k nodes of `nodes`, in order. */
  function VisitFrom(nodes: seq<PMNode>, k: nat, buf: seq<char>): seq<seq<char>>
    requires k <= |nodes|
    decreases nodes, k
  {
    if k == 0 then [] else VisitFrom(nodes, k - 1, buf) + Visit(nodes[k - 1], buf)
  }

  /** The list getAllPerms produces for a tree. */
  function Enumeration(tree: PMTree): seq<seq<char>>
  {
    Visit(tree.root, [])
  }

  /** dfs: pushes the node's key (unless it is the root), emits the buffer at
      a leaf or recurses into the children in order, then pops the key.
      The by-reference buffer and output list are passed in and handed back. */
  method Dfs(node: PMNode, buf: seq<char>, out: seq<seq<char>>) returns (buf': seq<char>, out': seq<seq<char>>)
    ensures buf' == buf
    ensures out' == out + Visit(node, buf)
    decreases node
  {
    buf', out' := buf, out;
    if node.key != Sentinel {
      buf' := buf' + [node.key];
    }
    if node.child == [] {
      out' := out' + [buf'];
    } else {
      var i := 0;
      while i < |node.child|
        invariant 0 <= i <= |node.child|
        invariant buf' == Enter(buf, node.key)
        invariant out' == out + VisitFrom(node.child, i, buf')
      {
        buf', out' := Dfs(node.child[i], buf', out');
        i := i + 1;
      }
    }
    if buf' != [] && node.key != Sentinel {
      buf' := buf'[..|buf'| - 1];
    }
  }

  /** One sequence per leaf. */
  lemma {:induction false} VisitLength(node: PMNode, buf: seq<char>)
    ensures |Visit(node, buf)| == LeafCount(node)
    decreases node, 1
  {
    if node.child != [] {
      VisitFromLength(node.child, |node.child|, Enter(buf, node.key));
    }
  }

  lemma {:induction false} VisitFromLength(nodes: seq<PMNode>, k: nat, buf: seq<char>)
    requires k <= |nodes|
    ensures |VisitFrom(nodes, k, buf)| == LeavesFrom(nodes, k)
    decreases nodes, k
  {
    if k > 0 {
      VisitFromLength(nodes, k - 1, buf);
      VisitLength(nodes[k - 1], buf);
    }
  }

  lemma PrependConcat(pfx: seq<char>, a: seq<seq<char>>, b: seq<seq<char>>)
    ensures Prepend(pfx, a + b) == Prepend(pfx, a) + Prepend(pfx, b)
  {
  }

  lemma PrependPrepend(pfx: seq<char>, c: char, ps: seq<seq<char>>)
    ensures Prepend(pfx, Prepend([c], ps)) == Prepend(pfx + [c], ps)
  {
    forall i | 0 <= i < |ps| ensures pfx + ([c] + ps[i]) == (pfx + [c]) + ps[i] {
    }
  }

  /** Visiting the subtree buildLevel made for `rest` emits the path so far
      followed, in turn, by each ordering of `rest` in the reference order. */
  lemma {:induction false} VisitLevel(key: char, rest: seq<char>, buf: seq<char>)
    requires WellFormed(rest)
    ensures Visit(Level(key, rest), buf) == Prepend(Enter(buf, key), Perms(rest))
    decreases |rest|, 1
  {
    var path := Enter(buf, key);
    if rest == [] {
      assert Visit(Level(key, rest), buf) == [path];
      assert Prepend(path, [[]])[0] == path;
    } else {
      var blocks := seq(|rest|, i requires 0 <= i < |rest| => Block(rest, i));
      VisitChildren(rest, |rest|, path, blocks);
      assert blocks[..|rest|] == blocks;
    }
  }

  /** Child j of the level for `rest` emits block j of the reference list,
      behind the path. */
  lemma {:induction false} VisitChild(rest: seq<char>, j: nat, path: seq<char>)
    requires WellFormed(rest) && j < |rest|
    ensures Visit(Children(rest, |rest|)[j], path) == Prepend(path, Block(rest, j))
    decreases |rest|, 0, 0
  {
    ChildrenAt(rest, |rest|, j);
    RemoveFirstOfDistinct(rest, j);
    var sub := RemoveAt(rest, j);
    RemoveAtKeepsDistinct(rest, j);
    RemoveAtContents(rest, j);
    SameSymbols(sub + [rest[j]], rest, Sentinel);
    assert multiset(sub + [rest[j]]) == multiset(rest);
    VisitLevel(rest[j], sub, path);
    PrependPrepend(path, rest[j], Perms(sub));
  }

  lemma FlattenPrefix(blocks: seq<seq<seq<char>>>, k: nat)
    requires 1 <= k <= |blocks|
    ensures Flatten(blocks[..k]) == Flatten(blocks[..k - 1]) + blocks[k - 1]
  {
    assert blocks[..k] == blocks[..k - 1] + [blocks[k - 1]];
    FlattenAppend(blocks[..k - 1], blocks[k - 1]);
  }

  /** The first k children of the level for `rest` emit the first k blocks
      of the reference list, behind the path. */
  lemma {:induction false} VisitChildren(rest: seq<char>, k: nat, path: seq<char>, blocks: seq<seq<seq<char>>>)
    requires WellFormed(rest) && 1 <= |rest| && k <= |rest|
    requires blocks == seq(|rest|, i requires 0 <= i < |rest| => Block(rest, i))
    ensures VisitFrom(Children(rest, |rest|), k, path) == Prepend(path, Flatten(blocks[..k]))
    decreases |rest|, 0, k
  {
    if k > 0 {
      VisitChildren(rest, k - 1, path, blocks);
      VisitChild(rest, k - 1, path);
      FlattenPrefix(blocks, k);
      PrependConcat(path, Flatten(blocks[..k - 1]), blocks[k - 1]);
    }
  }

  /** The enumeration of a tree over a well-formed alphabet is the reference
      list over the sorted alphabet. */
  lemma EnumerationIsPerms(alphabet: seq<char>)
    requires WellFormed(alphabet)
    ensures Visit(Level(Sentinel, SortAscending(alphabet)), []) == Perms(SortAscending(alphabet))
  {
    var sorted := SortAscending(alphabet);
    DistinctPermutation(alphabet, sorted);
    SameSymbols(alphabet, sorted, Sentinel);
    VisitLevel(Sentinel, sorted, []);
    var ps := Perms(sorted);
    assert Prepend([], ps) == ps by {
      forall i | 0 <= i < |ps| ensures [] + ps[i] == ps[i] {
      }
    }
  }

  /** getAllPerms: the list dfs collects from the root with an empty buffer.
      It has fac() entries; for a well-formed alphabet they are exactly the
      permutations of the alphabet, each once, in strictly increasing
      lexicographic order. */
  method GetAllPerms(tree: PMTree) returns (all: seq<seq<char>>)
    requires tree.Valid()
    ensures all == Enumeration(tree)
    ensures |all| == tree.factorial
    ensures WellFormed(tree.alphabet) ==>
      && (forall k :: 0 <= k < |all| ==> multiset(all[k]) == multiset(tree.alphabet))
      && StrictlySorted(all)
      && (forall p :: multiset(p) == multiset(tree.alphabet) ==> p in all)
  {
    var buf: seq<char> := [];
    var out: seq<seq<char>> := [];
    buf, out := Dfs(tree.root, buf, out);
    all := out;
    EnumerationLength(tree.alphabet);
    if WellFormed(tree.alphabet) {
      EnumerationFacts(tree.alphabet);
    }
  }

  /** The properties of the enumeration over a well-formed alphabet. */
  lemma EnumerationFacts(alphabet: seq<char>)
    requires WellFormed(alphabet)
    ensures var all := Visit(Level(Sentinel, SortAscending(alphabet)), []);
      && |all| == Fact(|alphabet|)
      && (forall k :: 0 <= k < |all| ==> multiset(all[k]) == multiset(alphabet))
      && StrictlySorted(all)
      && (forall p :: multiset(p) == multiset(alphabet) ==> p in all)
  {
    var sorted := SortAscending(alphabet);
    var all := Visit(Level(Sentinel, sorted), []);
    EnumerationIsPerms(alphabet);
    PermsLength(sorted);
    forall k | 0 <= k < |all| ensures multiset(all[k]) == multiset(alphabet) {
      PermsArePermutations(sorted, k);
    }
    SortDistinct(alphabet);
    PermsSorted(sorted);
    DistinctPermutation(alphabet, sorted);
    forall p | multiset(p) == multiset(alphabet) ensures p in all {
      var k := PermsComplete(sorted, p);
    }
  }

  /** getPerm1: builds the whole list, answers empty for a rank of 0 or past
      its end, and otherwise the entry at the 1-based rank. */
  method GetPerm1(tree: PMTree, num: nat) returns (perm: seq<char>)
    requires tree.Valid()
    ensures |Enumeration(tree)| == tree.factorial
    ensures num == 0 || num > tree.factorial ==> perm == []
    ensures 1 <= num <= tree.factorial ==> perm == Enumeration(tree)[num - 1]
  {
    var all := GetAllPerms(tree);
    if num == 0 || num > |all| {
      return [];
    }
    return all[num - 1];
  }

  /** factorialDecode: rank `num` (1-based) of the orderings of `alphabet`,
      or empty when `num` exceeds n!. A rank of 0 or an empty alphabet is
      undefined behaviour in the source, hence the precondition. */
  method FactorialDecode(num: nat, alphabet: seq<char>) returns (perm: seq<char>)
    requires num >= 1 && |alphabet| >= 1
    ensures num > Fact(|alphabet|) ==> perm == []
    ensures num <= Fact(|alphabet|) ==> perm == Unrank(num - 1, alphabet)
  {
    var n := |alphabet|;
    var fact := FactorialTable(n);
    FactStep(n);
    if num > fact[n - 1] * n {
      return [];
    }
    var pool := alphabet;
    perm := [];
    var m: nat := num - 1;
    var i := n;
    assert [] + Unrank(m, pool) == Unrank(m, pool);
    while i > 0
      invariant 0 <= i <= n && |pool| == i && |perm| + |pool| == n
      invariant m < Fact(|pool|)
      invariant perm + Unrank(m, pool) == Unrank(num - 1, alphabet)
      modifies {}  // the loop only reads the table
    {
      ghost var q, r := DecodeStep(perm, m, pool, fact[i - 1]);
      i := i - 1;
      var idx := m / fact[i];
      m := m % fact[i];
      perm := perm + [pool[idx]];
      pool := RemoveAt(pool, idx);
    }
  }

  /** The table factorialDecode fills first: fact[i] = i! for i < n. */
  method FactorialTable(n: nat) returns (fact: array<nat>)
    requires n >= 1
    ensures fresh(fact) && fact.Length == n
    ensures forall j :: 0 <= j < n ==> fact[j] == Fact(j)
  {
    fact := new nat[n];
    fact[0] := 1;
    for i := 1 to n
      invariant forall j :: 0 <= j < i ==> fact[j] == Fact(j)
    {
      FactStep(i);
      fact[i] := fact[i - 1] * i;
    }
  }

  /** One round of the decoding loop: with f = (k-1)! for a pool of k
      symbols, pool[m / f] is appended and m % f is left to decode over the
      rest of the pool. */
  lemma DecodeStep(perm: seq<char>, m: nat, pool: seq<char>, f: nat) returns (q: nat, r: nat)
    requires pool != [] && m < Fact(|pool|) && f == Fact(|pool| - 1)
    ensures q == m / f && r == m % f && q < |pool| && r < f
    ensures perm + Unrank(m, pool) == (perm + [pool[q]]) + Unrank(r, RemoveAt(pool, q))
  {
    q, r := UnrankStep(m, pool);
    var tail := Unrank(r, RemoveAt(pool, q));
    assert perm + ([pool[q]] + tail) == (perm + [pool[q]]) + tail;
  }

  /** The key-collecting loop of getPerm2: the keys of a node's children,
      in order. */
  method ChildKeys(node: PMNode) returns (keys: seq<char>)
    ensures keys == Keys(node.child)
  {
    keys := [];
    for i := 0 to |node.child|
      invariant |keys| == i
      invariant forall j :: 0 <= j < i ==> keys[j] == node.child[j].key
    {
      keys := keys + [node.child[i].key];
    }
  }

  /** getPerm2: reads the sorted alphabet off the root's children and
      decodes the rank directly. Where the rank is in range it agrees with
      getPerm1, for a well-formed alphabet. */
  method GetPerm2(tree: PMTree, num: nat) returns (perm: seq<char>)
    requires tree.Valid() && num >= 1 && tree.n >= 1
    ensures num > tree.factorial ==> perm == []
    ensures num <= tree.factorial ==> perm == Unrank(num - 1, SortAscending(tree.alphabet))
    ensures num <= tree.factorial && WellFormed(tree.alphabet) ==>
      num - 1 < |Enumeration(tree)| && perm == Enumeration(tree)[num - 1]
  {
    LevelShape(Sentinel, SortAscending(tree.alphabet));
    var alphabet := ChildKeys(tree.root);
    perm := FactorialDecode(num, alphabet);
    if num <= tree.factorial && WellFormed(tree.alphabet) {
      RanksAgree(tree, num - 1);
    }
  }

  /** For a well-formed alphabet, decoding rank m over the root's keys gives
      entry m of the tree's enumeration: getPerm2 and getPerm1 agree. */
  lemma RanksAgree(tree: PMTree, m: nat)
    requires tree.Valid() && WellFormed(tree.alphabet) && m < tree.factorial
    ensures m < |Enumeration(tree)|
    ensures Unrank(m, SortAscending(tree.alphabet)) == Enumeration(tree)[m]
  {
    DecodeAgrees(tree.alphabet, m);
  }

  /** Every entry of the enumeration is the direct decoding of its rank. */
  lemma EnumerationDecodes(tree: PMTree)
    requires tree.Valid() && WellFormed(tree.alphabet)
    ensures |Enumeration(tree)| == tree.factorial
    ensures forall m :: 0 <= m < |Enumeration(tree)| ==>
      Enumeration(tree)[m] == Unrank(m, SortAscending(tree.alphabet))
  {
    EnumerationLength(tree.alphabet);
    forall m | 0 <= m < |Enumeration(tree)|
      ensures Enumeration(tree)[m] == Unrank(m, SortAscending(tree.alphabet))
    {
      RanksAgree(tree, m);
    }
  }

  /** The enumeration has one entry per leaf, n! in all. */
  lemma EnumerationLength(alphabet: seq<char>)
    ensures |Visit(Level(Sentinel, SortAscending(alphabet)), [])| == Fact(|alphabet|)
  {
    VisitLength(Level(Sentinel, SortAscending(alphabet)), []);
    LevelLeafCount(Sentinel, SortAscending(alphabet));
  }

  /** Direct decoding of the 0-based rank m over the sorted alphabet is entry
      m of the tree's enumeration. */
  lemma DecodeAgrees(alphabet: seq<char>, m: nat)
    requires WellFormed(alphabet) && m < Fact(|alphabet|)
    ensures m < |Visit(Level(Sentinel, SortAscending(alphabet)), [])|
    ensures Unrank(m, SortAscending(alphabet)) == Visit(Level(Sentinel, SortAscending(alphabet)), [])[m]
  {
    EnumerationIsPerms(alphabet);
    UnrankIsPermsAt(m, SortAscending(alphabet));
  }
}
