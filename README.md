# Permutation tree, modelled in Dafny

This project models the permutation engine of a small C++ teaching project.
The engine has three parts:

- A **permutation tree** (`PMTree`). It is built from an alphabet of symbols. Its root carries the sentinel key `'*'`. Each node has one child per symbol that remains, in ascending order. Each child's subtree is built from the remaining symbols minus that child's symbol.
- **`getAllPerms`**. A depth-first walk with a backtracking path buffer (`dfs`). It emits one permutation per leaf.
- **Two ways to fetch the permutation of a given 1-based rank:**
  - `getPerm1` builds the full list and indexes it.
  - `getPerm2` reads the sorted alphabet off the root's children. It then decodes the rank in the factorial number system (`factorialDecode`), which repeatedly divides by `i!` and erases `pool[idx]`.

The model is split into these modules:

| file | module | contents |
|---|---|---|
| `seq_util.dfy` | `SeqUtil` | shared helpers: factorial, `std::sort` as an ascending rearrangement (`SortAscending`), `vector::erase` at a position or at the first occurrence, and mixed-radix arithmetic |
| `permutations.dfy` | `Permutations` | the reference the engine is measured against: `Perms(s)`, the list of all orderings of `s` (lexicographic for strictly increasing `s`), and `Unrank(m, s)`, the factorial-number-system decoding of a 0-based rank |
| `perm_tree.dfy` | `PermTree` | see below |
| `perm_access.dfy` | `PermAccess` | see below |
| `scenarios.dfy` | `Scenarios` | the demonstration of `src/main.cpp` over `1, 2, 3` |

`PermTree` holds the tree:

- `PMNode` is a value: a key and the sequence of children it owns.
- `Level(key, rest)` is the node `buildLevel` produces. The method `BuildLevel` is proved to build exactly that node.
- `PMTree` is a class. Its fields `root`, `n` and `factorial` are set once, by the constructor. The accessors `Root`, `Size` and `Fac` read them.

`PermAccess` holds the algorithms:

- `dfs` becomes the method `Dfs`, specified by the function `Visit`.
- `factorialDecode` becomes the method `FactorialDecode`, specified by `Unrank`.
- `getAllPerms`, `getPerm1` and `getPerm2` become the methods `GetAllPerms`, `GetPerm1` and `GetPerm2`.
- The lemmas tie the walk to the reference list: there are n! entries, each entry is a permutation, the list is strictly increasing and complete, and `getPerm1` and `getPerm2` agree at every rank from 1 to n! for a well-formed alphabet (no repeated symbol, no `'*'`).

A note on the demonstration. The comment at `src/main.cpp:36` says that rank 5 of `1, 2, 3` is `321`. The decoder yields `312`: `4 / 2 = 2` picks `3`, then `0 / 1 = 0` picks `1`, then `2`. `Scenarios.Demo` proves `312`, and `Scenarios.DemoEnumeration` proves `312` is entry 4 of the enumeration. The code is right here; only the comment is wrong.

## Model

| member | source | states |
|---|---|---|
| SeqUtil.SortAscending | src/alg.cpp:18-19 | the sorted copy of the alphabet is in ascending order, has the same length and holds the same symbols with the same multiplicities |
| SeqUtil.SortAscendingFixes | src/alg.cpp:19 | sorting an already ascending alphabet leaves it unchanged |
| SeqUtil.SortDistinct | src/alg.cpp:19 | sorting an alphabet with no repeated symbols gives a strictly increasing sequence |
| SeqUtil.IndexOf | src/alg.cpp:28 | `std::find` of a present symbol gives the position of its first occurrence |
| SeqUtil.RemoveAt | src/alg.cpp:65 | `pool.erase(pool.begin() + idx)`: erasing one position leaves one symbol fewer; what it keeps is stated by `RemoveAtContents` |
| SeqUtil.RemoveFirst | src/alg.cpp:27-28 | `next.erase(std::find(...))` on a symbol of `rest`: erasing its first occurrence leaves one symbol fewer |
| SeqUtil.RemoveFirstContents | src/alg.cpp:27-28 | erasing the first occurrence of `c` keeps the symbols before it in place, shifts the later ones down by one, and removes exactly one `c`, so a repeated symbol keeps its other copies |
| SeqUtil.RemoveAtContents | src/alg.cpp:65 | erasing position i keeps the elements before i, shifts later ones down by one, and removes exactly one copy of the erased symbol |
| SeqUtil.RemoveFirstOfDistinct | src/alg.cpp:27-28 | without repeated symbols, erasing the first occurrence of `rest[i]` is the same as erasing position i |
| Permutations.PermsLength | src/alg.cpp:72-77 | the reference list of orderings of n symbols has n! entries |
| Permutations.PermsArePermutations | src/alg.cpp:72-77 | every entry of the reference list is a rearrangement of the symbols, of the same length |
| Permutations.PermsSorted | src/alg.cpp:72-77 | for strictly increasing symbols the reference list is strictly increasing in lexicographic order, so it has no repeats |
| Permutations.PermsComplete | src/alg.cpp:72-77 | for distinct symbols every rearrangement occurs in the reference list, at a position that is returned |
| Permutations.Unrank | src/alg.cpp:58-67 | decoding a rank below k! over a pool of k symbols yields k symbols |
| Permutations.UnrankPermutes | src/alg.cpp:58-67 | decoding a rank yields a rearrangement of the pool |
| Permutations.UnrankStep | src/alg.cpp:61-66 | one decoding round takes `pool[m / (k-1)!]` with index below k, and leaves the rank `m % (k-1)!`, which is below (k-1)!, to decode over the pool without that symbol |
| Permutations.UnrankIsPermsAt | src/alg.cpp:49-68 | decoding rank m gives exactly entry m of the reference list |
| Permutations.UnrankFirst | src/alg.cpp:49-68 | the first rank decodes to the alphabet in its given order |
| Permutations.UnrankLast | src/alg.cpp:49-68 | the last rank, n! - 1, decodes to the alphabet reversed |
| PermTree.NewNode | include/tree.h:9-14 | `PMNode(k)` holds key `k` and an empty child list that later appends fill in order; such a node is a single leaf, and it is exactly what buildLevel leaves a node as when no symbol remains |
| PermTree.LevelShape | src/alg.cpp:23-31 | the node built for `rest` keeps its key and is a leaf exactly when `rest` is empty, and its children's keys are `rest` in order |
| PermTree.ChildrenAt | src/alg.cpp:25-30 | child j carries `rest[j]`, and its subtree is built from `rest` with the first occurrence of `rest[j]` erased |
| PermTree.LevelLeafCount | src/alg.cpp:23-31 | the subtree built from k remaining symbols has k! leaves, with or without repeated symbols |
| PermTree.BuildLevel | src/alg.cpp:23-32 | the recursive construction, with its loop over `rest` and its appends to the child list, builds exactly the node `Level(key, rest)` |
| PermTree.PMTree.Valid | src/alg.cpp:13-21 | the state the constructor establishes and every accessor and getter relies on: size = alphabet length, factorial = size!, root = sentinel level over the sorted alphabet; it implies the root's key is `'*'` and the factorial is at least 1 |
| PermTree.PMTree.constructor | src/alg.cpp:13-21 | after construction the size is the alphabet's length, the factorial is size! (1 for sizes 0 and 1, from the initial value), and the root is the sentinel over the sorted alphabet |
| PermTree.PMTree.Root | include/tree.h:20 | the root has the sentinel key, and its children's keys are the sorted alphabet, holding the same symbols as the input |
| PermTree.PMTree.Size | include/tree.h:21 | the size is the length of the alphabet given to the constructor |
| PermTree.PMTree.Fac | include/tree.h:22 | `fac()` is size! and equals the number of leaves of the tree |
| PermAccess.Dfs | src/alg.cpp:37-47 | the walk hands the path buffer back unchanged, and appends to `out` exactly the key paths of the leaves, left to right, with the sentinel skipped |
| PermAccess.VisitLength | src/alg.cpp:37-47 | the walk emits one sequence per leaf |
| PermAccess.VisitLevel | src/alg.cpp:37-47 | for a well-formed alphabet, walking the subtree built for `rest` emits the path so far followed by each ordering of `rest`, in reference order |
| PermAccess.EnumerationIsPerms | src/alg.cpp:72-77 | for a well-formed alphabet the enumeration of the tree is the reference list over the sorted alphabet |
| PermAccess.EnumerationLength | src/alg.cpp:72-77 | the enumeration has n! entries for every alphabet |
| PermAccess.EnumerationFacts | src/alg.cpp:72-77 | for a well-formed alphabet the enumeration has n! entries, each a permutation of the alphabet, is strictly increasing in lexicographic order, and contains every permutation |
| PermAccess.GetAllPerms | src/alg.cpp:72-77 | returns the tree's enumeration, which has `fac()` entries, and for a well-formed alphabet has the properties in the row above |
| PermAccess.GetPerm1 | src/alg.cpp:79-83 | empty for rank 0 or a rank beyond `fac()`, otherwise the entry of the enumeration at the 1-based rank |
| PermAccess.FactorialTable | src/alg.cpp:52-54 | the table holds i! at every index i below n |
| PermAccess.DecodeStep | src/alg.cpp:61-66 | one round of the loop keeps the invariant: what has been emitted, followed by the decoding of what is left, is the decoding of the whole rank |
| PermAccess.FactorialDecode | src/alg.cpp:49-68 | empty for a rank above n!, otherwise the decoding of the 0-based rank over the given alphabet |
| PermAccess.ChildKeys | src/alg.cpp:87-88 | the collecting loop gathers the keys of the root's children, in order |
| PermAccess.GetPerm2 | src/alg.cpp:85-90 | empty for a rank above `fac()`, otherwise the decoding over the sorted alphabet; for a well-formed alphabet this is the same entry of the enumeration that `getPerm1` returns |
| PermAccess.RanksAgree | src/alg.cpp:79-90 | for a well-formed alphabet, decoding any rank below `fac()` gives the enumeration's entry at that rank |
| PermAccess.EnumerationDecodes | src/alg.cpp:72-90 | for a well-formed alphabet, every entry of the enumeration is the decoding of its own rank |
| PermAccess.DecodeAgrees | src/alg.cpp:49-77 | for a well-formed alphabet, direct decoding over the sorted alphabet matches the tree walk at every rank below n! |
| Scenarios.DecodeThree | src/alg.cpp:49-68 | the six ranks of three symbols a, b, c decode to abc, acb, bac, bca, cab, cba |
| Scenarios.DemoAlphabetSorted | src/main.cpp:24 | the demonstration alphabet `1, 2, 3` is already sorted and is well formed |
| Scenarios.DemoEnumeration | src/main.cpp:24-31 | the tree over `1, 2, 3` lists 123, 132, 213, 231, 312, 321 |
| Scenarios.Demo | src/main.cpp:24-36 | the demonstration lists those six, `getPerm1` at rank 2 gives 132, `getPerm2` at rank 5 gives 312, and, beyond the demonstration, both return empty at rank 7 |

## Left out

- `src/main.cpp` apart from its demonstration is left out: timing with `std::chrono`, random ranks from `mt19937_64`, console output, and matplotlib plotting and file saving. These are I/O, benchmarking and calls into a foreign library.
- `size_t` arithmetic is not modelled. Factorials and ranks are unbounded naturals, so the wrap-around of `factorial_` and `fact[]` for alphabets longer than 20 is not captured.
- Memory management is not modelled: `unique_ptr` ownership and recursive destruction. Nodes are immutable values, so a tree is finite and unshared by construction. `buildLevel` builds each child's subtree, then appends it, in place of mutating a node behind a pointer.
- The signedness of `char` is not modelled. Symbols are Dafny `char`, ordered by code point, so `std::sort` is modelled as sorting in code-point order.
- PermAccess.Dfs: the by-reference `buf` and `out` are passed in and returned, not aliased.
- PermAccess.GetPerm2: requires a rank of at least 1 and a non-empty alphabet. Otherwise the source has undefined behaviour. With rank 0, `--num` wraps to `SIZE_MAX` at src/alg.cpp:60, so `pool[idx]` at src/alg.cpp:64 reads out of range. With an empty alphabet, src/alg.cpp:53 writes `fact[0]` of an empty table.
- PermAccess.FactorialDecode: requires a rank of at least 1 and a non-empty alphabet, for the same reasons as `getPerm2`.
- PermAccess.FactorialDecode: the factorial table and `getPerm2`'s key-collecting loop are separate methods (`FactorialTable`, `ChildKeys`), called where the source runs those loops.
- Symbols equal to `'*'` and repeated symbols are not excluded when the tree is built. `PermTree.LevelLeafCount` and `PermAccess.EnumerationLength` hold for any alphabet. Only the properties that need such alphabets excluded assume `WellFormed`: permutations, sortedness, completeness, and agreement of the two getters.
- For the empty alphabet, the model's enumeration is the single empty sequence, because the root is then a leaf, as in the source. `getPerm2` is excluded there because of the undefined behaviour above.
