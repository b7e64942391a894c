/** Sequence, factorial and ordering helpers shared by the permutation tree
    and the permutation access algorithms. */
module SeqUtil {

  /** n!, with 0! = 1. */
  function Fact(n: nat): (r: nat)
    ensures r >= 1
  {
    if n == 0 then 1 else n * Fact(n - 1)
  }

  /** The step of the factorial recurrence, as the tables are built. */
  lemma FactStep(n: nat)
    requires n >= 1
    ensures Fact(n) == Fact(n - 1) * n
  {
  }

  /** Every symbol occurs at most once. */
  predicate Distinct(s: seq<char>)
  {
    forall i, j :: 0 <= i < j < |s| ==> s[i] != s[j]
  }

  /** Non-decreasing order, as std::sort leaves a vector. */
  predicate Ascending(s: seq<char>)
  {
    forall i, j :: 0 <= i < j < |s| ==> s[i] <= s[j]
  }

  /** Strictly increasing order. */
  predicate StrictlyAscending(s: seq<char>)
  {
    forall i, j :: 0 <= i < j < |s| ==> s[i] < s[j]
  }

  /** `v.erase(v.begin() + i)`: the sequence without its i-th element. */
  function RemoveAt(s: seq<char>, i: nat): (r: seq<char>)
    requires i < |s|
    ensures |r| == |s| - 1
  {
    s[..i] + s[i + 1..]
  }

  /** What erasing position i keeps: the elements before i in place, those
      after it shifted down by one, and the symbols less one s[i]. */
  lemma RemoveAtContents(s: seq<char>, i: nat)
    requires i < |s|
    ensures forall k :: 0 <= k < i ==> RemoveAt(s, i)[k] == s[k]
    ensures forall k :: i <= k < |s| - 1 ==> RemoveAt(s, i)[k] == s[k + 1]
    ensures multiset(RemoveAt(s, i)) == multiset(s) - multiset{s[i]}
  {
    assert s == s[..i] + [s[i]] + s[i + 1..];
  }

  /** `std::find(v.begin(), v.end(), c)` for a symbol that occurs in `s`:
      the position of its first occurrence. */
  function IndexOf(s: seq<char>, c: char): (i: nat)
    requires c in s
    ensures i < |s| && s[i] == c
    ensures forall j :: 0 <= j < i ==> s[j] != c
  {
    if s[0] == c then 0 else 1 + IndexOf(s[1..], c)
  }

  /** `v.erase(std::find(v.begin(), v.end(), c))`: drops the first
      occurrence of `c`. */
  function RemoveFirst(s: seq<char>, c: char): (r: seq<char>)
    requires c in s
    ensures |r| == |s| - 1
  {
    RemoveAt(s, IndexOf(s, c))
  }

  /** What erasing the first occurrence of `c` keeps: everything before it
      in place, everything after it shifted down by one, and the symbols
      less exactly one `c`. */
  lemma RemoveFirstContents(s: seq<char>, c: char)
    requires c in s
    ensures forall k :: 0 <= k < IndexOf(s, c) ==> RemoveFirst(s, c)[k] == s[k]
    ensures forall k :: IndexOf(s, c) <= k < |s| - 1 ==> RemoveFirst(s, c)[k] == s[k + 1]
    ensures multiset(RemoveFirst(s, c)) == multiset(s) - multiset{c}
  {
    RemoveAtContents(s, IndexOf(s, c));
  }

  /** In a sequence without repeats, removing the first occurrence of s[i]
      is removing position i. */
  lemma RemoveFirstOfDistinct(s: seq<char>, i: nat)
    requires Distinct(s) && i < |s|
    ensures RemoveFirst(s, s[i]) == RemoveAt(s, i)
  {
    assert IndexOf(s, s[i]) == i;
  }

  lemma RemoveAtKeepsDistinct(s: seq<char>, i: nat)
    requires Distinct(s) && i < |s|
    ensures Distinct(RemoveAt(s, i))
  {
    var r := RemoveAt(s, i);
    RemoveAtContents(s, i);
    forall a, b | 0 <= a < b < |r| ensures r[a] != r[b] {
      var a' := if a < i then a else a + 1;
      var b' := if b < i then b else b + 1;
      assert r[a] == s[a'] && r[b] == s[b'] && a' < b';
    }
  }

  lemma RemoveAtKeepsStrictlyAscending(s: seq<char>, i: nat)
    requires StrictlyAscending(s) && i < |s|
    ensures StrictlyAscending(RemoveAt(s, i))
  {
    var r := RemoveAt(s, i);
    RemoveAtContents(s, i);
    forall a, b | 0 <= a < b < |r| ensures r[a] < r[b] {
      var a' := if a < i then a else a + 1;
      var b' := if b < i then b else b + 1;
      assert r[a] == s[a'] && r[b] == s[b'] && a' < b';
    }
  }

  lemma {:induction false} DistinctCounts(s: seq<char>)
    requires Distinct(s)
    ensures forall x :: multiset(s)[x] <= 1
  {
    if s != [] {
      assert s == [s[0]] + s[1..];
      assert Distinct(s[1..]) by {
        forall a, b | 0 <= a < b < |s[1..]| ensures s[1..][a] != s[1..][b] {
          assert s[1..][a] == s[a + 1] && s[1..][b] == s[b + 1];
        }
      }
      DistinctCounts(s[1..]);
      assert s[0] !in s[1..] by {
        forall k | 0 <= k < |s[1..]| ensures s[1..][k] != s[0] {
          assert s[1..][k] == s[k + 1];
        }
      }
      assert multiset(s) == multiset{s[0]} + multiset(s[1..]);
    }
  }

  lemma TwoOccurrences(s: seq<char>, i: nat, j: nat)
    requires i < j < |s|
    ensures s[i] == s[j] ==> multiset(s)[s[i]] >= 2
  {
    assert s == s[..j] + s[j..];
    assert s[i] in s[..j];
    assert s[j] in s[j..];
    assert multiset(s) == multiset(s[..j]) + multiset(s[j..]);
  }

  lemma CountsDistinct(s: seq<char>)
    requires forall x :: multiset(s)[x] <= 1
    ensures Distinct(s)
  {
    forall i, j | 0 <= i < j < |s| ensures s[i] != s[j] {
      TwoOccurrences(s, i, j);
    }
  }

  /** Two sequences holding the same multiset of symbols agree on having
      no repeats. */
  lemma DistinctPermutation(s: seq<char>, t: seq<char>)
    requires multiset(s) == multiset(t) && Distinct(s)
    ensures Distinct(t)
  {
    DistinctCounts(s);
    CountsDistinct(t);
  }

  /** Inserts `x` into an ascending sequence, keeping it ascending. */
  function Insert(x: char, s: seq<char>): (r: seq<char>)
    requires Ascending(s)
    ensures Ascending(r)
    ensures multiset(r) == multiset(s) + multiset{x}
  {
    if s == [] then [x]
    else if x <= s[0] then [x] + s
    else
      var tail := Insert(x, s[1..]);
      InsertHead(x, s, tail);
      assert s == [s[0]] + s[1..];
      [s[0]] + tail
  }

  /** After inserting x > s[0] into the tail of an ascending s, s[0] is
      still no larger than anything in the result. */
  lemma InsertHead(x: char, s: seq<char>, tail: seq<char>)
    requires Ascending(s) && s != [] && s[0] < x
    requires multiset(tail) == multiset(s[1..]) + multiset{x}
    ensures forall k :: 0 <= k < |tail| ==> s[0] <= tail[k]
  {
    forall k | 0 <= k < |tail| ensures s[0] <= tail[k] {
      assert tail[k] in multiset(tail);
      if tail[k] != x {
        assert tail[k] in multiset(s[1..]);
        var j :| 0 <= j < |s[1..]| && s[1..][j] == tail[k];
        assert s[j + 1] == tail[k];
      }
    }
  }

  /** The `std::sort` of the constructor: an ascending rearrangement. */
  function SortAscending(s: seq<char>): (r: seq<char>)
    ensures Ascending(r)
    ensures multiset(r) == multiset(s)
    ensures |r| == |s|
  {
    if s == [] then []
    else
      assert s == [s[0]] + s[1..];
      Insert(s[0], SortAscending(s[1..]))
  }

  /** Sorting an already ascending sequence leaves it unchanged. */
  lemma {:induction false} SortAscendingFixes(s: seq<char>)
    requires Ascending(s)
    ensures SortAscending(s) == s
  {
    if s != [] {
      var tail := s[1..];
      assert Ascending(tail) by {
        forall i, j | 0 <= i < j < |tail| ensures tail[i] <= tail[j] {
          assert tail[i] == s[i + 1] && tail[j] == s[j + 1];
        }
      }
      SortAscendingFixes(tail);
      assert SortAscending(s) == Insert(s[0], tail);
      assert s == [s[0]] + tail;
      if tail != [] {
        assert tail[0] == s[1];
      }
    }
  }

  /** Rearrangements hold the same symbols. */
  lemma SameSymbols(s: seq<char>, t: seq<char>, c: char)
    requires multiset(s) == multiset(t)
    ensures c in s <==> c in t
  {
    assert c in s <==> c in multiset(s);
    assert c in t <==> c in multiset(t);
  }

  /** Sorting symbols without repeats yields a strictly increasing sequence. */
  lemma SortDistinct(s: seq<char>)
    requires Distinct(s)
    ensures StrictlyAscending(SortAscending(s))
  {
    var r := SortAscending(s);
    DistinctPermutation(s, r);
  }

  /** Concatenation of a sequence of sequences, in order. */
  function Flatten<T>(ss: seq<seq<T>>): seq<T>
  {
    if ss == [] then [] else Flatten(ss[..|ss| - 1]) + ss[|ss| - 1]
  }

  lemma FlattenAppend<T>(ss: seq<seq<T>>, x: seq<T>)
    ensures Flatten(ss + [x]) == Flatten(ss) + x
  {
    assert (ss + [x])[..|ss|] == ss;
  }

  /** Sum of a sequence of naturals. */
  function Sum(xs: seq<nat>): nat
  {
    if xs == [] then 0 else Sum(xs[..|xs| - 1]) + xs[|xs| - 1]
  }

  lemma {:induction false} FlattenLength<T>(ss: seq<seq<T>>, lens: seq<nat>)
    requires |lens| == |ss|
    requires forall i :: 0 <= i < |ss| ==> |ss[i]| == lens[i]
    ensures |Flatten(ss)| == Sum(lens)
  {
    if ss != [] {
      FlattenLength(ss[..|ss| - 1], lens[..|lens| - 1]);
    }
  }

  lemma {:induction false} SumConstant(xs: seq<nat>, c: nat)
    requires forall i :: 0 <= i < |xs| ==> xs[i] == c
    ensures Sum(xs) == |xs| * c
  {
    if xs != [] {
      SumConstant(xs[..|xs| - 1], c);
    }
  }

  /** In a concatenation of blocks of equal length f, position k = q * f + r
      holds element r of block q. */
  lemma {:induction false} FlattenIndex<T>(ss: seq<seq<T>>, f: nat, q: nat, r: nat, k: nat)
    requires forall i :: 0 <= i < |ss| ==> |ss[i]| == f
    requires q < |ss| && r < f && k == q * f + r
    ensures |Flatten(ss)| == |ss| * f
    ensures k < |Flatten(ss)|
    ensures Flatten(ss)[k] == ss[q][r]
  {
    var init := ss[..|ss| - 1];
    FlattenLength(ss, seq(|ss|, i => f));
    SumConstant(seq(|ss|, i => f), f);
    FlattenLength(init, seq(|init|, i => f));
    SumConstant(seq(|init|, i => f), f);
    assert |Flatten(init)| == (|ss| - 1) * f;
    MulMono(|ss| - 1, q + 1, f);
    if q < |ss| - 1 {
      FlattenIndex(init, f, q, r, k);
    } else {
      assert k - |Flatten(init)| == r;
    }
  }

  lemma MulMono(a: nat, b: nat, f: nat)
    ensures a >= b ==> a * f >= b * f
  {
    if a >= b {
      assert a * f == b * f + (a - b) * f;
    }
  }

  /** k * f as k repeated additions, for proofs that count block by block. */
  function Times(k: nat, f: nat): nat
  {
    if k == 0 then 0 else Times(k - 1, f) + f
  }

  lemma {:induction false} TimesIsProduct(k: nat, f: nat)
    ensures Times(k, f) == k * f
  {
    if k > 0 {
      TimesIsProduct(k - 1, f);
      assert (k - 1) * f + f == k * f;
    }
  }

  /** A rank k below n * f splits into a block q < n and an offset r < f. */
  lemma DivBound(k: nat, f: nat, n: nat)
    requires f >= 1 && k < n * f
    ensures k / f < n
    ensures k == (k / f) * f + k % f && k % f < f
  {
    MulMono(k / f, n, f);
  }

  /** Mixed-radix positions compare like (block, offset) pairs. */
  lemma MixedRadixOrder(q1: nat, r1: nat, q2: nat, r2: nat, f: nat)
    requires r1 < f && r2 < f
    requires q1 * f + r1 < q2 * f + r2
    ensures q1 < q2 || (q1 == q2 && r1 < r2)
  {
    MulMono(q1, q2 + 1, f);
  }

  /** Division by f is determined by a quotient/remainder decomposition. */
  lemma DivModUnique(k: nat, f: nat, q: nat, r: nat)
    requires r < f && k == q * f + r
    ensures k / f == q && k % f == r
  {
    MulMono(k / f, q + 1, f);
    MulMono(q, k / f + 1, f);
  }

  /** The last of n * f ranks. */
  lemma LastRank(n: nat)
    requires n >= 1
    ensures Fact(n) - 1 == (n - 1) * Fact(n - 1) + (Fact(n - 1) - 1)
  {
  }

  /** The sequence read backwards. */
  function Reverse(s: seq<char>): (r: seq<char>)
    ensures |r| == |s|
    ensures forall i :: 0 <= i < |s| ==> r[i] == s[|s| - 1 - i]
  {
    if s == [] then [] else [s[|s| - 1]] + Reverse(s[..|s| - 1])
  }
}
