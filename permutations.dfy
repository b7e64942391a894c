/** The reference the permutation engine is measured against: the list of all
    orderings of a symbol sequence in lexicographic order, and the
    factorial-number-system decoding of a rank into one of them. */
module Permutations {
  import opened SeqUtil

  /** Strict lexicographic order on symbol sequences (a proper prefix comes
      first), comparing symbols by code point. */
  predicate LexLess(a: seq<char>, b: seq<char>)
    decreases |a|
  {
    |b| > 0 && (|a| == 0 || a[0] < b[0] || (a[0] == b[0] && LexLess(a[1..], b[1..])))
  }

  /** Every earlier entry is lexicographically smaller than every later one. */
  predicate StrictlySorted(ps: seq<seq<char>>)
  {
    forall i, j :: 0 <= i < j < |ps| ==> LexLess(ps[i], ps[j])
  }

  /** `pfx` put in front of every sequence of `ps`. */
  function Prepend(pfx: seq<char>, ps: seq<seq<char>>): (r: seq<seq<char>>)
    ensures |r| == |ps|
    ensures forall i :: 0 <= i < |ps| ==> r[i] == pfx + ps[i]
  {
    seq(|ps|, i requires 0 <= i < |ps| => pfx + ps[i])
  }

  /** The block of orderings of `s` that start with s[i]. */
  function Block(s: seq<char>, i: nat): seq<seq<char>>
    requires i < |s|
    decreases |s|, 0
  {
    Prepend([s[i]], Perms(RemoveAt(s, i)))
  }

  /** All orderings of `s`: for each position i in turn, s[i] followed by the
      orderings of the rest. For a strictly increasing `s` this is the
      lexicographically sorted list of its permutations. */
  function Perms(s: seq<char>): (r: seq<seq<char>>)
    decreases |s|, 1
  {
    if s == [] then [[]]
    else Flatten(seq(|s|, i requires 0 <= i < |s| => Block(s, i)))
  }

  lemma {:induction false} PermsLength(s: seq<char>)
    ensures |Perms(s)| == Fact(|s|)
    decreases |s|
  {
    if s != [] {
      var f := Fact(|s| - 1);
      var blocks := seq(|s|, i requires 0 <= i < |s| => Block(s, i));
      forall i | 0 <= i < |s| ensures |blocks[i]| == f {
        PermsLength(RemoveAt(s, i));
      }
      FlattenIndex(blocks, f, 0, 0, 0);
    }
  }

  /** Position k = q * (n-1)! + r of the list is s[q] followed by entry r of
      the orderings of s without s[q]. */
  lemma PermsAt(s: seq<char>, q: nat, r: nat, k: nat)
    requires q < |s| && r < Fact(|s| - 1) && k == q * Fact(|s| - 1) + r
    ensures |Perms(RemoveAt(s, q))| == Fact(|s| - 1)
    ensures k < |Perms(s)|
    ensures Perms(s)[k] == [s[q]] + Perms(RemoveAt(s, q))[r]
  {
    var f := Fact(|s| - 1);
    var blocks := seq(|s|, i requires 0 <= i < |s| => Block(s, i));
    forall i | 0 <= i < |s| ensures |blocks[i]| == f {
      PermsLength(RemoveAt(s, i));
    }
    FlattenIndex(blocks, f, q, r, k);
  }

  /** Any rank below n! splits into a leading symbol s[q] and a rank r among
      the orderings of the remaining symbols. */
  lemma PermsSplit(s: seq<char>, k: nat) returns (q: nat, r: nat)
    requires k < Fact(|s|) && s != []
    ensures q == k / Fact(|s| - 1) && r == k % Fact(|s| - 1)
    ensures q < |s| && r < Fact(|s| - 1) && k == q * Fact(|s| - 1) + r
    ensures |Perms(RemoveAt(s, q))| == Fact(|s| - 1)
    ensures k < |Perms(s)|
    ensures Perms(s)[k] == [s[q]] + Perms(RemoveAt(s, q))[r]
  {
    var f := Fact(|s| - 1);
    DivBound(k, f, |s|);
    q, r := k / f, k % f;
    PermsAt(s, q, r, k);
  }

  /** Every entry of the list is a rearrangement of `s`. */
  lemma {:induction false} PermsArePermutations(s: seq<char>, k: nat)
    requires k < |Perms(s)|
    ensures multiset(Perms(s)[k]) == multiset(s)
    ensures |Perms(s)[k]| == |s|
    decreases |s|
  {
    if s != [] {
      PermsLength(s);
      var q, r := PermsSplit(s, k);
      PermsArePermutations(RemoveAt(s, q), r);
      RemoveAtContents(s, q);
    }
  }

  lemma LexLessPrefix(c: char, a: seq<char>, b: seq<char>)
    ensures LexLess([c] + a, [c] + b) <==> LexLess(a, b)
  {
    assert ([c] + a)[1..] == a;
    assert ([c] + b)[1..] == b;
  }

  /** For strictly increasing symbols the list is strictly increasing in
      lexicographic order (so, in particular, without repeats). */
  lemma {:induction false} PermsSorted(s: seq<char>)
    requires StrictlyAscending(s)
    ensures StrictlySorted(Perms(s))
    decreases |s|
  {
    if s != [] {
      var ps := Perms(s);
      var f := Fact(|s| - 1);
      PermsLength(s);
      forall i, j | 0 <= i < j < |ps| ensures LexLess(ps[i], ps[j]) {
        var q1, r1 := PermsSplit(s, i);
        var q2, r2 := PermsSplit(s, j);
        MixedRadixOrder(q1, r1, q2, r2, f);
        if q1 == q2 {
          RemoveAtKeepsStrictlyAscending(s, q1);
          PermsSorted(RemoveAt(s, q1));
          LexLessPrefix(s[q1], Perms(RemoveAt(s, q1))[r1], Perms(RemoveAt(s, q1))[r2]);
        }
      }
    }
  }

  /** Entry r of the orderings of s without s[q], behind s[q], is listed
      for s at position k. */
  lemma PermsCons(s: seq<char>, q: nat, r: nat) returns (k: nat)
    requires q < |s| && r < |Perms(RemoveAt(s, q))|
    ensures k < |Perms(s)| && Perms(s)[k] == [s[q]] + Perms(RemoveAt(s, q))[r]
  {
    PermsLength(RemoveAt(s, q));
    k := q * Fact(|s| - 1) + r;
    PermsAt(s, q, r, k);
  }

  /** For symbols without repeats, every rearrangement is in the list; `k`
      is its position. */
  lemma {:induction false} PermsComplete(s: seq<char>, p: seq<char>) returns (k: nat)
    requires Distinct(s) && multiset(p) == multiset(s)
    ensures k < |Perms(s)| && Perms(s)[k] == p
    decreases |s|
  {
    assert |p| == |multiset(p)| == |s|;
    if s == [] {
      k := 0;
    } else {
      assert p[0] in multiset(s);
      var q := IndexOf(s, p[0]);
      var rest := RemoveAt(s, q);
      assert p == [p[0]] + p[1..];
      RemoveAtContents(s, q);
      assert multiset(p[1..]) == multiset(rest);
      RemoveAtKeepsDistinct(s, q);
      var r := PermsComplete(rest, p[1..]);
      k := PermsCons(s, q, r);
    }
  }

  /** Factorial-number-system decoding of the 0-based rank `m`: the leading
      symbol is pool[m / (k-1)!] for a pool of k symbols, and the remainder
      is decoded over the pool without it. */
  function Unrank(m: nat, pool: seq<char>): (r: seq<char>)
    requires m < Fact(|pool|)
    ensures |r| == |pool|
    decreases |pool|
  {
    if pool == [] then []
    else
      var f := Fact(|pool| - 1);
      DivBound(m, f, |pool|);
      var idx := m / f;
      [pool[idx]] + Unrank(m % f, RemoveAt(pool, idx))
  }

  /** Decoding yields a rearrangement of the pool. */
  lemma {:induction false} UnrankPermutes(m: nat, pool: seq<char>)
    requires m < Fact(|pool|)
    ensures multiset(Unrank(m, pool)) == multiset(pool)
    decreases |pool|
  {
    if pool != [] {
      var q, r := UnrankStep(m, pool);
      UnrankPermutes(r, RemoveAt(pool, q));
      RemoveAtContents(pool, q);
    }
  }

  /** One step of the decoding: the leading symbol and the rank left over. */
  lemma UnrankStep(m: nat, pool: seq<char>) returns (q: nat, r: nat)
    requires m < Fact(|pool|) && pool != []
    ensures q == m / Fact(|pool| - 1) && r == m % Fact(|pool| - 1)
    ensures q < |pool| && r < Fact(|pool| - 1)
    ensures Unrank(m, pool) == [pool[q]] + Unrank(r, RemoveAt(pool, q))
  {
    var f := Fact(|pool| - 1);
    DivBound(m, f, |pool|);
    q, r := m / f, m % f;
  }

  /** Direct decoding and the full list agree at every rank. */
  lemma {:induction false} UnrankIsPermsAt(m: nat, s: seq<char>)
    requires m < Fact(|s|)
    ensures m < |Perms(s)|
    ensures Unrank(m, s) == Perms(s)[m]
    decreases |s|
  {
    PermsLength(s);
    if s != [] {
      var q, r := PermsSplit(s, m);
      var q', r' := UnrankStep(m, s);
      assert q' == q && r' == r;
      var rest := RemoveAt(s, q);
      assert |rest| == |s| - 1;
      UnrankIsPermsAt(r, rest);
      assert Unrank(m, s) == [s[q]] + Unrank(r, rest);
      assert Perms(s)[m] == [s[q]] + Perms(rest)[r];
    }
  }

  /** Rank 0 is the sequence itself. */
  lemma {:induction false} UnrankFirst(s: seq<char>)
    ensures Unrank(0, s) == s
    decreases |s|
  {
    if s != [] {
      var q, r := UnrankStep(0, s);
      DivModUnique(0, Fact(|s| - 1), 0, 0);
      UnrankFirst(RemoveAt(s, 0));
      assert RemoveAt(s, 0) == s[1..];
    }
  }

  /** Decoding the rank m = q * (k-1)! + r of a pool of k symbols takes
      pool[q] first and decodes r over the others. */
  lemma UnrankAt(pool: seq<char>, q: nat, r: nat, m: nat)
    requires q < |pool| && r < Fact(|pool| - 1)
    requires m == q * Fact(|pool| - 1) + r
    ensures m < Fact(|pool|)
    ensures Unrank(m, pool) == [pool[q]] + Unrank(r, RemoveAt(pool, q))
  {
    var f := Fact(|pool| - 1);
    MulMono(|pool|, q + 1, f);
    DivModUnique(m, f, q, r);
    var q', r' := UnrankStep(m, pool);
  }

  /** The last rank, m = n! - 1, is the sequence reversed. */
  lemma {:induction false} UnrankLast(s: seq<char>, m: nat)
    requires |s| >= 1 && m == Fact(|s|) - 1
    ensures m < Fact(|s|)
    ensures Unrank(m, s) == Reverse(s)
    decreases |s|
  {
    var rest := s[..|s| - 1];
    var m' := Fact(|s| - 1) - 1;
    LastRank(|s|);
    UnrankAt(s, |s| - 1, m', m);
    assert RemoveAt(s, |s| - 1) == rest;
    if |s| > 1 {
      UnrankLast(rest, m');
    }
  }
}
