/** The demonstration run of src/main.cpp over the alphabet 1, 2, 3, and,
    beyond it, the first rank past the end, stated as facts about the model. */
module Scenarios {
  import opened SeqUtil
  import opened Permutations
  import opened PermTree
  import opened PermAccess

  /** The six orderings of three symbols a, b, c by 0-based rank, as
      decoded: lexicographic order when a < b < c. */
  lemma DecodeThree(a: char, b: char, c: char)
    ensures Fact(3) == 6
    ensures Unrank(0, [a, b, c]) == [a, b, c]
    ensures Unrank(1, [a, b, c]) == [a, c, b]
    ensures Unrank(2, [a, b, c]) == [b, a, c]
    ensures Unrank(3, [a, b, c]) == [b, c, a]
    ensures Unrank(4, [a, b, c]) == [c, a, b]
    ensures Unrank(5, [a, b, c]) == [c, b, a]
  {
    assert Fact(3) == 6;
    var s := [a, b, c];
    UnrankFirst(s);
    assert RemoveAt(s, 0) == [b, c];
    assert RemoveAt(s, 1) == [a, c];
    assert RemoveAt(s, 2) == [a, b];
    DecodeRank(s, 0, 1, 1);
    DecodeRank(s, 1, 0, 2);
    DecodeRank(s, 1, 1, 3);
    DecodeRank(s, 2, 0, 4);
    UnrankLast(s, 5);
    assert Reverse(s) == [c, b, a];
  }

  /** Rank m = q * 2 + r of three symbols: the symbol at q, then rank r of
      the other two, which is either their order (r = 0) or its reverse. */
  lemma DecodeRank(s: seq<char>, q: nat, r: nat, m: nat)
    requires |s| == 3 && q < 3 && r < 2 && m == q * 2 + r
    ensures m < Fact(3)
    ensures Unrank(m, s) == [s[q]] + (if r == 0 then RemoveAt(s, q) else Reverse(RemoveAt(s, q)))
  {
    var rest := RemoveAt(s, q);
    assert Fact(2) == 2 && Fact(3) == 6;
    UnrankAt(s, q, r, m);
    if r == 0 {
      UnrankFirst(rest);
    } else {
      UnrankLast(rest, r);
    }
  }

  /** The demonstration: build the tree over 1, 2, 3, list all orderings,
      fetch rank 2 by enumeration and rank 5 by decoding; beyond the
      demonstration, both getters are asked for rank 7, one past the end. */
  method Demo() returns (all: seq<seq<char>>, p1: seq<char>, p2: seq<char>, past1: seq<char>, past2: seq<char>)
    ensures |all| == 6
    ensures all[0] == "123" && all[1] == "132" && all[2] == "213"
    ensures all[3] == "231" && all[4] == "312" && all[5] == "321"
    ensures p1 == "132"
    ensures p2 == "312"
    ensures past1 == [] && past2 == []
  {
    var tree := new PMTree("123");
    DemoAlphabetSorted();
    all := GetAllPerms(tree);
    DemoEnumeration(tree);
    p1 := GetPerm1(tree, 2);
    p2 := GetPerm2(tree, 5);
    past1 := GetPerm1(tree, 7);
    past2 := GetPerm2(tree, 7);
  }

  /** The tree over 1, 2, 3 lists the six orderings in lexicographic order. */
  lemma DemoEnumeration(tree: PMTree)
    requires tree.Valid() && tree.alphabet == "123"
    ensures |Enumeration(tree)| == 6
    ensures Enumeration(tree)[0] == "123" && Enumeration(tree)[1] == "132"
    ensures Enumeration(tree)[2] == "213" && Enumeration(tree)[3] == "231"
    ensures Enumeration(tree)[4] == "312" && Enumeration(tree)[5] == "321"
  {
    DemoAlphabetSorted();
    assert Fact(3) == 6;
    DecodeThree('1', '2', '3');
    EnumerationDecodes(tree);
    var e := Enumeration(tree);
    assert e[0] == "123" && e[1] == "132" && e[2] == "213";
    assert e[3] == "231" && e[4] == "312" && e[5] == "321";
    assert |e| == 6;
  }

  /** The constructor's sort leaves 1, 2, 3 as it is. */
  lemma DemoAlphabetSorted()
    ensures SortAscending("123") == "123"
    ensures WellFormed("123")
  {
    var s := "123";
    assert s[0] == '1' && s[1] == '2' && s[2] == '3';
    assert StrictlyAscending(s);
    SortAscendingFixes(s);
  }
}
