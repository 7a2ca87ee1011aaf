/**
 * What the built automaton and the three matchers promise, stated on the arena
 * and on the reference definitions: the trie holds each pattern at a word node,
 * the links are the longest suffixes they are meant to be, and the single-pass
 * scan reports exactly what the brute-force search reports.
 */
module Properties {
  import opened Wrappers
  import opened Words
  import opened Occurrences
  import opened Trie

  // ---------------------------------------------------------------------------
  // The trie.

  /** Walking from the root along a pattern reaches a word node whose level is the pattern's length. */
  lemma PatternReached(nodes: seq<Node>, spelling: seq<Word>, index: map<Word, nat>, P: seq<Word>, p: Word)
    requires Built(nodes, spelling, index, P) && p in P
    ensures Walk(nodes, Root, p).Some?
    ensures Walk(nodes, Root, p).value < |nodes|
    ensures nodes[Walk(nodes, Root, p).value].isWord && nodes[Walk(nodes, Root, p).value].level == |p|
  {
    PatternsInTrie(index, P);
    WalkFollowsLabels(nodes, spelling, index, Root, p);
    assert spelling[Root] + p == p;
  }

  /** A child one slot below node k is one level deeper and carries the slot's byte. */
  lemma ChildLevel(nodes: seq<Node>, spelling: seq<Word>, index: map<Word, nat>, k: nat, b: byte)
    requires Shape(nodes, spelling, index) && k < |nodes| && b in nodes[k].children
    ensures 0 < nodes[k].children[b] < |nodes|
    ensures nodes[nodes[k].children[b]].level == nodes[k].level + 1
    ensures nodes[nodes[k].children[b]].c == b
  {
    var m := nodes[k].children[b];
    assert spelling[m] == spelling[k] + [b];
    assert m != Root by {
      assert spelling[m] != [];
    }
  }

  // ---------------------------------------------------------------------------
  // The failure links.

  /** The root's failure link is the root and it has no dictionary link. */
  lemma RootLinks(nodes: seq<Node>, spelling: seq<Word>, index: map<Word, nat>, P: seq<Word>)
    requires Automaton(nodes, spelling, index, P)
    ensures nodes[Root].failureLink == Some(Root) && nodes[Root].dictionaryLink == None
  {
    assert LinkedCorrectly(nodes, spelling, index, P, Root);
    var f := nodes[Root].failureLink.value;
    assert spelling[f] == [] == spelling[Root];
  }

  /** A depth-1 node fails to the root and has no dictionary link. */
  lemma DepthOneLinks(nodes: seq<Node>, spelling: seq<Word>, index: map<Word, nat>, P: seq<Word>, k: nat)
    requires Automaton(nodes, spelling, index, P) && k < |nodes| && nodes[k].level == 1
    ensures nodes[k].failureLink == Some(Root) && nodes[k].dictionaryLink == None
  {
    assert LinkedCorrectly(nodes, spelling, index, P, k);
    assert Drop1(spelling[k]) == [];
    var f := nodes[k].failureLink.value;
    assert spelling[f] == [] == spelling[Root];
  }

  /**
   * Below the root, the failure link leads to a node whose string is a proper
   * suffix of the node's string, and no longer proper suffix is in the trie.
   */
  lemma FailureLinkLongest(nodes: seq<Node>, spelling: seq<Word>, index: map<Word, nat>, P: seq<Word>, k: nat, s: Word)
    requires Levels(nodes, spelling) && 0 < k < |nodes| && LinkedCorrectly(nodes, spelling, index, P, k)
    requires s in index && IsSuffix(s, spelling[k]) && |s| < |spelling[k]|
    ensures nodes[k].failureLink.Some? && nodes[k].failureLink.value < |nodes|
    ensures IsSuffix(spelling[nodes[k].failureLink.value], spelling[k])
    ensures nodes[nodes[k].failureLink.value].level < nodes[k].level
    ensures |s| <= nodes[nodes[k].failureLink.value].level
  {
    var t := spelling[k];
    assert t != [];
    LongestSuffixInIsSuffix(Drop1(t), index.Keys);
    ProperSuffix(spelling[nodes[k].failureLink.value], t);
    ProperSuffix(s, t);
    LongestSuffixInIsLongest(Drop1(t), index.Keys, s);
  }

  // ---------------------------------------------------------------------------
  // The dictionary links.

  /**
   * Below the root, the dictionary link is the failure target when that is a
   * word, and the failure target's own dictionary link otherwise: the nearest word
   * strictly up the failure chain.
   */
  lemma DictionaryFollowsFailure(nodes: seq<Node>, spelling: seq<Word>, index: map<Word, nat>, P: seq<Word>, k: nat)
    requires Automaton(nodes, spelling, index, P) && 0 < k < |nodes|
    ensures nodes[k].failureLink.Some? && nodes[k].failureLink.value < |nodes|
    ensures nodes[k].dictionaryLink == DictionaryTarget(nodes, nodes[k].failureLink.value)
  {
    assert LinkedCorrectly(nodes, spelling, index, P, k);
    var f := nodes[k].failureLink.value;
    assert LinkedCorrectly(nodes, spelling, index, P, f);
    DictionaryStep(nodes, spelling, index, P, Drop1(spelling[k]), f);
    match nodes[k].dictionaryLink
    case None =>
    case Some(d) =>
      var e := DictionaryTarget(nodes, f).value;
      assert spelling[d] == spelling[e];
      assert d == index[spelling[d]] == e;
  }

  /** A dictionary link leads to a word node whose string is a proper suffix of the node's string. */
  lemma DictionaryLinkIsWord(nodes: seq<Node>, spelling: seq<Word>, index: map<Word, nat>, P: seq<Word>, k: nat)
    requires MarksPatterns(nodes, spelling, P) && Levels(nodes, spelling)
    requires k < |nodes| && LinkedCorrectly(nodes, spelling, index, P, k) && nodes[k].dictionaryLink.Some?
    ensures nodes[k].dictionaryLink.value < |nodes|
    ensures nodes[nodes[k].dictionaryLink.value].isWord
    ensures IsSuffix(spelling[nodes[k].dictionaryLink.value], spelling[k])
    ensures nodes[nodes[k].dictionaryLink.value].level < nodes[k].level
  {
    assert spelling[k] != [];
    LongestPatternSuffixIsSuffix(Drop1(spelling[k]), P);
    ProperSuffix(spelling[nodes[k].dictionaryLink.value], spelling[k]);
  }

  /** The dictionary link is null exactly when no pattern is a proper suffix of the node's string. */
  lemma DictionaryLinkNull(nodes: seq<Node>, spelling: seq<Word>, index: map<Word, nat>, P: seq<Word>, k: nat)
    requires Automaton(nodes, spelling, index, P) && k < |nodes|
    ensures nodes[k].dictionaryLink.None? <==>
              forall s :: s in P && IsSuffix(s, spelling[k]) ==> |s| == |spelling[k]|
  {
    assert LinkedCorrectly(nodes, spelling, index, P, k);
    var t := spelling[k];
    if nodes[k].dictionaryLink.None? {
      forall s | s in P && IsSuffix(s, t) ensures |s| == |t| {
        if |s| < |t| {
          assert s != [] by {
            var q :| 0 <= q < |P| && P[q] == s;
          }
          ProperSuffix(s, t);
          LongestPatternSuffixIsLongest(Drop1(t), P, s);
        }
      }
    } else {
      DictionaryLinkIsWord(nodes, spelling, index, P, k);
      var d := spelling[nodes[k].dictionaryLink.value];
      assert d in P && IsSuffix(d, t) && |d| < |t|;
    }
  }

  // ---------------------------------------------------------------------------
  // The matchers against the brute-force search.

  /** At most one pattern occurrence per (offset, length) pair: the scan reports no match twice. */
  lemma ScanDistinct(text: Word, P: seq<Word>)
    ensures Distinct(AhoSpec(text, P))
  {
    AhoUpToOrdered(text, P, |text|);
  }

  /**
   * For non-empty patterns the scan and the brute-force search report the same
   * matches, each of them a genuine occurrence.
   */
  lemma ScanAgreesWithFind(text: Word, P: seq<Word>)
    requires NonEmptyPatterns(P)
    ensures forall m :: m in AhoSpec(text, P) <==> m in FindSpec(P, text)
    ensures forall m :: m in AhoSpec(text, P) ==> IsOccurrence(m, text, P)
  {
    AhoUpToMembers(text, P, |text|);
    FindSpecMembers(P, text);
    forall m | IsOccurrence(m, text, P) ensures 0 < m.length {
      var q :| 0 <= q < |P| && P[q] == text[m.offset..End(m)];
    }
  }

  /** For distinct non-empty patterns the scan and the brute-force search count the same. */
  lemma ScanCountsAsFind(text: Word, P: seq<Word>)
    requires NonEmptyPatterns(P) && Distinct(P)
    ensures |AhoSpec(text, P)| == |FindSpec(P, text)|
  {
    ScanAgreesWithFind(text, P);
    ScanDistinct(text, P);
    FindSpecDistinct(P, text);
    SameElementsSameLength(AhoSpec(text, P), FindSpec(P, text));
  }

  /** The trie walk as written reports exactly the occurrences that end before the last byte. */
  lemma TrieOnlyMembers(text: Word, P: seq<Word>)
    ensures forall m :: m in TrieOnlySpec(text, P) <==> IsOccurrence(m, text, P) && End(m) < |text|
  {
    if text != [] {
      TrieWalkUpToMembers(text, P, |text|, |text| - 1);
    }
  }

  /** With the last node examined, the trie walk reports what the scan reports. */
  lemma CorrectedAgreesWithScan(text: Word, P: seq<Word>)
    requires NonEmptyPatterns(P)
    ensures forall m :: m in CorrectedTrieOnlySpec(text, P) <==> m in AhoSpec(text, P)
  {
    TrieWalkUpToMembers(text, P, |text|, |text|);
    AhoUpToMembers(text, P, |text|);
    forall m | IsOccurrence(m, text, P) ensures 0 < m.length {
      var q :| 0 <= q < |P| && P[q] == text[m.offset..End(m)];
    }
  }

  /** A text made of the byte 97 ('a') only. */
  ghost predicate AllA(text: Word) {
    forall k :: 0 <= k < |text| ==> text[k] == 97
  }

  /**
   * The counterexample generalised: for the pattern "a" in a non-empty run of n
   * bytes "a", the trie walk as written reports n - 1 matches, while the scan and
   * the corrected walk report n.
   */
  lemma TrieOnlyOnRun(text: Word)
    requires AllA(text) && text != []
    ensures |TrieOnlySpec(text, [[97]])| == |text| - 1
    ensures |CorrectedTrieOnlySpec(text, [[97]])| == |text|
    ensures |AhoSpec(text, [[97]])| == |text|
  {
    RunWalk(text, |text|, |text| - 1);
    RunWalk(text, |text|, |text|);
    RunScan(text, |text|);
  }

  /** The concrete instance: pattern "a", text "aaaa". */
  lemma TrieOnlyMissesLastByte()
    ensures |TrieOnlySpec([97, 97, 97, 97], [[97]])| == 3
    ensures |CorrectedTrieOnlySpec([97, 97, 97, 97], [[97]])| == 4
    ensures |AhoSpec([97, 97, 97, 97], [[97]])| == 4
  {
    TrieOnlyOnRun([97, 97, 97, 97]);
  }

  /** In a run of "a", no match of "a" has length 2 or more. */
  lemma {:induction false} RunLonger(text: Word, i: nat, k: nat, end: nat)
    requires AllA(text) && end <= |text| && 2 <= k
    ensures StartingAt(text, [[97]], i, k, end) == []
    decreases end + 1 - i - k
  {
    if i + k <= end {
      assert |text[i..i + k]| == k;
      RunLonger(text, i, k + 1, end);
    }
  }

  /** In a run of "a", the walk from i finds "a" once when the bound allows it, else nothing. */
  lemma RunStartingAt(text: Word, i: nat, end: nat)
    requires AllA(text) && i <= end <= |text|
    ensures StartingAt(text, [[97]], i, 0, end) == if i < end then [Match(i, 1)] else []
  {
    assert text[i..i] == [] && [] !in [[97]];
    if i < end {
      assert text[i..i + 1] == [97];
      RunLonger(text, i, 2, end);
    }
  }

  /** In a run of "a", the walk from the first i start positions reports min(i, end) matches. */
  lemma {:induction false} RunWalk(text: Word, i: nat, end: nat)
    requires AllA(text) && i <= |text| && end <= |text|
    ensures |TrieWalkUpTo(text, [[97]], i, end)| == if i <= end then i else end
  {
    if i > 0 {
      RunWalk(text, i - 1, end);
      if i - 1 <= end {
        RunStartingAt(text, i - 1, end);
      } else {
        assert StartingAt(text, [[97]], i - 1, 0, end) == [];
      }
    }
  }

  /** In a run of "a", the scan reports one match per byte. */
  lemma {:induction false} RunScan(text: Word, i: nat)
    requires AllA(text) && i <= |text|
    ensures |AhoUpTo(text, [[97]], i)| == i
  {
    if i > 0 {
      RunScan(text, i - 1);
      EndingAtSingle(text[..i], i);
    }
  }

  /** A non-empty run of "a" ending at `end` has exactly one suffix that is "a". */
  lemma {:induction false} EndingAtSingle(t: Word, end: nat)
    requires 0 < |t| <= end && AllA(t)
    ensures EndingAt(t, end, [[97]]) == [Match(end - 1, 1)]
    decreases |t|
  {
    if |t| > 1 {
      assert t != [97];
      EndingAtSingle(t[1..], end);
    } else {
      assert t == [97];
    }
  }
}
