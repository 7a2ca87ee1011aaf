/**
 * The loop bodies of the matchers of `class Aho`, on the arena value: the
 * automaton step of `MatchPatterns` (fall back, advance, report the dictionary
 * chain) and the literal walk of `MatchPatternsWithTriesOnly` from one start
 * position. The search loops themselves are the methods of `Aho`.
 */
module Matching {
  import opened Wrappers
  import opened Words
  import opened Occurrences
  import opened Trie

  // ---------------------------------------------------------------------------
  // What the reports at one end position are, in terms of the trie.

  /** Only the longest suffix of `t` in a trie holding every pattern matters for the patterns ending at `end`. */
  lemma {:induction false} EndingAtTrie(t: Word, end: nat, P: seq<Word>, S: set<Word>)
    requires |t| <= end && [] in S && forall p :: p in P ==> p in S
    ensures EndingAt(t, end, P) == EndingAt(LongestSuffixIn(t, S), end, P)
    decreases |t|
  {
    if t !in S {
      assert t != [] && t !in P;
      EndingAtTrie(t[1..], end, P, S);
    }
  }

  /**
   * The patterns that are suffixes of `t`, longest first: the longest pattern
   * suffix p, then the patterns that are suffixes of p's longest proper suffix.
   */
  lemma {:induction false} EndingAtLongest(t: Word, end: nat, P: seq<Word>, p: Word)
    requires |t| <= end && LongestPatternSuffix(t, P) == Some(p)
    ensures EndingAt(t, end, P) == [Match(end - |p|, |p|)] + EndingAt(Drop1(p), end, P)
    decreases |t|
  {
    if t in P {
      assert p == t && Drop1(t) == t[1..];
    } else {
      assert t != [];
      assert LongestPatternSuffix(t[1..], P) == Some(p);
      EndingAtLongest(t[1..], end, P, p);
      assert EndingAt(t, end, P) == EndingAt(t[1..], end, P);
    }
  }

  /** Without a pattern suffix there is nothing to report. */
  lemma {:induction false} EndingAtNone(t: Word, end: nat, P: seq<Word>)
    requires |t| <= end && LongestPatternSuffix(t, P).None?
    ensures EndingAt(t, end, P) == []
    decreases |t|
  {
    if t != [] {
      assert t !in P;
      assert LongestPatternSuffix(t[1..], P).None?;
      EndingAtNone(t[1..], end, P);
      assert EndingAt(t, end, P) == EndingAt(t[1..], end, P);
    }
  }

  /** The reports of a non-root node: itself when it is a word, then those of its longest proper suffix. */
  lemma ChainStart(nodes: seq<Node>, spelling: seq<Word>, P: seq<Word>, n: nat, end: nat, found: seq<Match>)
    requires Levels(nodes, spelling) && MarksPatterns(nodes, spelling, P) && 0 < n < |nodes| && nodes[n].level <= end
    requires found == if nodes[n].isWord then [Match(end - nodes[n].level, nodes[n].level)] else []
    ensures found + EndingAt(Drop1(spelling[n]), end, P) == EndingAt(spelling[n], end, P)
  {
    assert spelling[n] != [] && (nodes[n].isWord <==> spelling[n] in P) && nodes[n].level == |spelling[n]|;
    EndingAtHead(spelling[n], end, P);
  }

  /** The reports at the end of t: t itself when it is a pattern, then those of its longest proper suffix. */
  lemma EndingAtHead(t: Word, end: nat, P: seq<Word>)
    requires 0 < |t| <= end
    ensures EndingAt(t, end, P) == (if t in P then [Match(end - |t|, |t|)] else []) + EndingAt(Drop1(t), end, P)
  {
  }

  /** The dictionary link of dn names the node of the longest pattern suffix of dn's proper suffix. */
  lemma DictionaryLinkTarget(nodes: seq<Node>, spelling: seq<Word>, index: map<Word, nat>, P: seq<Word>, dn: nat, d: nat)
    requires Levels(nodes, spelling) && dn < |nodes|
    requires LinkedCorrectly(nodes, spelling, index, P, dn) && nodes[dn].dictionaryLink == Some(d)
    ensures d < |nodes| && LongestPatternSuffix(Drop1(spelling[dn]), P) == Some(spelling[d])
    ensures nodes[d].level == |spelling[d]| < |spelling[dn]| == nodes[dn].level
  {
    assert spelling[dn] != [];
  }

  /** Following the link to the longest pattern suffix p of u moves on to the next report. */
  lemma ChainNext(u: Word, p: Word, L: nat, P: seq<Word>, end: nat, found: seq<Match>, target: seq<Match>)
    requires |u| <= end && LongestPatternSuffix(u, P) == Some(p) && L == |p|
    requires found + EndingAt(u, end, P) == target
    ensures found + [Match(end - L, L)] + EndingAt(Drop1(p), end, P) == target
  {
    EndingAtLongest(u, end, P, p);
    ShiftHead(found, EndingAt(u, end, P), Match(end - L, L), EndingAt(Drop1(p), end, P), target);
  }

  /** At the end of the dictionary chain nothing is left to report. */
  lemma ChainEnd(nodes: seq<Node>, spelling: seq<Word>, index: map<Word, nat>, P: seq<Word>, dn: nat, end: nat)
    requires dn < |nodes| && LinkedCorrectly(nodes, spelling, index, P, dn) && nodes[dn].level <= end
    requires |nodes| == |spelling| && nodes[dn].level == |spelling[dn]|
    requires nodes[dn].dictionaryLink.None?
    ensures EndingAt(Drop1(spelling[dn]), end, P) == []
  {
    EndingAtNone(Drop1(spelling[dn]), end, P);
  }

  // ---------------------------------------------------------------------------
  // One step of `MatchPatterns`.

  /**
   * The fallback loop: from state n, follow failure links while there is no slot
   * for c and the root has not been reached. The longest suffix in the trie of
   * the current string followed by c does not change on the way.
   */
  method Fallback(nodes: seq<Node>, ghost spelling: seq<Word>, ghost index: map<Word, nat>, ghost P: seq<Word>,
                  n: nat, c: byte) returns (m: nat)
    requires Automaton(nodes, spelling, index, P) && n < |nodes|
    ensures m < |nodes| && (c in nodes[m].children || m == Root)
    ensures nodes[m].level <= nodes[n].level
    ensures LongestSuffixIn(spelling[m] + [c], index.Keys) == LongestSuffixIn(spelling[n] + [c], index.Keys)
  {
    m := n;
    while c !in nodes[m].children && m != Root
      invariant m < |nodes| && nodes[m].level <= nodes[n].level
      invariant LongestSuffixIn(spelling[m] + [c], index.Keys) == LongestSuffixIn(spelling[n] + [c], index.Keys)
      decreases nodes[m].level
    {
      assert LinkedCorrectly(nodes, spelling, index, P, m);
      FollowFailure(nodes, spelling, index, P, m, c);
      FailureShallower(nodes, spelling, index, P, m);
      m := nodes[m].failureLink.value;
    }
  }

  /**
   * The reports at state n after `end` bytes: n when it is a word, then each node
   * of its dictionary-link chain, each as (end - level, level). They are exactly
   * the patterns that are suffixes of n's string, longest first.
   */
  method Reports(nodes: seq<Node>, ghost spelling: seq<Word>, ghost index: map<Word, nat>, ghost P: seq<Word>,
                 n: nat, end: nat) returns (found: seq<Match>, count: nat)
    requires Levels(nodes, spelling) && MarksPatterns(nodes, spelling, P)
    requires forall k :: 0 <= k < |nodes| ==> LinkedCorrectly(nodes, spelling, index, P, k)
    requires 0 < n < |nodes| && nodes[n].level <= end
    ensures found == EndingAt(spelling[n], end, P) && count == |found|
  {
    found, count := [], 0;
    if nodes[n].isWord {
      count := count + 1;
      found := found + [Match(end - nodes[n].level, nodes[n].level)];
    }
    ChainStart(nodes, spelling, P, n, end, found);
    var dn: nat := n;
    while nodes[dn].dictionaryLink.Some?
      invariant dn < |nodes| && nodes[dn].level <= end && count == |found|
      invariant found + EndingAt(Drop1(spelling[dn]), end, P) == EndingAt(spelling[n], end, P)
      decreases nodes[dn].level
    {
      assert LinkedCorrectly(nodes, spelling, index, P, dn);
      var d := nodes[dn].dictionaryLink.value;
      DictionaryLinkTarget(nodes, spelling, index, P, dn, d);
      ChainNext(Drop1(spelling[dn]), spelling[d], nodes[d].level, P, end, found, EndingAt(spelling[n], end, P));
      count := count + 1;
      dn := d;
      found := found + [Match(end - nodes[dn].level, nodes[dn].level)];
    }
    assert LinkedCorrectly(nodes, spelling, index, P, dn);
    ChainEnd(nodes, spelling, index, P, dn, end);
  }

  /** Node n is the scan's state after reading `t`: it spells the longest suffix of `t` in the trie. */
  ghost predicate Tracks(nodes: seq<Node>, spelling: seq<Word>, index: map<Word, nat>, t: Word, n: nat) {
    n < |nodes| && |nodes| == |spelling| && [] in index && spelling[n] == LongestSuffixIn(t, index.Keys)
  }

  /**
   * The body of the scan loop for byte i of the text: fall back, move down along
   * the byte when the slot is there, and report. The new state tracks one byte
   * more, and the reports are the patterns ending after byte i, longest first.
   */
  method ScanByte(nodes: seq<Node>, ghost spelling: seq<Word>, ghost index: map<Word, nat>, ghost P: seq<Word>,
                  text: Word, i: nat, n: nat) returns (n': nat, found: seq<Match>, count: nat)
    requires Automaton(nodes, spelling, index, P) && i < |text|
    requires Tracks(nodes, spelling, index, text[..i], n)
    ensures Tracks(nodes, spelling, index, text[..i + 1], n')
    ensures found == EndingAt(text[..i + 1], i + 1, P) && count == |found|
  {
    var c := text[i];
    var m := Fallback(nodes, spelling, index, P, n, c);
    ScanWord(text, i, index, P, spelling[m]);
    n', found, count := Advance(nodes, spelling, index, P, m, c, i + 1);
  }

  /**
   * The scan step on strings: after fallback to u, the longest suffix in the trie
   * of the text up to byte i is that of u followed by byte i, and the patterns
   * ending after byte i are those that are suffixes of it.
   */
  lemma ScanWord(text: Word, i: nat, index: map<Word, nat>, P: seq<Word>, u: Word)
    requires PrefixClosed(index.Keys) && Spells(index, P) && i < |text|
    requires LongestSuffixIn(u + [text[i]], index.Keys) == LongestSuffixIn(LongestSuffixIn(text[..i], index.Keys) + [text[i]], index.Keys)
    ensures |LongestSuffixIn(text[..i], index.Keys)| <= i
    ensures LongestSuffixIn(text[..i + 1], index.Keys) == LongestSuffixIn(u + [text[i]], index.Keys)
    ensures EndingAt(text[..i + 1], i + 1, P) == EndingAt(LongestSuffixIn(u + [text[i]], index.Keys), i + 1, P)
  {
    assert text[..i + 1] == text[..i] + [text[i]];
    PatternsInTrie(index, P);
    LongestSuffixInExtend(text[..i], text[i], index.Keys);
    EndingAtTrie(text[..i + 1], i + 1, P, index.Keys);
  }

  /**
   * After the fallback loop stopped at m: move down along c when m has that slot
   * (otherwise m is the root and the state stays there), then report. The new
   * state spells the longest suffix in the trie of m's string followed by c.
   */
  method Advance(nodes: seq<Node>, ghost spelling: seq<Word>, ghost index: map<Word, nat>, ghost P: seq<Word>,
                 m: nat, c: byte, end: nat) returns (n': nat, found: seq<Match>, count: nat)
    requires Automaton(nodes, spelling, index, P)
    requires m < |nodes| && (c in nodes[m].children || m == Root) && nodes[m].level < end
    ensures n' < |nodes| && spelling[n'] == LongestSuffixIn(spelling[m] + [c], index.Keys)
    ensures found == EndingAt(spelling[n'], end, P) && count == |found|
  {
    if c in nodes[m].children {
      n' := nodes[m].children[c];
      assert spelling[n'] == spelling[m] + [c] && spelling[n'] in index.Keys;
      found, count := Reports(nodes, spelling, index, P, n', end);
    } else {
      assert spelling[m] + [c] == [c] && [c] !in index.Keys;
      assert LongestSuffixIn([c], index.Keys) == LongestSuffixIn([c][1..], index.Keys);
      n', found, count := Root, [], 0;
    }
  }

  // ---------------------------------------------------------------------------
  // The literal walk of `MatchPatternsWithTriesOnly` from one start position.

  /**
   * The walk from start position i has consumed text[i..j] and stands at node n,
   * which spells it; `found`, followed by the matches from i of length at least
   * j - i that end by `end`, is every match from i that ends by `end`.
   */
  ghost predicate Walking(nodes: seq<Node>, spelling: seq<Word>, P: seq<Word>, text: Word,
                          i: nat, end: nat, j: nat, n: nat, found: seq<Match>) {
    && i <= j <= end <= |text| && n < |nodes| == |spelling|
    && spelling[n] == text[i..j]
    && found + StartingAt(text, P, i, j - i, end) == StartingAt(text, P, i, 0, end)
  }

  /** The walk starts at the root with nothing found. */
  lemma WalkStart(nodes: seq<Node>, spelling: seq<Word>, index: map<Word, nat>, P: seq<Word>, text: Word, i: nat, end: nat)
    requires Shape(nodes, spelling, index) && i <= end <= |text|
    ensures Walking(nodes, spelling, P, text, i, end, i, Root, [])
  {
    assert text[i..i] == [];
  }

  /** Reporting node n when it is a word accounts for the match of length j - i. */
  lemma WalkReport(nodes: seq<Node>, spelling: seq<Word>, P: seq<Word>, text: Word,
                   i: nat, end: nat, j: nat, n: nat, found: seq<Match>)
    requires Levels(nodes, spelling) && MarksPatterns(nodes, spelling, P)
    requires Walking(nodes, spelling, P, text, i, end, j, n, found)
    ensures found + (if nodes[n].isWord then [Match(i, nodes[n].level)] else []) + StartingAt(text, P, i, j - i + 1, end)
            == StartingAt(text, P, i, 0, end)
  {
    var m := if nodes[n].isWord then [Match(i, nodes[n].level)] else [];
    assert StartingAt(text, P, i, j - i, end) == m + StartingAt(text, P, i, j - i + 1, end);
    assert found + m + StartingAt(text, P, i, j - i + 1, end) == found + (m + StartingAt(text, P, i, j - i + 1, end));
  }

  /** Moving down along text[j], when there is a slot for it and the bound allows, keeps the walk's state. */
  lemma WalkStep(nodes: seq<Node>, spelling: seq<Word>, index: map<Word, nat>, P: seq<Word>, text: Word,
                 i: nat, end: nat, j: nat, n: nat, found: seq<Match>, found': seq<Match>)
    requires Shape(nodes, spelling, index) && MarksPatterns(nodes, spelling, P)
    requires Walking(nodes, spelling, P, text, i, end, j, n, found)
    requires found' == found + (if nodes[n].isWord then [Match(i, nodes[n].level)] else [])
    requires j < end && text[j] in nodes[n].children
    ensures Walking(nodes, spelling, P, text, i, end, j + 1, nodes[n].children[text[j]], found')
  {
    WalkReport(nodes, spelling, P, text, i, end, j, n, found);
    assert text[i..j + 1] == text[i..j] + [text[j]];
  }

  /** When there is no slot for text[j] the walk has left the trie and nothing is left to find. */
  lemma WalkStop(nodes: seq<Node>, spelling: seq<Word>, index: map<Word, nat>, P: seq<Word>, text: Word,
                 i: nat, end: nat, j: nat, n: nat, found: seq<Match>, found': seq<Match>)
    requires Shape(nodes, spelling, index) && MarksPatterns(nodes, spelling, P)
    requires forall p :: p in P ==> p in index
    requires Walking(nodes, spelling, P, text, i, end, j, n, found)
    requires found' == found + (if nodes[n].isWord then [Match(i, nodes[n].level)] else [])
    requires j < |text| && text[j] !in nodes[n].children
    ensures found' == StartingAt(text, P, i, 0, end)
  {
    WalkReport(nodes, spelling, P, text, i, end, j, n, found);
    assert text[i..j + 1] == spelling[n] + [text[j]];
    assert text[i..j + 1] !in index.Keys;
    StartingAtOutsideTrie(text, P, index.Keys, i, j + 1 - i, end);
  }

  /** At the bound nothing is left to find. */
  lemma WalkEnd(nodes: seq<Node>, spelling: seq<Word>, P: seq<Word>, text: Word,
                i: nat, end: nat, j: nat, n: nat, found: seq<Match>, found': seq<Match>)
    requires Levels(nodes, spelling) && MarksPatterns(nodes, spelling, P)
    requires Walking(nodes, spelling, P, text, i, end, j, n, found)
    requires found' == found + (if nodes[n].isWord then [Match(i, nodes[n].level)] else [])
    requires j == end
    ensures found' == StartingAt(text, P, i, 0, end)
  {
    WalkReport(nodes, spelling, P, text, i, end, j, n, found);
  }

  /**
   * The do/while loop from start position i, as written: report the current node
   * when it is a word, consume a byte, and go on while the slot was there and
   * bytes remain. The node reached by consuming the last byte is never examined,
   * so the walk reports the pattern occurrences starting at i that end before the
   * last byte, shortest first.
   */
  method WalkFrom(nodes: seq<Node>, ghost spelling: seq<Word>, ghost index: map<Word, nat>, ghost P: seq<Word>,
                  text: Word, i: nat) returns (found: seq<Match>, count: nat)
    requires Shape(nodes, spelling, index) && MarksPatterns(nodes, spelling, P)
    requires forall p :: p in P ==> p in index
    requires i < |text|
    ensures found == StartingAt(text, P, i, 0, |text| - 1) && count == |found|
  {
    found, count := [], 0;
    var n: nat := Root;
    var j: nat := i;
    var more := true;
    ghost var end: nat := |text| - 1;
    WalkStart(nodes, spelling, index, P, text, i, end);
    while more
      invariant i <= j <= |text| && count == |found|
      invariant more ==> j < |text| && Walking(nodes, spelling, P, text, i, end, j, n, found)
      invariant !more ==> found == StartingAt(text, P, i, 0, end)
      decreases |text| - j
    {
      ghost var before := found;
      if nodes[n].isWord {
        count := count + 1;
        found := found + [Match(i, nodes[n].level)];
      }
      var c := text[j];
      var next: Option<nat> := if c in nodes[n].children then Some(nodes[n].children[c]) else None;
      j := j + 1;
      more := next.Some? && j < |text|;
      if more {
        WalkStep(nodes, spelling, index, P, text, i, end, j - 1, n, before, found);
        n := next.value;
      } else if next.None? {
        WalkStop(nodes, spelling, index, P, text, i, end, j - 1, n, before, found);
      } else {
        WalkEnd(nodes, spelling, P, text, i, end, j - 1, n, before, found);
      }
    }
  }

  /**
   * The walk from start position i once the node reached at the end of the text
   * is examined too: every pattern occurrence starting at i, shortest first.
   */
  method WalkFromToEnd(nodes: seq<Node>, ghost spelling: seq<Word>, ghost index: map<Word, nat>, ghost P: seq<Word>,
                       text: Word, i: nat) returns (found: seq<Match>, count: nat)
    requires Shape(nodes, spelling, index) && MarksPatterns(nodes, spelling, P)
    requires forall p :: p in P ==> p in index
    requires i < |text|
    ensures found == StartingAt(text, P, i, 0, |text|) && count == |found|
  {
    found, count := [], 0;
    var n: nat := Root;
    var j: nat := i;
    var more := true;
    WalkStart(nodes, spelling, index, P, text, i, |text|);
    while more
      invariant i <= j <= |text| && count == |found|
      invariant more ==> Walking(nodes, spelling, P, text, i, |text|, j, n, found)
      invariant !more ==> found == StartingAt(text, P, i, 0, |text|)
      decreases |text| - j, more
    {
      ghost var before := found;
      if nodes[n].isWord {
        count := count + 1;
        found := found + [Match(i, nodes[n].level)];
      }
      if j == |text| {
        WalkEnd(nodes, spelling, P, text, i, |text|, j, n, before, found);
        more := false;
      } else if text[j] in nodes[n].children {
        WalkStep(nodes, spelling, index, P, text, i, |text|, j, n, before, found);
        j, n := j + 1, nodes[n].children[text[j]];
      } else {
        WalkStop(nodes, spelling, index, P, text, i, |text|, j, n, before, found);
        more := false;
      }
    }
  }

  // ---------------------------------------------------------------------------
  // The brute-force search.

  /**
   * `find`: for each pattern in turn, every occurrence of it, in increasing
   * position. Occurrences may overlap and duplicated patterns are searched
   * once per copy.
   */
  method Find(P: seq<Word>, text: Word) returns (matches: seq<Match>, occurrence: nat)
    ensures matches == FindSpec(P, text) && occurrence == |matches|
  {
    matches, occurrence := [], 0;
    for i := 0 to |P|
      invariant matches == FindSpec(P[..i], text) && occurrence == |matches|
    {
      var found: seq<Match>;
      var count: nat;
      found, count := FindOne(P[i], text);
      assert P[..i + 1][..i] == P[..i];
      matches, occurrence := matches + found, occurrence + count;
    }
    assert P[..|P|] == P;
  }

  /**
   * The inner loop of `find` for one pattern: jump from one occurrence to the next
   * with `std::string::find`, restarting one position after each occurrence found.
   */
  method FindOne(p: Word, text: Word) returns (found: seq<Match>, count: nat)
    ensures found == Positions(p, text, 0) && count == |found|
  {
    found, count := [], 0;
    var j: nat := 0;
    var next := StringFind(text, p, j);
    while next.Some?
      invariant j <= |text| + 1 && next == StringFind(text, p, j) && count == |found|
      invariant found + Positions(p, text, j) == Positions(p, text, 0)
      decreases |text| + 1 - j
    {
      var r := next.value;
      NextOccurrence(p, text, j, found);
      found := found + [Match(r, |p|)];
      j := r + 1;
      count := count + 1;
      next := StringFind(text, p, j);
    }
    PositionsByFind(p, text, j);
  }

  /** Moving the search on past the occurrence found keeps the reports to come the same. */
  lemma NextOccurrence(p: Word, text: Word, j: nat, found: seq<Match>)
    requires StringFind(text, p, j).Some?
    ensures StringFind(text, p, j).value + 1 <= |text| + 1
    ensures found + [Match(StringFind(text, p, j).value, |p|)] + Positions(p, text, StringFind(text, p, j).value + 1)
            == found + Positions(p, text, j)
  {
    PositionsByFind(p, text, j);
    var r := StringFind(text, p, j).value;
    assert found + [Match(r, |p|)] + Positions(p, text, r + 1) == found + ([Match(r, |p|)] + Positions(p, text, r + 1));
  }
}
