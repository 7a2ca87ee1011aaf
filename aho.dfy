/**
 * `class Aho`: the automaton, built once from the patterns and then only read by
 * the two matchers.
 */
module AhoCorasick {
  import opened Wrappers
  import opened Words
  import opened Occurrences
  import opened Trie
  import opened Linking
  import opened Matching

  /** The prefixes of `s` of length at most j. */
  ghost function PrefixesUpTo(s: Word, j: nat): set<Word>
    requires j <= |s|
  {
    if j == 0 then {[]} else PrefixesUpTo(s, j - 1) + {s[..j]}
  }

  /** `nodes` extends `nodes0` with fresh nodes, keeps the old strings, and marks the same words. */
  ghost predicate Grows(nodes0: seq<Node>, spelling0: seq<Word>, nodes: seq<Node>, spelling: seq<Word>) {
    && |nodes0| <= |nodes| && |spelling0| == |nodes0| && |spelling| == |nodes|
    && spelling[..|nodes0|] == spelling0
    && forall k :: 0 <= k < |nodes| ==> nodes[k].isWord == (k < |nodes0| && nodes0[k].isWord)
  }

  lemma GrowsRefl(nodes: seq<Node>, spelling: seq<Word>)
    requires |spelling| == |nodes|
    ensures Grows(nodes, spelling, nodes, spelling)
  {
  }

  lemma AddChildGrows(nodes0: seq<Node>, spelling0: seq<Word>, nodes: seq<Node>, spelling: seq<Word>, n: nat, c: byte, t: Word)
    requires Grows(nodes0, spelling0, nodes, spelling) && n < |nodes| && Unlinked(nodes)
    ensures Grows(nodes0, spelling0, WithChild(nodes, n, c), spelling + [t]) && Unlinked(WithChild(nodes, n, c))
  {
    var nodes' := WithChild(nodes, n, c);
    assert (spelling + [t])[..|nodes0|] == spelling[..|nodes0|];
    forall k | 0 <= k < |nodes'| ensures nodes'[k].isWord == (k < |nodes0| && nodes0[k].isWord) {
      if k < |nodes| {
        assert nodes'[k].isWord == nodes[k].isWord;
      }
    }
  }

  lemma {:induction false} PrefixesUpToMembers(s: Word, j: nat)
    requires j <= |s|
    ensures forall t :: t in PrefixesUpTo(s, j) <==> IsPrefix(t, s) && |t| <= j
  {
    if j > 0 {
      PrefixesUpToMembers(s, j - 1);
      forall t | IsPrefix(t, s) && |t| <= j ensures t in PrefixesUpTo(s, j) {
        assert t == s[..|t|];
      }
    }
  }

  /**
   * The state of the descent along `s` after j steps, started on the trie
   * (nodes0, spelling0, index0): node n spells the first j bytes of `s`, and the
   * trie has grown by exactly the prefixes of `s` of length at most j.
   */
  ghost predicate Descent(nodes0: seq<Node>, spelling0: seq<Word>, index0: map<Word, nat>,
                          nodes: seq<Node>, spelling: seq<Word>, index: map<Word, nat>, s: Word, j: nat, n: nat) {
    && j <= |s|
    && Shape(nodes, spelling, index) && Unlinked(nodes)
    && n < |nodes| && spelling[n] == s[..j]
    && index.Keys == index0.Keys + PrefixesUpTo(s, j)
    && Grows(nodes0, spelling0, nodes, spelling)
  }

  /** The arena after the insertion step at node n for byte c: an empty slot gets a new node one level deeper. */
  function Filled(nodes: seq<Node>, n: nat, c: byte): (r: seq<Node>)
    requires n < |nodes|
    ensures n < |r| && c in r[n].children
    ensures c in nodes[n].children ==> r == nodes
    ensures c !in nodes[n].children ==>
              && |r| == |nodes| + 1 && r[n].children[c] == |nodes|
              && r[|nodes|] == NewNode(nodes[n].level + 1, c)
              && r[n] == nodes[n].(children := nodes[n].children[c := |nodes|])
              && forall k :: 0 <= k < |nodes| && k != n ==> r[k] == nodes[k]
  {
    if c in nodes[n].children then nodes else WithChild(nodes, n, c)
  }

  /** The strings of the arena `Filled(nodes, n, c)`. */
  ghost function FilledSpelling(nodes: seq<Node>, spelling: seq<Word>, n: nat, c: byte): seq<Word>
    requires n < |nodes| && n < |spelling|
  {
    if c in nodes[n].children then spelling else spelling + [spelling[n] + [c]]
  }

  /** The string index of the arena `Filled(nodes, n, c)`. */
  ghost function FilledIndex(nodes: seq<Node>, spelling: seq<Word>, index: map<Word, nat>, n: nat, c: byte): map<Word, nat>
    requires n < |nodes| && n < |spelling|
  {
    if c in nodes[n].children then index else index[spelling[n] + [c] := |nodes|]
  }

  /** One step of the descent: fill the slot for s[j] when it is empty, then follow it. */
  lemma DescentStep(nodes0: seq<Node>, spelling0: seq<Word>, index0: map<Word, nat>,
                    nodes: seq<Node>, spelling: seq<Word>, index: map<Word, nat>, s: Word, j: nat, n: nat)
    requires Descent(nodes0, spelling0, index0, nodes, spelling, index, s, j, n) && j < |s|
    ensures n < |Filled(nodes, n, s[j])| && s[j] in Filled(nodes, n, s[j])[n].children
    ensures Descent(nodes0, spelling0, index0, Filled(nodes, n, s[j]), FilledSpelling(nodes, spelling, n, s[j]),
                    FilledIndex(nodes, spelling, index, n, s[j]), s, j + 1, Filled(nodes, n, s[j])[n].children[s[j]])
    ensures s[..j + 1] in index ==>
              && Filled(nodes, n, s[j]) == nodes
              && FilledSpelling(nodes, spelling, n, s[j]) == spelling
              && FilledIndex(nodes, spelling, index, n, s[j]) == index
  {
    var c := s[j];
    var t := spelling[n] + [c];
    assert s[..j + 1] == t;
    if c !in nodes[n].children {
      AddChildKeepsShape(nodes, spelling, index, n, c);
      AddChildGrows(nodes0, spelling0, nodes, spelling, n, c, t);
    }
  }

  /**
   * The walk of `Insert` on an arena value: from the root along `s`, filling each
   * empty slot on the way. Returns the grown arena and the node of `s`.
   */
  method DescendFrom(nodes0: seq<Node>, ghost spelling0: seq<Word>, ghost index0: map<Word, nat>, s: Word)
    returns (nodes: seq<Node>, ghost spelling: seq<Word>, ghost index: map<Word, nat>, n: nat)
    requires Shape(nodes0, spelling0, index0) && Unlinked(nodes0)
    ensures Descent(nodes0, spelling0, index0, nodes, spelling, index, s, |s|, n)
    ensures s in index0 ==> nodes == nodes0 && spelling == spelling0 && index == index0
  {
    nodes, spelling, index := nodes0, spelling0, index0;
    ghost var dup := s in index0;
    if dup {
      forall j | 0 <= j <= |s| ensures s[..j] in index0 {
        PrefixClosedHoldsPrefixes(index0.Keys, s, s[..j]);
      }
    }
    n := Root;
    GrowsRefl(nodes, spelling);
    assert s[..0] == [];
    for j := 0 to |s|
      invariant Descent(nodes0, spelling0, index0, nodes, spelling, index, s, j, n)
      invariant dup ==> nodes == nodes0 && spelling == spelling0 && index == index0
    {
      var c: byte := s[j];
      DescentStep(nodes0, spelling0, index0, nodes, spelling, index, s, j, n);
      nodes, spelling, index := Filled(nodes, n, c), FilledSpelling(nodes, spelling, n, c), FilledIndex(nodes, spelling, index, n, c);
      n := nodes[n].children[c];
    }
  }

  /** The trie of no patterns: a lone root. */
  lemma InitialTrie()
    ensures Shape([NewNode(0, 0)], [[]], map[[] := Root]) && Unlinked([NewNode(0, 0)])
    ensures Spells(map[[] := Root], []) && MarksPatterns([NewNode(0, 0)], [[]], [])
  {
    var nodes: seq<Node>, spelling: seq<Word>, index: map<Word, nat> := [NewNode(0, 0)], [[]], map[[] := Root];
    assert Indexed(spelling, index);
    assert Levels(nodes, spelling);
    assert Slots(nodes, spelling, index);
    assert PrefixClosed(index.Keys);
  }

  /** What `Insert` of P[i] does to the string set and the word marks, in terms of the patterns. */
  lemma InsertNext(nodes0: seq<Node>, spelling0: seq<Word>, index0: map<Word, nat>,
                   nodes: seq<Node>, spelling: seq<Word>, index: map<Word, nat>, P: seq<Word>, i: nat)
    requires i < |P| && Shape(nodes0, spelling0, index0) && Shape(nodes, spelling, index)
    requires Spells(index0, P[..i]) && MarksPatterns(nodes0, spelling0, P[..i])
    requires forall t :: t in index <==> t in index0 || IsPrefix(t, P[i])
    requires |nodes| >= |nodes0| && spelling[..|nodes0|] == spelling0
    requires forall k :: 0 <= k < |nodes| ==>
               (nodes[k].isWord <==> (k < |nodes0| && nodes0[k].isWord) || spelling[k] == P[i])
    ensures Spells(index, P[..i + 1]) && MarksPatterns(nodes, spelling, P[..i + 1])
  {
    assert P[..i + 1] == P[..i] + [P[i]];
    forall t ensures t in index <==> t == [] || InPrefixes(t, P[..i + 1]) {
      if InPrefixes(t, P[..i + 1]) {
        var q :| 0 <= q < i + 1 && IsPrefix(t, P[..i + 1][q]);
        if q < i {
          assert P[..i][q] == P[..i + 1][q];
        }
      }
      if InPrefixes(t, P[..i]) {
        var q :| 0 <= q < i && IsPrefix(t, P[..i][q]);
        assert P[..i + 1][q] == P[..i][q];
      }
      if IsPrefix(t, P[i]) {
        assert P[..i + 1][i] == P[i];
      }
    }
    PatternsInTrie(index0, P[..i]);
    forall k | 0 <= k < |nodes| ensures nodes[k].isWord <==> spelling[k] in P[..i + 1] {
      if k < |nodes0| {
        assert spelling[k] == spelling0[k];
      } else {
        assert spelling[k] !in index0;
      }
    }
  }

  class Aho {
    /** The node arena; `nodes[Root]` is `root`. */
    var nodes: seq<Node>
    /** The string each node spells from the root. */
    ghost var spelling: seq<Word>
    /** The node of each string in the trie. */
    ghost var index: map<Word, nat>
    /** The patterns the automaton was built from. */
    ghost var patterns: seq<Word>
    /** The non-root nodes in the order the linking pass took them off its queue. */
    ghost var bfsOrder: seq<nat>

    ghost predicate Valid()
      reads this
    {
      Automaton(nodes, spelling, index, patterns)
    }

    /** `Aho::Aho`: the automaton of the patterns `P`. */
    constructor (P: seq<Word>)
      requires NonEmptyPatterns(P)
      ensures Valid() && patterns == P && Spells(index, P)
    {
      new;
      BuildTrie(P);
    }

    /**
     * `BuildTrie`: the trie of the patterns, then the linking pass. Each non-root
     * node is taken off the queue once, shallower nodes first.
     */
    method BuildTrie(P: seq<Word>)
      requires NonEmptyPatterns(P)
      modifies this
      ensures Valid() && patterns == P && Spells(index, P)
      ensures Distinct(bfsOrder) && (forall k :: k in bfsOrder <==> 0 < k < |nodes|)
      ensures LevelOrdered(nodes, bfsOrder)
    {
      InsertAll(P);
      var linked: seq<Node>;
      ghost var order: seq<nat>;
      linked, order := LinkAll(nodes, spelling, index, patterns);
      nodes, bfsOrder := linked, order;
    }

    /**
     * The first half of `BuildTrie`: a root, then every pattern inserted in turn.
     * The trie holds exactly the prefixes of the patterns and marks exactly the
     * patterns as words.
     */
    method InsertAll(P: seq<Word>)
      requires NonEmptyPatterns(P)
      modifies this
      ensures Built(nodes, spelling, index, P) && Unlinked(nodes) && patterns == P
      ensures bfsOrder == old(bfsOrder)
    {
      InitialTrie();
      nodes, spelling, index, patterns := [NewNode(0, 0)], [[]], map[[] := Root], P;
      assert P[..0] == [];
      for i := 0 to |P|
        invariant Shape(nodes, spelling, index) && Unlinked(nodes) && patterns == P
        invariant bfsOrder == old(bfsOrder)
        invariant Spells(index, P[..i]) && MarksPatterns(nodes, spelling, P[..i])
      {
        ghost var nodes0, spelling0, index0 := nodes, spelling, index;
        Insert(P[i]);
        InsertNext(nodes0, spelling0, index0, nodes, spelling, index, P, i);
      }
      assert P[..|P|] == P;
    }

    /**
     * `MatchPatterns`: one pass over the text, moving the state along each byte
     * and reporting, after each byte, the node reached and its dictionary chain.
     * The reports are every pattern occurrence, by end position, longest first at
     * each end position.
     */
    method MatchPatterns(text: Word) returns (matches: seq<Match>, occurrence: nat)
      requires Valid()
      ensures matches == AhoSpec(text, patterns) && occurrence == |matches|
    {
      matches, occurrence := [], 0;
      var n: nat := Root;
      assert text[..0] == [];
      for i := 0 to |text|
        invariant Tracks(nodes, spelling, index, text[..i], n)
        invariant matches == AhoUpTo(text, patterns, i) && occurrence == |matches|
      {
        var found: seq<Match>;
        var count: nat;
        n, found, count := ScanByte(nodes, spelling, index, patterns, text, i, n);
        matches, occurrence := matches + found, occurrence + count;
      }
    }

    /**
     * `MatchPatternsWithTriesOnly`, as written: a literal walk down the trie from
     * every start position, which never examines the node reached by the last byte
     * of the text.
     */
    method MatchPatternsWithTriesOnly(text: Word) returns (matches: seq<Match>, occurrence: nat)
      requires Valid()
      ensures matches == TrieOnlySpec(text, patterns) && occurrence == |matches|
    {
      PatternsInTrie(index, patterns);
      matches, occurrence := [], 0;
      ghost var end: nat := if text == [] then 0 else |text| - 1;
      for i := 0 to |text|
        invariant matches == TrieWalkUpTo(text, patterns, i, end) && occurrence == |matches|
      {
        var found: seq<Match>;
        var count: nat;
        found, count := WalkFrom(nodes, spelling, index, patterns, text, i);
        matches, occurrence := matches + found, occurrence + count;
      }
    }

    /**
     * The literal trie walk with the node reached by the last byte examined too,
     * as `MatchPatternsWithTriesOnly` evidently intends.
     */
    method MatchPatternsWithTriesToEnd(text: Word) returns (matches: seq<Match>, occurrence: nat)
      requires Valid()
      ensures matches == CorrectedTrieOnlySpec(text, patterns) && occurrence == |matches|
    {
      PatternsInTrie(index, patterns);
      matches, occurrence := [], 0;
      for i := 0 to |text|
        invariant matches == TrieWalkUpTo(text, patterns, i, |text|) && occurrence == |matches|
      {
        var found: seq<Match>;
        var count: nat;
        found, count := WalkFromToEnd(nodes, spelling, index, patterns, text, i);
        matches, occurrence := matches + found, occurrence + count;
      }
    }

    /**
     * The first half of `BuildTrie`, for one pattern: walk down from the root along
     * `s`, creating a node wherever a slot is empty, and mark the last node a word.
     */
    method Insert(s: Word)
      requires Shape(nodes, spelling, index) && Unlinked(nodes)
      modifies this
      ensures Shape(nodes, spelling, index) && Unlinked(nodes)
      ensures patterns == old(patterns) && bfsOrder == old(bfsOrder)
      ensures forall t :: t in index <==> t in old(index) || IsPrefix(t, s)
      ensures |nodes| >= |old(nodes)| && spelling[..|old(nodes)|] == old(spelling)
      ensures forall k :: 0 <= k < |nodes| ==>
                (nodes[k].isWord <==> (k < |old(nodes)| && old(nodes)[k].isWord) || spelling[k] == s)
      ensures old(s in index && nodes[index[s]].isWord) ==>
                nodes == old(nodes) && spelling == old(spelling) && index == old(index)
    {
      var n := Descend(s);
      assert s[..|s|] == s;
      ghost var nodes1 := nodes;
      PrefixesUpToMembers(s, |s|);
      MarkWord(n);
      forall k | 0 <= k < |nodes|
        ensures nodes[k].isWord <==> (k < |old(nodes)| && old(nodes)[k].isWord) || spelling[k] == s
      {
        assert nodes1[k].isWord == (k < |old(nodes)| && old(nodes)[k].isWord);
        assert spelling[k] == s <==> k == n;
      }
      if old(s in index && nodes[index[s]].isWord) {
        assert n == old(index)[s];
        assert nodes == old(nodes);
      }
    }

    /**
     * The descent of `Insert`: walk down from the root along `s`, giving each empty
     * slot on the way a new node one level deeper, and return the node of `s`.
     */
    method Descend(s: Word) returns (n: nat)
      requires Shape(nodes, spelling, index) && Unlinked(nodes)
      modifies this
      ensures patterns == old(patterns) && bfsOrder == old(bfsOrder)
      ensures Descent(old(nodes), old(spelling), old(index), nodes, spelling, index, s, |s|, n)
      ensures old(s in index) ==> nodes == old(nodes) && spelling == old(spelling) && index == old(index)
    {
      nodes, spelling, index, n := DescendFrom(nodes, spelling, index, s);
    }

    /** Marks node n a word (`isWord = true`). */
    method MarkWord(n: nat)
      requires Shape(nodes, spelling, index) && Unlinked(nodes) && n < |nodes|
      modifies this
      ensures Shape(nodes, spelling, index) && Unlinked(nodes)
      ensures spelling == old(spelling) && index == old(index) && patterns == old(patterns)
      ensures bfsOrder == old(bfsOrder)
      ensures nodes == old(nodes)[n := old(nodes)[n].(isWord := true)]
    {
      TreeKeepsShape(nodes, nodes[n := nodes[n].(isWord := true)], spelling, index);
      nodes := nodes[n := nodes[n].(isWord := true)];
    }
  }
}
