/**
 * The node arena of the automaton and the invariants that tie it to the strings
 * its nodes stand for.
 *
 * A node is addressed by its position in a `seq<Node>`; position 0 is the root.
 * The ghost `spelling` gives the string spelled from the root to each node and the
 * ghost `index` maps each such string back to its node.
 */
module Trie {
  import opened Wrappers
  import opened Words

  /** MAX_CHILDREN: one child slot per byte value. */
  const MaxChildren: nat := 256

  const Root: nat := 0

  /**
   * `class Node`: the child slots (a missing key is a null slot), the byte on the
   * edge from the parent, the depth, whether a pattern ends here, and the two links
   * (None is a null pointer).
   */
  datatype Node = Node(children: map<byte, nat>, c: byte, level: nat, isWord: bool,
                       failureLink: Option<nat>, dictionaryLink: Option<nat>)

  /** `Node::Node(l, data)`: no children, no links, not a word. */
  function NewNode(l: nat, data: byte): (n: Node)
    ensures n.level == l && n.c == data && !n.isWord
    ensures n.children == map[] && n.failureLink == None && n.dictionaryLink == None
  {
    Node(map[], data, l, false, None, None)
  }

  function Last(s: Word): byte
    requires s != []
  {
    s[|s| - 1]
  }

  /**
   * The arena is a trie: node k spells spelling[k], `index` is the inverse of `spelling`,
   * a node's level is the length of its string and its byte the last one, a child
   * slot for byte b holds the node for spelling[k] + [b] exactly when that string is
   * in the trie, and the strings are closed under prefixes.
   */
  ghost predicate Shape(nodes: seq<Node>, spelling: seq<Word>, index: map<Word, nat>) {
    && |nodes| == |spelling| > 0
    && spelling[Root] == []
    && Indexed(spelling, index)
    && Levels(nodes, spelling)
    && Slots(nodes, spelling, index)
    && PrefixClosed(index.Keys)
  }

  /** `index` and `spelling` are inverse to each other. */
  ghost predicate Indexed(spelling: seq<Word>, index: map<Word, nat>) {
    && (forall k :: 0 <= k < |spelling| ==> spelling[k] in index && index[spelling[k]] == k)
    && (forall s :: s in index ==> index[s] < |spelling| && spelling[index[s]] == s)
  }

  /** A node's level is the length of its string and its byte the last byte of it. */
  ghost predicate Levels(nodes: seq<Node>, spelling: seq<Word>) {
    && |nodes| == |spelling|
    && (forall k :: 0 <= k < |nodes| ==> nodes[k].level == |spelling[k]|)
    && (forall k :: 0 < k < |nodes| ==> spelling[k] != [] && nodes[k].c == Last(spelling[k]))
  }

  /** The slot for byte b of node k is occupied exactly when spelling[k] + [b] is in the trie, by its node. */
  ghost predicate Slots(nodes: seq<Node>, spelling: seq<Word>, index: map<Word, nat>) {
    && |nodes| == |spelling|
    && (forall k, b :: 0 <= k < |nodes| && b in nodes[k].children ==>
          spelling[k] + [b] in index && nodes[k].children[b] == index[spelling[k] + [b]])
    && (forall k, b :: 0 <= k < |nodes| && spelling[k] + [b] in index ==> b in nodes[k].children)
    && (forall k, b :: 0 <= k < |nodes| && b in nodes[k].children ==>
          nodes[k].children[b] < |nodes| && spelling[nodes[k].children[b]] == spelling[k] + [b])
  }

  /** Exactly the nodes whose strings are patterns are marked as words. */
  ghost predicate MarksPatterns(nodes: seq<Node>, spelling: seq<Word>, P: seq<Word>) {
    |nodes| == |spelling| && forall k :: 0 <= k < |nodes| ==> (nodes[k].isWord <==> spelling[k] in P)
  }

  ghost predicate InPrefixes(t: Word, P: seq<Word>) {
    exists q :: 0 <= q < |P| && IsPrefix(t, P[q])
  }

  /** The trie holds the empty string and the prefixes of the patterns, and nothing else. */
  ghost predicate Spells(index: map<Word, nat>, P: seq<Word>) {
    forall t :: t in index <==> t == [] || InPrefixes(t, P)
  }

  ghost predicate NonEmptyPatterns(P: seq<Word>) {
    forall q :: 0 <= q < |P| ==> P[q] != []
  }

  predicate Linked(nodes: seq<Node>, k: nat) {
    k < |nodes| && nodes[k].failureLink.Some?
  }

  /**
   * Node k's links are the intended ones: the failure link leads to the node of
   * the longest proper suffix of spelling[k] that is in the trie, and the dictionary
   * link to the node of the longest proper suffix of spelling[k] that is a pattern,
   * or is null when there is none.
   */
  ghost predicate LinkedCorrectly(nodes: seq<Node>, spelling: seq<Word>, index: map<Word, nat>, P: seq<Word>, k: nat) {
    && k < |nodes| && k < |spelling| && [] in index
    && nodes[k].failureLink.Some?
    && nodes[k].failureLink.value < |spelling|
    && spelling[nodes[k].failureLink.value] == LongestSuffixIn(Drop1(spelling[k]), index.Keys)
    && match nodes[k].dictionaryLink
       case None => LongestPatternSuffix(Drop1(spelling[k]), P).None?
       case Some(d) => d < |spelling| && LongestPatternSuffix(Drop1(spelling[k]), P) == Some(spelling[d])
  }

  /** No node has a link yet: the state between trie insertion and linking. */
  ghost predicate Unlinked(nodes: seq<Node>) {
    forall k :: 0 <= k < |nodes| ==> nodes[k].failureLink.None? && nodes[k].dictionaryLink.None?
  }

  /** Every node that has a failure link has the intended links. */
  ghost predicate LinksSound(nodes: seq<Node>, spelling: seq<Word>, index: map<Word, nat>, P: seq<Word>) {
    forall k :: 0 <= k < |nodes| && Linked(nodes, k) ==> LinkedCorrectly(nodes, spelling, index, P, k)
  }

  /**
   * Every node at depth at most L has the intended links. (The trigger keeps the
   * solver from following failure links without end.)
   */
  ghost predicate LinkedUpTo(nodes: seq<Node>, spelling: seq<Word>, index: map<Word, nat>, P: seq<Word>, L: nat) {
    forall k {:trigger LinkedCorrectly(nodes, spelling, index, P, k)} ::
      0 <= k < |nodes| && nodes[k].level <= L ==> LinkedCorrectly(nodes, spelling, index, P, k)
  }

  /** The trie of the non-empty patterns `P`, before or during linking. */
  ghost predicate Built(nodes: seq<Node>, spelling: seq<Word>, index: map<Word, nat>, P: seq<Word>) {
    && Shape(nodes, spelling, index)
    && Spells(index, P)
    && MarksPatterns(nodes, spelling, P)
    && NonEmptyPatterns(P)
  }

  /** The finished automaton: the trie with every node linked as intended. */
  ghost predicate Automaton(nodes: seq<Node>, spelling: seq<Word>, index: map<Word, nat>, P: seq<Word>) {
    && Built(nodes, spelling, index, P)
    && forall k :: 0 <= k < |nodes| ==> LinkedCorrectly(nodes, spelling, index, P, k)
  }

  /** The nodes differ at most in their links and word marks. */
  ghost predicate SameTree(nodes: seq<Node>, nodes': seq<Node>) {
    |nodes'| == |nodes| &&
    forall k :: 0 <= k < |nodes| ==>
      nodes'[k].children == nodes[k].children && nodes'[k].c == nodes[k].c && nodes'[k].level == nodes[k].level
  }

  /** The nodes differ at most in their links. */
  ghost predicate SameSkeleton(nodes: seq<Node>, nodes': seq<Node>) {
    SameTree(nodes, nodes') && forall k :: 0 <= k < |nodes| ==> nodes'[k].isWord == nodes[k].isWord
  }

  lemma TreeKeepsShape(nodes: seq<Node>, nodes': seq<Node>, spelling: seq<Word>, index: map<Word, nat>)
    requires Shape(nodes, spelling, index) && SameTree(nodes, nodes')
    ensures Shape(nodes', spelling, index)
  {
    assert forall k, b :: 0 <= k < |nodes| ==> (b in nodes'[k].children <==> b in nodes[k].children);
  }

  lemma SkeletonKeepsShape(nodes: seq<Node>, nodes': seq<Node>, spelling: seq<Word>, index: map<Word, nat>, P: seq<Word>)
    requires Shape(nodes, spelling, index) && MarksPatterns(nodes, spelling, P) && SameSkeleton(nodes, nodes')
    ensures Shape(nodes', spelling, index) && MarksPatterns(nodes', spelling, P)
  {
    TreeKeepsShape(nodes, nodes', spelling, index);
  }

  /** The occupied child slots of a node with byte below `i`, in byte order: the order they are enqueued in. */
  function ChildrenBelow(children: map<byte, nat>, i: nat): seq<nat>
    requires i <= MaxChildren
  {
    if i == 0 then []
    else ChildrenBelow(children, i - 1) + (if (i - 1) as byte in children then [children[(i - 1) as byte]] else [])
  }

  // ---------------------------------------------------------------------------
  // Facts about a trie.

  /** Every pattern has a node. */
  lemma PatternsInTrie(index: map<Word, nat>, P: seq<Word>)
    requires Spells(index, P)
    ensures forall p :: p in P ==> p in index
  {
    forall p | p in P ensures p in index {
      var q :| 0 <= q < |P| && P[q] == p;
      assert IsPrefix(p, P[q]);
    }
  }

  /** Each non-root node hangs from exactly one slot: that of its string minus the last byte. */
  lemma Parent(nodes: seq<Node>, spelling: seq<Word>, index: map<Word, nat>, k: nat) returns (p: nat)
    requires Shape(nodes, spelling, index) && 0 < k < |nodes|
    ensures p < |nodes| && spelling[p] + [Last(spelling[k])] == spelling[k]
    ensures Last(spelling[k]) in nodes[p].children && nodes[p].children[Last(spelling[k])] == k
    ensures nodes[p].level + 1 == nodes[k].level
  {
    var s := spelling[k];
    assert s in index.Keys && s != [];
    var t := s[..|s| - 1];
    assert t + [Last(s)] == s;
    assert t in index.Keys;
    p := index[t];
    assert spelling[p] == t;
    assert t + [Last(s)] == s;
    assert spelling[p] + [Last(s)] in index;
    assert index[s] == k;
  }

  /** Different slots hold different nodes. */
  lemma ChildUnique(nodes: seq<Node>, spelling: seq<Word>, index: map<Word, nat>, k1: nat, b1: byte, k2: nat, b2: byte)
    requires Shape(nodes, spelling, index) && k1 < |nodes| && k2 < |nodes|
    requires b1 in nodes[k1].children && b2 in nodes[k2].children
    requires nodes[k1].children[b1] == nodes[k2].children[b2]
    ensures k1 == k2 && b1 == b2
  {
    var s1, s2 := spelling[k1] + [b1], spelling[k2] + [b2];
    assert s1 == spelling[index[s1]] == spelling[index[s2]] == s2;
    assert spelling[k1] == s1[..|s1| - 1] == s2[..|s2| - 1] == spelling[k2];
  }

  /** The failure link of a non-root node leads strictly up the trie. */
  lemma FailureShallower(nodes: seq<Node>, spelling: seq<Word>, index: map<Word, nat>, P: seq<Word>, k: nat)
    requires Shape(nodes, spelling, index) && 0 < k < |nodes| && LinkedCorrectly(nodes, spelling, index, P, k)
    ensures nodes[nodes[k].failureLink.value].level < nodes[k].level
  {
  }

  /**
   * One fallback step: when node n has no slot for byte c, the longest suffix in
   * the trie of spelling[n] + [c] is that of spelling[failure] + [c].
   */
  lemma FollowFailure(nodes: seq<Node>, spelling: seq<Word>, index: map<Word, nat>, P: seq<Word>, n: nat, c: byte)
    requires Shape(nodes, spelling, index) && 0 < n < |nodes| && LinkedCorrectly(nodes, spelling, index, P, n)
    requires c !in nodes[n].children
    ensures LongestSuffixIn(spelling[n] + [c], index.Keys)
            == LongestSuffixIn(spelling[nodes[n].failureLink.value] + [c], index.Keys)
  {
    var u := spelling[n];
    assert u != [] && u + [c] !in index.Keys;
    LongestSuffixInFallback(u, c, index.Keys);
  }

  /**
   * The state of the chase for the failure link of the child of node n along byte b:
   * the current node fn lies no deeper than n and the intended failure target of the
   * child is the longest suffix in the trie of spelling[fn] + [b].
   */
  ghost predicate Chasing(nodes: seq<Node>, spelling: seq<Word>, index: map<Word, nat>, P: seq<Word>, n: nat, b: byte, fn: nat) {
    && Shape(nodes, spelling, index) && 0 < n < |nodes| && b in nodes[n].children
    && fn < |nodes| && nodes[fn].level <= nodes[n].level
    && LinkedUpTo(nodes, spelling, index, P, nodes[n].level)
    && LongestSuffixIn(Drop1(spelling[nodes[n].children[b]]), index.Keys) == LongestSuffixIn(spelling[fn] + [b], index.Keys)
  }

  /** The chase starts at the failure target of n. */
  lemma ChaseStart(nodes: seq<Node>, spelling: seq<Word>, index: map<Word, nat>, P: seq<Word>, n: nat, b: byte)
    requires Shape(nodes, spelling, index) && 0 < n < |nodes| && b in nodes[n].children
    requires LinkedUpTo(nodes, spelling, index, P, nodes[n].level)
    ensures LinkedCorrectly(nodes, spelling, index, P, n)
    ensures Chasing(nodes, spelling, index, P, n, b, nodes[n].failureLink.value)
    ensures nodes[nodes[n].children[b]].level == nodes[n].level + 1
  {
    assert LinkedCorrectly(nodes, spelling, index, P, n);
    var cn := nodes[n].children[b];
    Drop1Append(spelling[n], b);
    LongestSuffixInExtend(Drop1(spelling[n]), b, index.Keys);
    FailureShallower(nodes, spelling, index, P, n);
  }

  /** When fn has a slot for b, its child there is the target. */
  lemma ChaseHit(nodes: seq<Node>, spelling: seq<Word>, index: map<Word, nat>, P: seq<Word>, n: nat, b: byte, fn: nat)
    requires Chasing(nodes, spelling, index, P, n, b, fn) && b in nodes[fn].children
    ensures nodes[fn].children[b] < |nodes|
    ensures spelling[nodes[fn].children[b]] == LongestSuffixIn(Drop1(spelling[nodes[n].children[b]]), index.Keys)
  {
    assert spelling[nodes[fn].children[b]] in index;
  }

  /** When the chase has reached the root without a slot for b, the root is the target. */
  lemma ChaseRoot(nodes: seq<Node>, spelling: seq<Word>, index: map<Word, nat>, P: seq<Word>, n: nat, b: byte)
    requires Chasing(nodes, spelling, index, P, n, b, Root) && b !in nodes[Root].children
    ensures spelling[Root] == LongestSuffixIn(Drop1(spelling[nodes[n].children[b]]), index.Keys)
  {
    assert spelling[Root] + [b] == [b];
    assert [b] !in index.Keys && [b][1..] == [];
  }

  /** Otherwise the chase moves on to the failure target of fn, which is shallower. */
  lemma ChaseNext(nodes: seq<Node>, spelling: seq<Word>, index: map<Word, nat>, P: seq<Word>, n: nat, b: byte, fn: nat)
    requires Chasing(nodes, spelling, index, P, n, b, fn) && fn != Root && b !in nodes[fn].children
    ensures nodes[fn].failureLink.Some?
    ensures Chasing(nodes, spelling, index, P, n, b, nodes[fn].failureLink.value)
    ensures nodes[nodes[fn].failureLink.value].level < nodes[fn].level
  {
    assert LinkedCorrectly(nodes, spelling, index, P, fn);
    FollowFailure(nodes, spelling, index, P, fn, b);
    FailureShallower(nodes, spelling, index, P, fn);
  }

  /**
   * The dictionary link of a node whose failure link leads to f: f itself when f is
   * a word, and f's dictionary link otherwise.
   */
  function DictionaryTarget(nodes: seq<Node>, f: nat): Option<nat>
    requires f < |nodes|
  {
    if nodes[f].isWord then Some(f) else nodes[f].dictionaryLink
  }

  /** Node k with failure link fl and dictionary link dl; every other node as it was. */
  function SetLinks(nodes: seq<Node>, k: nat, fl: nat, dl: Option<nat>): (nodes': seq<Node>)
    requires k < |nodes|
    ensures SameSkeleton(nodes, nodes')
  {
    nodes[k := nodes[k].(failureLink := Some(fl), dictionaryLink := dl)]
  }

  /**
   * When f is the node of the longest suffix of t in the trie and f is linked
   * correctly, `DictionaryTarget(nodes, f)` is the node of the longest pattern suffix of t.
   */
  lemma DictionaryStep(nodes: seq<Node>, spelling: seq<Word>, index: map<Word, nat>, P: seq<Word>, t: Word, f: nat)
    requires Built(nodes, spelling, index, P) && LinkedCorrectly(nodes, spelling, index, P, f)
    requires spelling[f] == LongestSuffixIn(t, index.Keys)
    ensures match DictionaryTarget(nodes, f)
            case None => LongestPatternSuffix(t, P).None?
            case Some(d) => d < |spelling| && LongestPatternSuffix(t, P) == Some(spelling[d])
  {
    PatternsInTrie(index, P);
    LongestPatternSuffixInTrie(t, P, index.Keys);
    var u := spelling[f];
    if u == [] {
      assert !nodes[f].isWord;
    } else if !nodes[f].isWord {
      assert u !in P;
      assert Drop1(u) == u[1..];
    }
  }

  /** Walking down the slots along `s` from node k, as the trie insertion and the literal walk do. */
  function Walk(nodes: seq<Node>, k: nat, s: Word): Option<nat>
    decreases |s|
  {
    if s == [] then Some(k)
    else if k < |nodes| && s[0] in nodes[k].children then Walk(nodes, nodes[k].children[s[0]], s[1..])
    else None
  }

  /** The walk along `s` from node k ends at the node of spelling[k] + s, and fails when there is none. */
  lemma {:induction false} WalkFollowsLabels(nodes: seq<Node>, spelling: seq<Word>, index: map<Word, nat>, k: nat, s: Word)
    requires Shape(nodes, spelling, index) && k < |nodes|
    ensures Walk(nodes, k, s) == if spelling[k] + s in index then Some(index[spelling[k] + s]) else None
    decreases |s|
  {
    if s == [] {
      assert spelling[k] + s == spelling[k];
    } else if s[0] in nodes[k].children {
      var m := nodes[k].children[s[0]];
      assert spelling[m] == spelling[k] + [s[0]];
      assert spelling[m] + s[1..] == spelling[k] + s;
      WalkFollowsLabels(nodes, spelling, index, m, s[1..]);
    } else {
      assert spelling[k] + [s[0]] !in index;
      if spelling[k] + s in index {
        assert IsPrefix(spelling[k] + [s[0]], spelling[k] + s);
        PrefixClosedHoldsPrefixes(index.Keys, spelling[k] + s, spelling[k] + [s[0]]);
      }
    }
  }

  // ---------------------------------------------------------------------------
  // Growing the trie.

  /** The arena after node n's slot for byte c is given a new node (one level deeper, carrying c). */
  function WithChild(nodes: seq<Node>, n: nat, c: byte): (r: seq<Node>)
    requires n < |nodes|
    ensures |r| == |nodes| + 1 && r[|nodes|] == NewNode(nodes[n].level + 1, c)
    ensures r[n] == nodes[n].(children := nodes[n].children[c := |nodes|])
    ensures forall k :: 0 <= k < |nodes| && k != n ==> r[k] == nodes[k]
  {
    nodes[n := nodes[n].(children := nodes[n].children[c := |nodes|])] + [NewNode(nodes[n].level + 1, c)]
  }

  /** Adding a node for a missing slot keeps the arena a trie, with the new string at the new position. */
  lemma AddChildKeepsShape(nodes: seq<Node>, spelling: seq<Word>, index: map<Word, nat>, n: nat, c: byte)
    requires Shape(nodes, spelling, index) && n < |nodes| && c !in nodes[n].children
    ensures spelling[n] + [c] !in index
    ensures Shape(WithChild(nodes, n, c), spelling + [spelling[n] + [c]], index[spelling[n] + [c] := |nodes|])
  {
    var t := spelling[n] + [c];
    assert t !in index;
    AddChildIndexed(spelling, index, t);
    AddChildLevels(nodes, spelling, n, c);
    AddChildSlots(nodes, spelling, index, n, c);
    var index' := index[t := |nodes|];
    forall s, b | s + [b] in index'.Keys ensures s in index'.Keys {
      if s + [b] == t {
        assert s == (s + [b])[..|s|] == t[..|t| - 1] == spelling[n];
      } else {
        assert s + [b] in index.Keys;
      }
    }
  }

  lemma AddChildIndexed(spelling: seq<Word>, index: map<Word, nat>, t: Word)
    requires Indexed(spelling, index) && t !in index
    ensures Indexed(spelling + [t], index[t := |spelling|])
  {
    var spelling', index' := spelling + [t], index[t := |spelling|];
    forall k | 0 <= k < |spelling'| ensures spelling'[k] in index' && index'[spelling'[k]] == k {
      if k < |spelling| {
        assert spelling'[k] == spelling[k] && spelling[k] in index;
      }
    }
  }

  lemma AddChildLevels(nodes: seq<Node>, spelling: seq<Word>, n: nat, c: byte)
    requires Levels(nodes, spelling) && n < |nodes|
    ensures Levels(WithChild(nodes, n, c), spelling + [spelling[n] + [c]])
  {
    var nodes', spelling' := WithChild(nodes, n, c), spelling + [spelling[n] + [c]];
    forall k | 0 <= k < |nodes'| ensures nodes'[k].level == |spelling'[k]| {
      if k < |nodes| {
        assert nodes'[k].level == nodes[k].level;
      }
    }
    forall k | 0 < k < |nodes'| ensures spelling'[k] != [] && nodes'[k].c == Last(spelling'[k]) {
      if k < |nodes| {
        assert nodes'[k].c == nodes[k].c;
      }
    }
  }

  lemma AddChildSlots(nodes: seq<Node>, spelling: seq<Word>, index: map<Word, nat>, n: nat, c: byte)
    requires Shape(nodes, spelling, index) && n < |nodes| && c !in nodes[n].children
    ensures Slots(WithChild(nodes, n, c), spelling + [spelling[n] + [c]], index[spelling[n] + [c] := |nodes|])
  {
    AddChildSlotsFilled(nodes, spelling, index, n, c);
    AddChildSlotsComplete(nodes, spelling, index, n, c);
  }

  /** After adding the child, every occupied slot holds the node of its string. */
  lemma AddChildSlotsFilled(nodes: seq<Node>, spelling: seq<Word>, index: map<Word, nat>, n: nat, c: byte)
    requires Shape(nodes, spelling, index) && n < |nodes| && c !in nodes[n].children
    ensures var nodes', spelling' := WithChild(nodes, n, c), spelling + [spelling[n] + [c]];
            forall k, b :: 0 <= k < |nodes'| && b in nodes'[k].children ==>
              && spelling'[k] + [b] in index[spelling[n] + [c] := |nodes|]
              && nodes'[k].children[b] == index[spelling[n] + [c] := |nodes|][spelling'[k] + [b]]
              && nodes'[k].children[b] < |nodes'| && spelling'[nodes'[k].children[b]] == spelling'[k] + [b]
  {
    var t := spelling[n] + [c];
    var m := |nodes|;
    var nodes', spelling', index' := WithChild(nodes, n, c), spelling + [t], index[t := m];
    assert t !in index;
    forall k, b | 0 <= k < |nodes'| && b in nodes'[k].children
      ensures spelling'[k] + [b] in index' && nodes'[k].children[b] == index'[spelling'[k] + [b]]
      ensures nodes'[k].children[b] < |nodes'| && spelling'[nodes'[k].children[b]] == spelling'[k] + [b]
    {
      if k == n && b == c {
      } else {
        assert k < m && b in nodes[k].children && spelling'[k] == spelling[k];
        assert spelling[k] + [b] in index;
      }
    }
  }

  /** After adding the child, every string of the trie one byte below a node has its slot occupied. */
  lemma AddChildSlotsComplete(nodes: seq<Node>, spelling: seq<Word>, index: map<Word, nat>, n: nat, c: byte)
    requires Shape(nodes, spelling, index) && n < |nodes| && c !in nodes[n].children
    ensures var nodes', spelling' := WithChild(nodes, n, c), spelling + [spelling[n] + [c]];
            forall k, b :: 0 <= k < |nodes'| && spelling'[k] + [b] in index[spelling[n] + [c] := |nodes|] ==>
              b in nodes'[k].children
  {
    var t := spelling[n] + [c];
    var m := |nodes|;
    var nodes', spelling', index' := WithChild(nodes, n, c), spelling + [t], index[t := m];
    assert t !in index;
    assert forall b :: t + [b] !in index;
    assert forall b :: t + [b] != t by {
      forall b ensures t + [b] != t {
        assert |t + [b]| != |t|;
      }
    }
    forall k, b | 0 <= k < |nodes'| && spelling'[k] + [b] in index' ensures b in nodes'[k].children {
      if k == m {
        assert false;
      } else if spelling[k] + [b] == t {
        assert spelling[k] == spelling[n] by {
          assert spelling[k] == (spelling[k] + [b])[..|t| - 1] == t[..|t| - 1];
        }
        assert b == (spelling[k] + [b])[|t| - 1] == c;
        assert k == n;
      } else {
        assert spelling'[k] == spelling[k];
        assert spelling[k] + [b] in index;
      }
    }
  }

}
