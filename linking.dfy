/**
 * The linking half of `Aho::BuildTrie`: the failure and dictionary links, set from
 * a queue of nodes, so that a node is linked only after every node above it.
 *
 * The pass works on the arena value; `Aho.BuildTrie` stores the result.
 */
module Linking {
  import opened Wrappers
  import opened Words
  import opened Occurrences
  import opened Trie

  // ---------------------------------------------------------------------------
  // The link step for one child.

  /**
   * The chase for the failure link of the child cn of node n along byte b: from
   * n's failure target, follow failure links until a node with a slot for b (whose
   * child there is the target) or the root (which is then the target) is reached.
   * The chase stops at once when cn has a failure link already. `link` stands for
   * cn's failure link, which `LinkChild` stores.
   */
  method ChaseFailure(nodes: seq<Node>, ghost spelling: seq<Word>, ghost index: map<Word, nat>, ghost P: seq<Word>,
                      n: nat, b: byte) returns (f: nat)
    requires Shape(nodes, spelling, index)
    requires 0 < n < |nodes| && b in nodes[n].children
    requires LinkedUpTo(nodes, spelling, index, P, nodes[n].level)
    requires nodes[nodes[n].children[b]].failureLink.Some? ==>
               LinkedCorrectly(nodes, spelling, index, P, nodes[n].children[b])
    ensures f < |nodes| && spelling[f] == LongestSuffixIn(Drop1(spelling[nodes[n].children[b]]), index.Keys)
    ensures nodes[nodes[n].children[b]].failureLink.Some? ==> f == nodes[nodes[n].children[b]].failureLink.value
  {
    ChaseStart(nodes, spelling, index, P, n, b);
    var cn: nat := nodes[n].children[b];
    var fn: nat := nodes[n].failureLink.value;
    ghost var target := LongestSuffixIn(Drop1(spelling[cn]), index.Keys);
    var link: Option<nat> := nodes[cn].failureLink;
    while link.None?
      invariant Chasing(nodes, spelling, index, P, n, b, fn)
      invariant link.Some? ==> link.value < |spelling| && spelling[link.value] == target
      invariant nodes[cn].failureLink.Some? ==> link == nodes[cn].failureLink
      decreases if link.None? then 1 else 0, nodes[fn].level
    {
      if b in nodes[fn].children {
        ChaseHit(nodes, spelling, index, P, n, b, fn);
        link := Some(nodes[fn].children[b]);
      } else if fn == Root {
        ChaseRoot(nodes, spelling, index, P, n, b);
        link := Some(Root);
      } else {
        ChaseNext(nodes, spelling, index, P, n, b, fn);
        fn := nodes[fn].failureLink.value;
      }
    }
    f := link.value;
  }

  /**
   * The link step of `BuildTrie` for the child cn of node n along byte b: the
   * failure link of cn found by `ChaseFailure`, then its dictionary link: the
   * failure target itself when that is a word, and the target's dictionary link
   * otherwise. Only cn changes, and the links already set stay right.
   */
  method LinkChild(nodes: seq<Node>, ghost spelling: seq<Word>, ghost index: map<Word, nat>, ghost P: seq<Word>,
                   n: nat, b: byte) returns (nodes': seq<Node>)
    requires Built(nodes, spelling, index, P) && LinksSound(nodes, spelling, index, P)
    requires 0 < n < |nodes| && b in nodes[n].children
    requires LinkedUpTo(nodes, spelling, index, P, nodes[n].level)
    ensures LinksOnly(nodes, nodes', nodes[n].children[b])
    ensures LinkedCorrectly(nodes', spelling, index, P, nodes[n].children[b])
    ensures Built(nodes', spelling, index, P) && LinksSound(nodes', spelling, index, P)
    ensures LinkedUpTo(nodes', spelling, index, P, nodes[n].level)
  {
    var cn: nat := nodes[n].children[b];
    assert Linked(nodes, cn) ==> LinkedCorrectly(nodes, spelling, index, P, cn);
    var f: nat := ChaseFailure(nodes, spelling, index, P, n, b);
    LinkStep(nodes, spelling, index, P, n, b, f);
    nodes' := SetLinks(nodes, cn, f, DictionaryTarget(nodes, f));
    LinkKeeps(nodes, nodes', spelling, index, P, cn, nodes[n].level);
  }

  /**
   * The frame of a link step: node cn may change its links, every other node stays
   * as it was.
   */
  ghost predicate LinksOnly(nodes: seq<Node>, nodes': seq<Node>, cn: nat) {
    && cn < |nodes| && |nodes'| == |nodes| && SameSkeleton(nodes, nodes')
    && forall k :: 0 <= k < |nodes| && k != cn ==> nodes'[k] == nodes[k]
  }

  /** Linking node cn correctly, and changing nothing else, keeps every other link right. */
  lemma LinkKeeps(nodes: seq<Node>, nodes': seq<Node>, spelling: seq<Word>, index: map<Word, nat>, P: seq<Word>,
                  cn: nat, L: nat)
    requires Built(nodes, spelling, index, P) && LinksSound(nodes, spelling, index, P)
    requires LinkedUpTo(nodes, spelling, index, P, L)
    requires LinksOnly(nodes, nodes', cn) && LinkedCorrectly(nodes', spelling, index, P, cn)
    ensures Built(nodes', spelling, index, P) && LinksSound(nodes', spelling, index, P)
    ensures LinkedUpTo(nodes', spelling, index, P, L)
  {
    SkeletonKeepsShape(nodes, nodes', spelling, index, P);
    LinkKeepsSound(nodes, nodes', spelling, index, P, cn);
    LinkKeepsUpTo(nodes, nodes', spelling, index, P, cn, L);
  }

  lemma LinkKeepsSound(nodes: seq<Node>, nodes': seq<Node>, spelling: seq<Word>, index: map<Word, nat>, P: seq<Word>, cn: nat)
    requires LinksSound(nodes, spelling, index, P)
    requires LinksOnly(nodes, nodes', cn) && LinkedCorrectly(nodes', spelling, index, P, cn)
    ensures LinksSound(nodes', spelling, index, P)
  {
    forall k | 0 <= k < |nodes'| && Linked(nodes', k) ensures LinkedCorrectly(nodes', spelling, index, P, k) {
      if k != cn {
        assert Linked(nodes, k);
      }
    }
  }

  lemma LinkKeepsUpTo(nodes: seq<Node>, nodes': seq<Node>, spelling: seq<Word>, index: map<Word, nat>, P: seq<Word>,
                      cn: nat, L: nat)
    requires LinkedUpTo(nodes, spelling, index, P, L)
    requires LinksOnly(nodes, nodes', cn) && LinkedCorrectly(nodes', spelling, index, P, cn)
    ensures LinkedUpTo(nodes', spelling, index, P, L)
  {
    forall k | 0 <= k < |nodes'| && nodes'[k].level <= L ensures LinkedCorrectly(nodes', spelling, index, P, k) {
      if k != cn {
        assert LinkedCorrectly(nodes, spelling, index, P, k);
      }
    }
  }

  /** The links `LinkChild` gives the child of n along b, once its failure target f is known, are the intended ones. */
  lemma LinkStep(nodes: seq<Node>, spelling: seq<Word>, index: map<Word, nat>, P: seq<Word>, n: nat, b: byte, f: nat)
    requires Built(nodes, spelling, index, P)
    requires 0 < n < |nodes| && b in nodes[n].children
    requires LinkedUpTo(nodes, spelling, index, P, nodes[n].level)
    requires f < |nodes| && spelling[f] == LongestSuffixIn(Drop1(spelling[nodes[n].children[b]]), index.Keys)
    ensures LinkedCorrectly(SetLinks(nodes, nodes[n].children[b], f, DictionaryTarget(nodes, f)), spelling, index, P,
                            nodes[n].children[b])
  {
    var cn := nodes[n].children[b];
    assert spelling[cn] == spelling[n] + [b];
    assert |Drop1(spelling[cn])| == nodes[n].level;
    assert nodes[f].level <= nodes[n].level;
    assert LinkedCorrectly(nodes, spelling, index, P, f);
    DictionaryStep(nodes, spelling, index, P, Drop1(spelling[cn]), f);
  }

  // ---------------------------------------------------------------------------
  // The children of a node, in the order they are enqueued.

  /** The children of node k in byte order. */
  function Children(nodes: seq<Node>, k: nat): seq<nat>
    requires k < |nodes|
  {
    ChildrenBelow(nodes[k].children, MaxChildren)
  }

  lemma {:induction false} ChildrenBelowHas(children: map<byte, nat>, i: nat, b: byte)
    requires i <= MaxChildren && b in children && (b as int) < i
    ensures children[b] in ChildrenBelow(children, i)
  {
    if (b as int) < i - 1 {
      ChildrenBelowHas(children, i - 1, b);
    }
  }

  /** Every entry of `ChildrenBelow(children, i)` sits in a slot below i. */
  lemma {:induction false} ChildrenBelowSlot(children: map<byte, nat>, i: nat, k: nat) returns (b: byte)
    requires i <= MaxChildren && k in ChildrenBelow(children, i)
    ensures b in children && (b as int) < i && children[b] == k
  {
    var last := (i - 1) as byte;
    if last in children && children[last] == k {
      b := last;
    } else {
      b := ChildrenBelowSlot(children, i - 1, k);
    }
  }

  /** Different slots of one node hold different nodes. */
  lemma ChildrenDiffer(nodes: seq<Node>, spelling: seq<Word>, index: map<Word, nat>, k: nat, b1: byte, b2: byte)
    requires Shape(nodes, spelling, index) && k < |nodes|
    requires b1 in nodes[k].children && b2 in nodes[k].children && b1 != b2
    ensures nodes[k].children[b1] != nodes[k].children[b2]
  {
    assert (spelling[k] + [b1])[|spelling[k]|] != (spelling[k] + [b2])[|spelling[k]|];
  }

  lemma {:induction false} ChildrenBelowDistinct(nodes: seq<Node>, spelling: seq<Word>, index: map<Word, nat>, n: nat, i: nat)
    requires Shape(nodes, spelling, index) && n < |nodes| && i <= MaxChildren
    ensures Distinct(ChildrenBelow(nodes[n].children, i))
  {
    if i > 0 {
      var ch := nodes[n].children;
      ChildrenBelowDistinct(nodes, spelling, index, n, i - 1);
      var b := (i - 1) as byte;
      if b in ch {
        forall k | k in ChildrenBelow(ch, i - 1) ensures k !in [ch[b]] {
          var b' := ChildrenBelowSlot(ch, i - 1, k);
          ChildrenDiffer(nodes, spelling, index, n, b', b);
        }
        DistinctAppend(ChildrenBelow(ch, i - 1), [ch[b]]);
      }
    }
  }

  ghost predicate ChildrenLinked(nodes: seq<Node>, k: nat) {
    k < |nodes| && forall b :: b in nodes[k].children ==> Linked(nodes, nodes[k].children[b])
  }

  ghost predicate ChildrenUnlinked(nodes: seq<Node>, k: nat) {
    k < |nodes| && forall b :: b in nodes[k].children ==> !Linked(nodes, nodes[k].children[b])
  }

  /**
   * C lists each child of node n once; they lie one level below n, have no links
   * yet, and no other node has any of them as a child.
   */
  ghost predicate Brood(nodes: seq<Node>, n: nat, C: seq<nat>) {
    && n < |nodes| && Distinct(C)
    && (forall b :: b in nodes[n].children ==> nodes[n].children[b] in C)
    && (forall c :: c in C ==> 0 < c < |nodes| && nodes[c].level == nodes[n].level + 1 && !Linked(nodes, c))
    && (forall x, b :: 0 <= x < |nodes| && b in nodes[x].children && nodes[x].children[b] in C ==> x == n)
  }

  /** The root hangs from no slot. */
  lemma ChildrenNotRoot(nodes: seq<Node>, spelling: seq<Word>, index: map<Word, nat>)
    requires Shape(nodes, spelling, index)
    ensures forall k, b :: 0 <= k < |nodes| && b in nodes[k].children ==> 0 < nodes[k].children[b] < |nodes|
  {
    forall k, b | 0 <= k < |nodes| && b in nodes[k].children ensures 0 < nodes[k].children[b] < |nodes| {
      var c := nodes[k].children[b];
      assert c < |nodes| && spelling[c] == spelling[k] + [b];
      assert |spelling[c]| > 0;
    }
  }

  /** `Children(nodes, n)` is the brood of n. */
  lemma ChildrenMembers(nodes: seq<Node>, spelling: seq<Word>, index: map<Word, nat>, n: nat)
    requires Shape(nodes, spelling, index) && n < |nodes| && ChildrenUnlinked(nodes, n)
    ensures Brood(nodes, n, Children(nodes, n))
  {
    var ch := nodes[n].children;
    ChildrenBelowDistinct(nodes, spelling, index, n, MaxChildren);
    forall b | b in ch ensures ch[b] in Children(nodes, n) {
      ChildrenBelowHas(ch, MaxChildren, b);
    }
    forall c | c in Children(nodes, n) ensures 0 < c < |nodes| && nodes[c].level == nodes[n].level + 1 && !Linked(nodes, c) {
      var b := ChildrenBelowSlot(ch, MaxChildren, c);
      assert spelling[c] == spelling[n] + [b];
    }
    forall x, b | 0 <= x < |nodes| && b in nodes[x].children && nodes[x].children[b] in Children(nodes, n) ensures x == n {
      var b' := ChildrenBelowSlot(ch, MaxChildren, nodes[x].children[b]);
      ChildUnique(nodes, spelling, index, x, b, n, b');
    }
  }

  // ---------------------------------------------------------------------------
  // The queue loop.

  /** `nodes` is N with exactly the nodes of C newly linked, and the same tree. */
  ghost predicate LinkedMore(N: seq<Node>, nodes: seq<Node>, C: seq<nat>) {
    && |nodes| == |N| && SameSkeleton(N, nodes)
    && forall k :: 0 <= k < |N| ==> (Linked(nodes, k) <==> Linked(N, k) || k in C)
  }

  /** The naturals below m. */
  function Below(m: nat): (r: set<nat>)
    ensures forall x: nat :: x in r <==> x < m
    ensures |r| == m
  {
    if m == 0 then {} else assert m - 1 !in Below(m - 1); Below(m - 1) + {m - 1}
  }

  /** A sequence of distinct naturals all below m has at most m elements: the queue loop ends. */
  lemma DistinctBelow(s: seq<nat>, m: nat)
    requires Distinct(s) && forall x :: x in s ==> x < m
    ensures |s| <= m
  {
    DistinctCardinality(s);
    var S := set x | x in s;
    assert Below(m) == S + (Below(m) - S);
  }

  /** The nodes of `s` lie in the arena, in non-decreasing level. */
  ghost predicate LevelOrdered(nodes: seq<Node>, s: seq<nat>) {
    && (forall i :: 0 <= i < |s| ==> s[i] < |nodes|)
    && (forall i, j :: 0 <= i <= j < |s| ==> nodes[s[i]].level <= nodes[s[j]].level)
  }

  /** The dequeued and the queued nodes are distinct non-root nodes, and exactly the linked ones. */
  ghost predicate QueueCovers(nodes: seq<Node>, q: seq<nat>, order: seq<nat>) {
    && Distinct(order + q)
    && (forall x :: x in order + q ==> 0 < x < |nodes|)
    && (forall k :: 0 < k < |nodes| ==> (Linked(nodes, k) <==> k in order + q))
  }

  /** A queued node has no linked child yet. */
  ghost predicate QueueFringe(nodes: seq<Node>, q: seq<nat>) {
    forall i :: 0 <= i < |q| ==> ChildrenUnlinked(nodes, q[i])
  }

  /** A linked node that is not queued (a dequeued one, or the root) has all its children linked. */
  ghost predicate DoneClosed(nodes: seq<Node>, q: seq<nat>) {
    forall k :: 0 <= k < |nodes| && Linked(nodes, k) && k !in q ==> ChildrenLinked(nodes, k)
  }

  /** The parent of a linked node is linked and no longer queued. */
  ghost predicate ParentsDone(nodes: seq<Node>, q: seq<nat>) {
    forall p, b :: 0 <= p < |nodes| && b in nodes[p].children && Linked(nodes, nodes[p].children[b]) ==>
      Linked(nodes, p) && p !in q
  }

  /** Levels do not decrease along `order + q`, and the queue spans at most two adjacent levels. */
  ghost predicate QueueLevels(nodes: seq<Node>, q: seq<nat>, order: seq<nat>) {
    && LevelOrdered(nodes, order + q)
    && (q != [] && q[0] < |nodes| && q[|q| - 1] < |nodes| ==> nodes[q[|q| - 1]].level <= nodes[q[0]].level + 1)
  }

  /**
   * The state of the queue loop, with `order` the nodes dequeued so far: all the
   * links set so far are the intended ones, and the root, the dequeued and the
   * queued nodes are exactly the linked ones, level by level.
   */
  ghost predicate Frontier(nodes: seq<Node>, spelling: seq<Word>, index: map<Word, nat>, P: seq<Word>,
                           q: seq<nat>, order: seq<nat>) {
    && Built(nodes, spelling, index, P) && LinksSound(nodes, spelling, index, P) && Linked(nodes, Root)
    && QueueCovers(nodes, q, order) && QueueFringe(nodes, q) && DoneClosed(nodes, q)
    && ParentsDone(nodes, q) && QueueLevels(nodes, q, order)
  }

  /** Every node no deeper than the head of the queue is linked. */
  lemma {:induction false} LinkedBelow(nodes: seq<Node>, spelling: seq<Word>, index: map<Word, nat>, P: seq<Word>,
                                       q: seq<nat>, order: seq<nat>, k: nat)
    requires Frontier(nodes, spelling, index, P, q, order) && q != []
    requires k < |nodes| && q[0] < |nodes| && nodes[k].level <= nodes[q[0]].level
    ensures Linked(nodes, k)
    decreases nodes[k].level
  {
    if k != Root {
      var p := Parent(nodes, spelling, index, k);
      LinkedBelow(nodes, spelling, index, P, q, order, p);
      forall i | 0 <= i < |q| ensures q[i] != p {
        assert (order + q)[|order|] == q[0] && (order + q)[|order| + i] == q[i];
      }
    }
  }

  /** Hence every node no deeper than the head of the queue has the intended links. */
  lemma ShallowLinkedUpTo(nodes: seq<Node>, spelling: seq<Word>, index: map<Word, nat>, P: seq<Word>,
                          q: seq<nat>, order: seq<nat>)
    requires Frontier(nodes, spelling, index, P, q, order) && q != []
    ensures 0 < q[0] < |nodes| && LinkedUpTo(nodes, spelling, index, P, nodes[q[0]].level)
    ensures ChildrenUnlinked(nodes, q[0])
  {
    assert q[0] in order + q;
    forall k | 0 <= k < |nodes| && nodes[k].level <= nodes[q[0]].level
      ensures LinkedCorrectly(nodes, spelling, index, P, k)
    {
      LinkedBelow(nodes, spelling, index, P, q, order, k);
    }
  }

  /** With the queue empty, every node is linked. */
  lemma {:induction false} AllLinked(nodes: seq<Node>, spelling: seq<Word>, index: map<Word, nat>, P: seq<Word>,
                                     order: seq<nat>, k: nat)
    requires Frontier(nodes, spelling, index, P, [], order) && k < |nodes|
    ensures Linked(nodes, k)
    decreases nodes[k].level
  {
    if k != Root {
      var p := Parent(nodes, spelling, index, k);
      AllLinked(nodes, spelling, index, P, order, p);
    }
  }

  /**
   * The inner loop of `BuildTrie` for the dequeued node n: every child of n, in
   * byte order, is enqueued and linked. Only the children change.
   */
  method LinkChildren(nodes: seq<Node>, ghost spelling: seq<Word>, ghost index: map<Word, nat>, ghost P: seq<Word>,
                      n: nat, q0: seq<nat>) returns (nodes': seq<Node>, q: seq<nat>)
    requires Built(nodes, spelling, index, P) && LinksSound(nodes, spelling, index, P)
    requires 0 < n < |nodes| && LinkedUpTo(nodes, spelling, index, P, nodes[n].level)
    ensures q == q0 + Children(nodes, n)
    ensures LinkingChildren(nodes, nodes', spelling, index, P, n, Children(nodes, n))
    ensures Built(nodes', spelling, index, P) && LinksSound(nodes', spelling, index, P)
  {
    nodes', q := nodes, q0;
    for i := 0 to MaxChildren
      invariant InnerLoop(nodes, nodes', spelling, index, P, n, q0, q, i)
    {
      nodes', q := LinkSlot(nodes, spelling, index, P, n, q0, i, nodes', q);
    }
  }

  /** The state of the inner loop for node n before slot i. */
  ghost predicate InnerLoop(nodes: seq<Node>, nodes': seq<Node>, spelling: seq<Word>, index: map<Word, nat>,
                            P: seq<Word>, n: nat, q0: seq<nat>, q: seq<nat>, i: nat) {
    && i <= MaxChildren && 0 < n < |nodes|
    && q == q0 + ChildrenBelow(nodes[n].children, i)
    && LinkingChildren(nodes, nodes', spelling, index, P, n, ChildrenBelow(nodes[n].children, i))
    && Built(nodes', spelling, index, P) && LinksSound(nodes', spelling, index, P)
    && LinkedUpTo(nodes', spelling, index, P, nodes[n].level)
  }

  /** One turn of the inner loop: the child in slot i of n, if there is one, is enqueued and linked. */
  method LinkSlot(nodes: seq<Node>, ghost spelling: seq<Word>, ghost index: map<Word, nat>, ghost P: seq<Word>,
                  n: nat, ghost q0: seq<nat>, i: nat, cur: seq<Node>, q: seq<nat>) returns (cur': seq<Node>, q': seq<nat>)
    requires Shape(nodes, spelling, index) && i < MaxChildren
    requires InnerLoop(nodes, cur, spelling, index, P, n, q0, q, i)
    ensures InnerLoop(nodes, cur', spelling, index, P, n, q0, q', i + 1)
  {
    var b: byte := i as byte;
    if b in cur[n].children {
      var cn: nat := cur[n].children[b];
      cur' := LinkChild(cur, spelling, index, P, n, b);
      SlotLinked(nodes, cur, cur', spelling, index, P, n, q0, q, i);
      q' := q + [cn];
    } else {
      cur', q' := cur, q;
    }
  }

  /** The inner loop's state after linking the child in slot i of n. */
  lemma SlotLinked(nodes: seq<Node>, cur: seq<Node>, cur': seq<Node>, spelling: seq<Word>, index: map<Word, nat>,
                   P: seq<Word>, n: nat, q0: seq<nat>, q: seq<nat>, i: nat)
    requires Shape(nodes, spelling, index) && i < MaxChildren
    requires InnerLoop(nodes, cur, spelling, index, P, n, q0, q, i) && (i as byte) in cur[n].children
    requires LinksOnly(cur, cur', cur[n].children[i as byte])
    requires LinkedCorrectly(cur', spelling, index, P, cur[n].children[i as byte])
    requires Built(cur', spelling, index, P) && LinksSound(cur', spelling, index, P)
    requires LinkedUpTo(cur', spelling, index, P, cur[n].level)
    ensures InnerLoop(nodes, cur', spelling, index, P, n, q0, q + [cur[n].children[i as byte]], i + 1)
  {
    var b := i as byte;
    assert cur[n].children == nodes[n].children;
    ChildNotBelow(nodes, spelling, index, n, i);
    var done, c := ChildrenBelow(nodes[n].children, i), cur[n].children[b];
    LinkChildrenStep(nodes, cur, cur', spelling, index, P, n, b, done);
    assert ChildrenBelow(nodes[n].children, i + 1) == done + [c];
    AppendAssociates(q0, done, [c]);
    assert cur[n].level == nodes[n].level;
  }

  /**
   * The state of the inner loop once the children listed in `done` are linked:
   * only they changed, each with its intended links.
   */
  ghost predicate LinkingChildren(nodes: seq<Node>, nodes': seq<Node>, spelling: seq<Word>, index: map<Word, nat>,
                                  P: seq<Word>, n: nat, done: seq<nat>) {
    && |nodes'| == |nodes| && SameSkeleton(nodes, nodes') && 0 < n < |nodes|
    && (forall k :: 0 <= k < |nodes| && k !in done ==> nodes'[k] == nodes[k])
    && (forall k :: k in done ==> LinkedCorrectly(nodes', spelling, index, P, k))
  }

  /** Linking one more child of n, an unlinked one, keeps the inner loop's state. */
  lemma LinkChildrenStep(nodes: seq<Node>, before: seq<Node>, after: seq<Node>, spelling: seq<Word>,
                         index: map<Word, nat>, P: seq<Word>, n: nat, b: byte, done: seq<nat>)
    requires LinkingChildren(nodes, before, spelling, index, P, n, done) && b in before[n].children
    requires LinksOnly(before, after, before[n].children[b])
    requires LinkedCorrectly(after, spelling, index, P, before[n].children[b])
    ensures LinkingChildren(nodes, after, spelling, index, P, n, done + [before[n].children[b]])
  {
    var cn := before[n].children[b];
    KeepsLinkedCorrectly(before, after, spelling, index, P, done, cn);
    SameSkeletonTrans(nodes, before, after);
    assert forall k :: 0 <= k < |nodes| && k !in done + [cn] ==> after[k] == nodes[k];
  }

  /** Links already set stay as they are when another node is linked. */
  lemma KeepsLinkedCorrectly(before: seq<Node>, after: seq<Node>, spelling: seq<Word>, index: map<Word, nat>,
                             P: seq<Word>, done: seq<nat>, cn: nat)
    requires LinksOnly(before, after, cn)
    requires forall k :: k in done ==> LinkedCorrectly(before, spelling, index, P, k)
    requires LinkedCorrectly(after, spelling, index, P, cn)
    ensures forall k :: k in done + [cn] ==> LinkedCorrectly(after, spelling, index, P, k)
  {
    forall k | k in done + [cn] ensures LinkedCorrectly(after, spelling, index, P, k) {
      if k != cn {
        assert k in done && LinkedCorrectly(before, spelling, index, P, k);
        assert after[k] == before[k];
      }
    }
  }

  /** The child in slot i of node n is not among the children in lower slots. */
  lemma ChildNotBelow(nodes: seq<Node>, spelling: seq<Word>, index: map<Word, nat>, n: nat, i: nat)
    requires Shape(nodes, spelling, index) && n < |nodes| && i < MaxChildren && (i as byte) in nodes[n].children
    ensures nodes[n].children[i as byte] !in ChildrenBelow(nodes[n].children, i)
    ensures ChildrenBelow(nodes[n].children, i + 1) == ChildrenBelow(nodes[n].children, i) + [nodes[n].children[i as byte]]
  {
    var ch := nodes[n].children;
    forall k | k in ChildrenBelow(ch, i) ensures k != ch[i as byte] {
      var b := ChildrenBelowSlot(ch, i, k);
      ChildrenDiffer(nodes, spelling, index, n, b, i as byte);
    }
  }

  /** After the inner loop for the head n of the queue: n is dequeued and its children are queued. */
  lemma FrontierNext(N: seq<Node>, nodes: seq<Node>, spelling: seq<Word>, index: map<Word, nat>, P: seq<Word>,
                     q: seq<nat>, order: seq<nat>)
    requires Frontier(N, spelling, index, P, q, order) && q != [] && q[0] < |N|
    requires LinkingChildren(N, nodes, spelling, index, P, q[0], Children(N, q[0]))
    requires Built(nodes, spelling, index, P) && LinksSound(nodes, spelling, index, P)
    ensures Frontier(nodes, spelling, index, P, q[1..] + Children(N, q[0]), order + [q[0]])
  {
    var C := Children(N, q[0]);
    NextBrood(N, nodes, spelling, index, P, q, order);
    NextCovers(N, nodes, q, order, C);
    NextFringe(N, nodes, q, C);
    NextClosed(N, nodes, q, C);
    NextParents(N, nodes, q, C);
    NextLevels(N, nodes, q, order, C);
  }

  /** The facts about the head n of the queue and its children that the queue step needs. */
  lemma NextBrood(N: seq<Node>, nodes: seq<Node>, spelling: seq<Word>, index: map<Word, nat>, P: seq<Word>,
                  q: seq<nat>, order: seq<nat>)
    requires Shape(N, spelling, index) && QueueCovers(N, q, order) && QueueFringe(N, q) && q != []
    requires LinkingChildren(N, nodes, spelling, index, P, q[0], Children(N, q[0]))
    ensures Brood(N, q[0], Children(N, q[0])) && LinkedMore(N, nodes, Children(N, q[0]))
    ensures q == [q[0]] + q[1..] && q[0] !in q[1..] && Linked(N, q[0])
  {
    var n, C := q[0], Children(N, q[0]);
    assert n in order + q;
    assert ChildrenUnlinked(N, n);
    ChildrenMembers(N, spelling, index, n);
    assert q == [n] + q[1..];
    assert n !in q[1..] by {
      forall i | 1 <= i < |q| ensures q[i] != n {
        assert (order + q)[|order|] == n && (order + q)[|order| + i] == q[i];
      }
    }
  }

  lemma NextCovers(N: seq<Node>, nodes: seq<Node>, q: seq<nat>, order: seq<nat>, C: seq<nat>)
    requires QueueCovers(N, q, order) && q != [] && Brood(N, q[0], C) && LinkedMore(N, nodes, C)
    ensures QueueCovers(nodes, q[1..] + C, order + [q[0]])
  {
    var s := order + q;
    assert (order + [q[0]]) + (q[1..] + C) == s + C;
    forall x | x in s ensures x !in C {
      assert Linked(N, x);
    }
    DistinctAppend(s, C);
  }

  lemma NextFringe(N: seq<Node>, nodes: seq<Node>, q: seq<nat>, C: seq<nat>)
    requires QueueFringe(N, q) && ParentsDone(N, q) && q != [] && q[0] !in q[1..]
    requires Brood(N, q[0], C) && LinkedMore(N, nodes, C)
    ensures QueueFringe(nodes, q[1..] + C)
  {
    var q' := q[1..] + C;
    forall i | 0 <= i < |q'| ensures ChildrenUnlinked(nodes, q'[i]) {
      if i < |q| - 1 {
        assert q'[i] == q[i + 1] && ChildrenUnlinked(N, q[i + 1]);
      } else {
        assert q'[i] in C;
      }
    }
  }

  lemma NextClosed(N: seq<Node>, nodes: seq<Node>, q: seq<nat>, C: seq<nat>)
    requires DoneClosed(N, q) && q != [] && q == [q[0]] + q[1..]
    requires Brood(N, q[0], C) && LinkedMore(N, nodes, C)
    ensures DoneClosed(nodes, q[1..] + C)
  {
    forall k | 0 <= k < |nodes| && Linked(nodes, k) && k !in q[1..] + C ensures ChildrenLinked(nodes, k) {
      if k != q[0] {
        assert ChildrenLinked(N, k);
      }
    }
  }

  lemma NextParents(N: seq<Node>, nodes: seq<Node>, q: seq<nat>, C: seq<nat>)
    requires ParentsDone(N, q) && q != [] && q == [q[0]] + q[1..] && q[0] !in q[1..] && Linked(N, q[0])
    requires Brood(N, q[0], C) && LinkedMore(N, nodes, C)
    ensures ParentsDone(nodes, q[1..] + C)
  {
    forall p, b | 0 <= p < |nodes| && b in nodes[p].children && Linked(nodes, nodes[p].children[b])
      ensures Linked(nodes, p) && p !in q[1..] + C
    {
      assert b in N[p].children && nodes[p].children[b] == N[p].children[b];
    }
  }

  lemma NextLevels(N: seq<Node>, nodes: seq<Node>, q: seq<nat>, order: seq<nat>, C: seq<nat>)
    requires QueueLevels(N, q, order) && q != [] && Brood(N, q[0], C)
    requires |nodes| == |N| && SameSkeleton(N, nodes)
    ensures QueueLevels(nodes, q[1..] + C, order + [q[0]])
  {
    NextOrdered(N, nodes, q, order, C);
    NextSpan(N, nodes, q, order, C);
  }

  /** The dequeued and queued nodes stay in level order when the children go to the back. */
  lemma NextOrdered(N: seq<Node>, nodes: seq<Node>, q: seq<nat>, order: seq<nat>, C: seq<nat>)
    requires QueueLevels(N, q, order) && q != [] && Brood(N, q[0], C)
    requires |nodes| == |N| && SameSkeleton(N, nodes)
    ensures LevelOrdered(nodes, (order + [q[0]]) + (q[1..] + C))
  {
    var n, s := q[0], order + q;
    var L := N[n].level;
    assert s[|order|] == n && s[|s| - 1] == q[|q| - 1];
    assert forall i :: 0 <= i < |s| ==> N[s[i]].level <= L + 1;
    var t := s + C;
    assert (order + [n]) + (q[1..] + C) == t;
    forall i | 0 <= i < |t| ensures t[i] < |N| && nodes[t[i]].level == N[t[i]].level {
      if i >= |s| { assert t[i] in C; }
    }
    forall i, j | 0 <= i <= j < |t| ensures nodes[t[i]].level <= nodes[t[j]].level {
      if j >= |s| {
        assert t[j] in C;
        if i >= |s| { assert t[i] in C; }
      }
    }
  }

  /** The new queue still spans at most two adjacent levels. */
  lemma NextSpan(N: seq<Node>, nodes: seq<Node>, q: seq<nat>, order: seq<nat>, C: seq<nat>)
    requires QueueLevels(N, q, order) && q != [] && Brood(N, q[0], C)
    requires |nodes| == |N| && SameSkeleton(N, nodes)
    ensures var q' := q[1..] + C;
            q' != [] && q'[0] < |nodes| && q'[|q'| - 1] < |nodes| ==>
              nodes[q'[|q'| - 1]].level <= nodes[q'[0]].level + 1
  {
    var n, s, q' := q[0], order + q, q[1..] + C;
    var L := N[n].level;
    assert s[|order|] == n && s[|s| - 1] == q[|q| - 1];
    forall i | 1 <= i < |q| ensures q[i] < |N| && L <= N[q[i]].level {
      assert s[|order| + i] == q[i];
    }
    if q' != [] {
      assert q'[0] < |N| && L <= N[q'[0]].level by {
        if |q| > 1 { assert q'[0] == q[1]; } else { assert q'[0] in C; }
      }
      if C != [] {
        assert q'[|q'| - 1] == C[|C| - 1];
      } else {
        assert q'[|q'| - 1] == q[|q| - 1];
      }
    }
  }


  // ---------------------------------------------------------------------------
  // The whole pass.

  /** The arena once the root links to itself and the first-level loop has handled the slots below i. */
  ghost predicate Seeded(nodes0: seq<Node>, nodes: seq<Node>, i: nat) {
    && |nodes| == |nodes0| > 0 && i <= MaxChildren
    && forall k :: 0 <= k < |nodes| ==>
         nodes[k] == if k == Root || k in ChildrenBelow(nodes0[Root].children, i)
                     then nodes0[k].(failureLink := Some(Root)) else nodes0[k]
  }

  /** After the first-level loop, the root and its children carry the intended links. */
  lemma InitialSound(nodes0: seq<Node>, nodes: seq<Node>, spelling: seq<Word>, index: map<Word, nat>, P: seq<Word>)
    requires Shape(nodes0, spelling, index) && Unlinked(nodes0) && Seeded(nodes0, nodes, MaxChildren)
    ensures LinksSound(nodes, spelling, index, P)
  {
    forall k | 0 <= k < |nodes| && Linked(nodes, k) ensures LinkedCorrectly(nodes, spelling, index, P, k) {
      if k != Root {
        var b := ChildrenBelowSlot(nodes0[Root].children, MaxChildren, k);
        assert spelling[k] == spelling[Root] + [b] == [b];
      }
      assert Drop1(spelling[k]) == [];
    }
  }

  /**
   * The state before the queue loop: the root and its children link to the root,
   * and the children are queued. It is the state after a dequeue of the root from
   * a queue holding only the root, with the root linked.
   */
  lemma InitialFrontier(nodes0: seq<Node>, nodes: seq<Node>, spelling: seq<Word>, index: map<Word, nat>, P: seq<Word>)
    requires Built(nodes0, spelling, index, P) && Unlinked(nodes0) && Seeded(nodes0, nodes, MaxChildren)
    ensures |nodes| == |nodes0| && SameSkeleton(nodes0, nodes)
    ensures Frontier(nodes, spelling, index, P, Children(nodes0, Root), [])
  {
    var C := Children(nodes0, Root);
    assert SameSkeleton(nodes0, nodes);
    SkeletonKeepsShape(nodes0, nodes, spelling, index, P);
    InitialSound(nodes0, nodes, spelling, index, P);
    var N1 := RootLinked(nodes0, nodes, spelling, index);
    assert [Root][1..] + C == C;
    NextFringe(N1, nodes, [Root], C);
    NextClosed(N1, nodes, [Root], C);
    NextParents(N1, nodes, [Root], C);
    InitialQueue(N1, nodes, C);
  }

  /** N1, the arena with only the root linked, is a state the queue step applies to, with the root queued. */
  lemma RootLinked(nodes0: seq<Node>, nodes: seq<Node>, spelling: seq<Word>, index: map<Word, nat>)
    returns (N1: seq<Node>)
    requires Shape(nodes0, spelling, index) && Unlinked(nodes0) && Seeded(nodes0, nodes, MaxChildren)
    ensures Brood(N1, Root, Children(nodes0, Root)) && LinkedMore(N1, nodes, Children(nodes0, Root))
    ensures forall k :: 0 < k < |N1| ==> !Linked(N1, k)
    ensures Linked(N1, Root) && [Root] == [Root] + [Root][1..] && Root !in [Root][1..]
    ensures QueueFringe(N1, [Root]) && ParentsDone(N1, [Root]) && DoneClosed(N1, [Root])
  {
    N1 := RootOnly(nodes0, spelling, index);
    assert SameSkeleton(N1, nodes);
  }

  /** The arena with only the root linked. */
  lemma RootOnly(nodes0: seq<Node>, spelling: seq<Word>, index: map<Word, nat>) returns (N1: seq<Node>)
    requires Shape(nodes0, spelling, index) && Unlinked(nodes0)
    ensures N1 == nodes0[Root := nodes0[Root].(failureLink := Some(Root))]
    ensures Brood(N1, Root, Children(nodes0, Root))
    ensures forall k :: 0 < k < |N1| ==> !Linked(N1, k)
    ensures Linked(N1, Root) && [Root] == [Root] + [Root][1..] && Root !in [Root][1..]
    ensures QueueFringe(N1, [Root]) && ParentsDone(N1, [Root]) && DoneClosed(N1, [Root])
  {
    var C := Children(nodes0, Root);
    N1 := nodes0[Root := nodes0[Root].(failureLink := Some(Root))];
    assert SameSkeleton(nodes0, N1);
    TreeKeepsShape(nodes0, N1, spelling, index);
    ChildrenNotRoot(N1, spelling, index);
    assert Children(N1, Root) == C;
    assert ChildrenUnlinked(N1, Root);
    ChildrenMembers(N1, spelling, index, Root);
    forall p, b | 0 <= p < |N1| && b in N1[p].children ensures !Linked(N1, N1[p].children[b]) {
      assert N1[p].children[b] != Root;
    }
  }

  /** The only linked node before the first-level children are is the root. */
  lemma InitialQueue(N1: seq<Node>, nodes: seq<Node>, C: seq<nat>)
    requires Brood(N1, Root, C) && LinkedMore(N1, nodes, C)
    requires forall k :: 0 < k < |N1| ==> !Linked(N1, k)
    ensures QueueCovers(nodes, C, []) && QueueLevels(nodes, C, [])
  {
    assert [] + C == C;
    InitialLevels(N1, nodes, C);
  }

  lemma InitialLevels(N1: seq<Node>, nodes: seq<Node>, C: seq<nat>)
    requires Brood(N1, Root, C) && |nodes| == |N1| && SameSkeleton(N1, nodes)
    ensures LevelOrdered(nodes, C)
  {
    forall i | 0 <= i < |C| ensures C[i] < |nodes| && nodes[C[i]].level == N1[Root].level + 1 {
      assert C[i] in C;
    }
  }

  /**
   * The start of the linking pass: the root links to itself, and each child of the
   * root, in byte order, links to the root and is enqueued.
   */
  method LinkFirstLevel(nodes0: seq<Node>, ghost spelling: seq<Word>, ghost index: map<Word, nat>)
    returns (nodes: seq<Node>, q: seq<nat>)
    requires Shape(nodes0, spelling, index)
    ensures Seeded(nodes0, nodes, MaxChildren) && q == Children(nodes0, Root)
  {
    nodes := nodes0[Root := nodes0[Root].(failureLink := Some(Root))];
    q := [];
    for i := 0 to MaxChildren
      invariant Seeded(nodes0, nodes, i) && q == ChildrenBelow(nodes0[Root].children, i)
    {
      var b: byte := i as byte;
      SeedStep(nodes0, nodes, spelling, index, i);
      if b in nodes[Root].children {
        var c: nat := nodes[Root].children[b];
        nodes := nodes[c := nodes[c].(failureLink := Some(Root))];
        q := q + [c];
      }
    }
  }

  /** One turn of the first-level loop keeps `Seeded`. */
  lemma SeedStep(nodes0: seq<Node>, nodes: seq<Node>, spelling: seq<Word>, index: map<Word, nat>, i: nat)
    requires Shape(nodes0, spelling, index) && Seeded(nodes0, nodes, i) && i < MaxChildren
    ensures nodes[Root].children == nodes0[Root].children
    ensures (i as byte) !in nodes[Root].children ==>
      Seeded(nodes0, nodes, i + 1) && ChildrenBelow(nodes0[Root].children, i + 1) == ChildrenBelow(nodes0[Root].children, i)
    ensures (i as byte) in nodes[Root].children ==>
      && 0 < nodes[Root].children[i as byte] < |nodes|
      && Seeded(nodes0, nodes[nodes[Root].children[i as byte] :=
                             nodes[nodes[Root].children[i as byte]].(failureLink := Some(Root))], i + 1)
      && ChildrenBelow(nodes0[Root].children, i + 1) == ChildrenBelow(nodes0[Root].children, i) + [nodes[Root].children[i as byte]]
  {
    ChildrenNotRoot(nodes0, spelling, index);
    assert nodes[Root].children == nodes0[Root].children;
  }

  /** One turn of the queue loop: the head n is dequeued and its children linked and enqueued. */
  method Dequeue(nodes: seq<Node>, ghost spelling: seq<Word>, ghost index: map<Word, nat>, ghost P: seq<Word>,
                 q: seq<nat>, ghost order: seq<nat>) returns (nodes': seq<Node>, q': seq<nat>, ghost order': seq<nat>)
    requires Frontier(nodes, spelling, index, P, q, order) && q != []
    ensures Frontier(nodes', spelling, index, P, q', order') && order' == order + [q[0]]
    ensures |nodes'| == |nodes| && SameSkeleton(nodes, nodes') && |order'| <= |nodes|
    ensures 0 < q[0] < |nodes| && q' == q[1..] + Children(nodes, q[0])
    ensures LinkingChildren(nodes, nodes', spelling, index, P, q[0], Children(nodes, q[0]))
  {
    var n: nat := q[0];
    ShallowLinkedUpTo(nodes, spelling, index, P, q, order);
    nodes', q' := LinkChildren(nodes, spelling, index, P, n, q[1..]);
    FrontierNext(nodes, nodes', spelling, index, P, q, order);
    order' := order + [n];
    DistinctBelow(order' + q', |nodes'|);
  }

  /**
   * The linking half of `BuildTrie`: the root and its children get the root as
   * failure link, then a queue loop links the children of each dequeued node. Every node ends with its intended links; `order` is the order nodes leave
   * the queue: every non-root node exactly once, by non-decreasing level.
   */
  method LinkAll(nodes0: seq<Node>, ghost spelling: seq<Word>, ghost index: map<Word, nat>, ghost P: seq<Word>)
    returns (nodes: seq<Node>, ghost order: seq<nat>)
    requires Built(nodes0, spelling, index, P) && Unlinked(nodes0)
    ensures |nodes| == |nodes0| && SameSkeleton(nodes0, nodes)
    ensures Automaton(nodes, spelling, index, P)
    ensures Distinct(order) && (forall k :: k in order <==> 0 < k < |nodes|)
    ensures LevelOrdered(nodes, order)
  {
    var q: seq<nat>;
    nodes, q := LinkFirstLevel(nodes0, spelling, index);
    InitialFrontier(nodes0, nodes, spelling, index, P);
    order := [];
    while q != []
      invariant Frontier(nodes, spelling, index, P, q, order)
      invariant |nodes| == |nodes0| && SameSkeleton(nodes0, nodes) && |order| <= |nodes0|
      decreases |nodes0| - |order|
    {
      ghost var before := nodes;
      nodes, q, order := Dequeue(nodes, spelling, index, P, q, order);
      SameSkeletonTrans(nodes0, before, nodes);
    }
    Finished(nodes, spelling, index, P, order);
  }

  lemma SameSkeletonTrans(a: seq<Node>, b: seq<Node>, c: seq<Node>)
    requires SameSkeleton(a, b) && SameSkeleton(b, c)
    ensures SameSkeleton(a, c)
  {
  }

  /** With the queue empty, every node has its intended links and every non-root node was dequeued once. */
  lemma Finished(nodes: seq<Node>, spelling: seq<Word>, index: map<Word, nat>, P: seq<Word>, order: seq<nat>)
    requires Frontier(nodes, spelling, index, P, [], order)
    ensures Automaton(nodes, spelling, index, P)
    ensures Distinct(order) && (forall k :: k in order <==> 0 < k < |nodes|)
    ensures LevelOrdered(nodes, order)
  {
    forall k | 0 <= k < |nodes| ensures LinkedCorrectly(nodes, spelling, index, P, k) {
      AllLinked(nodes, spelling, index, P, order, k);
    }
    assert order + [] == order;
    forall k | 0 < k < |nodes| ensures k in order {
      AllLinked(nodes, spelling, index, P, order, k);
    }
  }
}
