/**
 * Reference definitions of what the three matchers report, written directly on
 * the text and the pattern list (no trie involved), with their characterisations.
 *
 * A reported match is the pair that the source prints: the offset of the
 * occurrence in the text and its length.
 */
module Occurrences {
  import opened Wrappers
  import opened Words

  datatype Match = Match(offset: nat, length: nat)

  /** One past the last text position covered by `m`. */
  function End(m: Match): nat {
    m.offset + m.length
  }

  /** `m` covers a piece of the text that is one of the patterns. */
  predicate IsOccurrence(m: Match, text: Word, P: seq<Word>) {
    End(m) <= |text| && text[m.offset..End(m)] in P
  }

  predicate OccursAt(p: Word, text: Word, j: nat) {
    j + |p| <= |text| && text[j..j + |p|] == p
  }

  predicate Distinct<T(==)>(s: seq<T>) {
    forall a, b :: 0 <= a < b < |s| ==> s[a] != s[b]
  }

  lemma AppendAssociates<T>(a: seq<T>, b: seq<T>, c: seq<T>)
    ensures (a + b) + c == a + (b + c)
  {
  }

  /** Replacing a tail e of target by its first element m and the rest r moves m into the prefix. */
  lemma ShiftHead<T>(found: seq<T>, e: seq<T>, m: T, r: seq<T>, target: seq<T>)
    requires found + e == target && e == [m] + r
    ensures found + [m] + r == target
  {
    AppendAssociates(found, [m], r);
  }

  lemma DistinctAppend<T>(s: seq<T>, t: seq<T>)
    requires Distinct(s) && Distinct(t)
    requires forall x :: x in s ==> x !in t
    ensures Distinct(s + t)
  {
    forall a, b | 0 <= a < b < |s + t| ensures (s + t)[a] != (s + t)[b] {
      if a < |s| && b >= |s| {
        assert (s + t)[a] in s && (s + t)[b] in t;
      }
    }
  }

  /** A repetition-free sequence has as many elements as its set of elements. */
  lemma {:induction false} DistinctCardinality<T>(s: seq<T>)
    requires Distinct(s)
    ensures |set x | x in s| == |s|
  {
    if s != [] {
      var init := s[..|s| - 1];
      assert Distinct(init);
      DistinctCardinality(init);
      assert s[|s| - 1] !in init;
      assert (set x | x in s) == (set x | x in init) + {s[|s| - 1]} by {
        assert s == init + [s[|s| - 1]];
      }
    }
  }

  /** Two repetition-free sequences with the same elements have the same length. */
  lemma SameElementsSameLength<T>(s: seq<T>, t: seq<T>)
    requires Distinct(s) && Distinct(t)
    requires forall x :: x in s <==> x in t
    ensures |s| == |t|
  {
    DistinctCardinality(s);
    DistinctCardinality(t);
    assert (set x | x in s) == (set x | x in t);
  }

  // ---------------------------------------------------------------------------
  // The automaton scan: at every end position, the patterns ending there, longest first.

  /**
   * The matches of the patterns that are suffixes of `t`, where `t` is the text
   * up to (not including) position `end`, longest first.
   */
  function EndingAt(t: Word, end: nat, P: seq<Word>): seq<Match>
    requires |t| <= end
    decreases |t|
  {
    if t == [] then []
    else (if t in P then [Match(end - |t|, |t|)] else []) + EndingAt(t[1..], end, P)
  }

  /** The scan's reports after the first `i` bytes of the text. */
  function AhoUpTo(text: Word, P: seq<Word>, i: nat): seq<Match>
    requires i <= |text|
  {
    if i == 0 then [] else AhoUpTo(text, P, i - 1) + EndingAt(text[..i], i, P)
  }

  /** Everything the single-pass automaton scan reports, in report order. */
  function AhoSpec(text: Word, P: seq<Word>): seq<Match> {
    AhoUpTo(text, P, |text|)
  }

  lemma {:induction false} EndingAtMembers(t: Word, end: nat, P: seq<Word>, m: Match)
    requires |t| <= end
    ensures m in EndingAt(t, end, P) <==>
              0 < m.length <= |t| && End(m) == end && t[|t| - m.length..] in P
    decreases |t|
  {
    if t != [] {
      EndingAtMembers(t[1..], end, P, m);
      if 0 < m.length < |t| {
        assert t[1..][|t[1..]| - m.length..] == t[|t| - m.length..];
      }
    }
  }

  /** The reports at one end position all end there and come in strictly decreasing length. */
  lemma {:induction false} EndingAtOrdered(t: Word, end: nat, P: seq<Word>)
    requires |t| <= end
    ensures forall a :: 0 <= a < |EndingAt(t, end, P)| ==>
              End(EndingAt(t, end, P)[a]) == end && 0 < EndingAt(t, end, P)[a].length <= |t|
    ensures forall a, b :: 0 <= a < b < |EndingAt(t, end, P)| ==>
              EndingAt(t, end, P)[a].length > EndingAt(t, end, P)[b].length
    decreases |t|
  {
    if t != [] {
      EndingAtOrdered(t[1..], end, P);
    }
  }

  /** The scan reports exactly the non-empty occurrences that end within the first `i` bytes. */
  lemma {:induction false} AhoUpToMembers(text: Word, P: seq<Word>, i: nat)
    requires i <= |text|
    ensures forall m :: m in AhoUpTo(text, P, i) <==>
              0 < m.length && End(m) <= i && IsOccurrence(m, text, P)
  {
    if i > 0 {
      AhoUpToMembers(text, P, i - 1);
      forall m ensures m in AhoUpTo(text, P, i) <==> 0 < m.length && End(m) <= i && IsOccurrence(m, text, P) {
        EndingAtMembers(text[..i], i, P, m);
        if 0 < m.length <= i && End(m) == i {
          assert text[..i][i - m.length..] == text[m.offset..End(m)];
        }
      }
    }
  }

  /** Report order: increasing end position; at one end position, decreasing length. */
  predicate Before(x: Match, y: Match) {
    End(x) < End(y) || (End(x) == End(y) && x.length > y.length)
  }

  lemma {:induction false} AhoUpToOrdered(text: Word, P: seq<Word>, i: nat)
    requires i <= |text|
    ensures forall a :: 0 <= a < |AhoUpTo(text, P, i)| ==> End(AhoUpTo(text, P, i)[a]) <= i
    ensures forall a, b :: 0 <= a < b < |AhoUpTo(text, P, i)| ==>
              Before(AhoUpTo(text, P, i)[a], AhoUpTo(text, P, i)[b])
  {
    if i > 0 {
      AhoUpToOrdered(text, P, i - 1);
      EndingAtOrdered(text[..i], i, P);
      var s, t := AhoUpTo(text, P, i - 1), EndingAt(text[..i], i, P);
      assert AhoUpTo(text, P, i) == s + t;
      forall a, b | 0 <= a < b < |s + t| ensures Before((s + t)[a], (s + t)[b]) {
        if b < |s| {
          assert (s + t)[a] == s[a] && (s + t)[b] == s[b];
        } else if a >= |s| {
          assert (s + t)[a] == t[a - |s|] && (s + t)[b] == t[b - |s|];
        } else {
          assert (s + t)[a] == s[a] && (s + t)[b] == t[b - |s|];
        }
      }
    }
  }

  // ---------------------------------------------------------------------------
  // The brute-force search: every pattern in turn, every position where it occurs.

  /**
   * `std::string::find(p, from)`: the first position at or after `from` where `p`
   * occurs in `text`, or None for `npos`.
   */
  function StringFind(text: Word, p: Word, from: nat): (r: Option<nat>)
    ensures r.Some? ==> from <= r.value && OccursAt(p, text, r.value)
    ensures forall k :: from <= k && (r.None? || k < r.value) ==> !OccursAt(p, text, k)
    decreases |text| - from
  {
    if from + |p| > |text| then None
    else if OccursAt(p, text, from) then Some(from)
    else StringFind(text, p, from + 1)
  }

  /** The occurrences of `p` at positions `j` and beyond, in increasing position. */
  function Positions(p: Word, text: Word, j: nat): seq<Match>
    decreases |text| - j
  {
    if j + |p| > |text| then []
    else (if OccursAt(p, text, j) then [Match(j, |p|)] else []) + Positions(p, text, j + 1)
  }

  /** All occurrences of every pattern, pattern by pattern, as the brute-force search reports them. */
  function FindSpec(P: seq<Word>, text: Word): seq<Match> {
    if P == [] then [] else FindSpec(P[..|P| - 1], text) + Positions(P[|P| - 1], text, 0)
  }

  /** Jumping to the next occurrence found by `StringFind` skips no occurrence. */
  lemma {:induction false} PositionsByFind(p: Word, text: Word, j: nat)
    ensures StringFind(text, p, j).None? ==> Positions(p, text, j) == []
    ensures StringFind(text, p, j).Some? ==>
              Positions(p, text, j)
              == [Match(StringFind(text, p, j).value, |p|)] + Positions(p, text, StringFind(text, p, j).value + 1)
    decreases |text| - j
  {
    if j + |p| > |text| {
      assert StringFind(text, p, j) == None;
    } else if OccursAt(p, text, j) {
      assert StringFind(text, p, j) == Some(j);
      assert Positions(p, text, j) == [Match(j, |p|)] + Positions(p, text, j + 1);
    } else {
      assert StringFind(text, p, j) == StringFind(text, p, j + 1);
      assert Positions(p, text, j) == Positions(p, text, j + 1);
      PositionsByFind(p, text, j + 1);
    }
  }


  lemma {:induction false} PositionsMembers(p: Word, text: Word, j: nat, m: Match)
    ensures m in Positions(p, text, j) <==> m.length == |p| && j <= m.offset && OccursAt(p, text, m.offset)
    decreases |text| - j
  {
    if j + |p| <= |text| {
      PositionsMembers(p, text, j + 1, m);
    }
  }

  lemma {:induction false} PositionsOrdered(p: Word, text: Word, j: nat)
    ensures forall a :: 0 <= a < |Positions(p, text, j)| ==> j <= Positions(p, text, j)[a].offset
    ensures forall a, b :: 0 <= a < b < |Positions(p, text, j)| ==>
              Positions(p, text, j)[a].offset < Positions(p, text, j)[b].offset
    decreases |text| - j
  {
    if j + |p| <= |text| {
      PositionsOrdered(p, text, j + 1);
    }
  }

  /** The brute-force search reports exactly the occurrences of the patterns. */
  lemma {:induction false} FindSpecMembers(P: seq<Word>, text: Word)
    ensures forall m :: m in FindSpec(P, text) <==> IsOccurrence(m, text, P)
  {
    if P != [] {
      var init, last := P[..|P| - 1], P[|P| - 1];
      FindSpecMembers(init, text);
      assert P == init + [last];
      forall m ensures m in FindSpec(P, text) <==> IsOccurrence(m, text, P) {
        PositionsMembers(last, text, 0, m);
      }
    }
  }

  /** For distinct patterns the brute-force search reports no match twice. */
  lemma {:induction false} FindSpecDistinct(P: seq<Word>, text: Word)
    requires Distinct(P)
    ensures Distinct(FindSpec(P, text))
  {
    if P != [] {
      var init, last := P[..|P| - 1], P[|P| - 1];
      assert Distinct(init);
      FindSpecDistinct(init, text);
      FindSpecMembers(init, text);
      PositionsOrdered(last, text, 0);
      forall m | m in FindSpec(init, text) ensures m !in Positions(last, text, 0) {
        PositionsMembers(last, text, 0, m);
      }
      DistinctAppend(FindSpec(init, text), Positions(last, text, 0));
    }
  }

  // ---------------------------------------------------------------------------
  // The literal trie walk from every start position.

  /**
   * The matches starting at `i` with length at least `k` that end no later than `end`,
   * shortest first.
   */
  function StartingAt(text: Word, P: seq<Word>, i: nat, k: nat, end: nat): seq<Match>
    requires end <= |text|
    decreases end + 1 - i - k
  {
    if i + k > end then []
    else (if text[i..i + k] in P then [Match(i, k)] else []) + StartingAt(text, P, i, k + 1, end)
  }

  /** The walk's reports for the start positions below `i`, reporting only matches ending by `end`. */
  function TrieWalkUpTo(text: Word, P: seq<Word>, i: nat, end: nat): seq<Match>
    requires i <= |text| && end <= |text|
  {
    if i == 0 then [] else TrieWalkUpTo(text, P, i - 1, end) + StartingAt(text, P, i - 1, 0, end)
  }

  /**
   * What `MatchPatternsWithTriesOnly` reports as written: its do/while loop stops as
   * soon as the last byte has been consumed, before the node reached is examined,
   * so no match ending at the last byte is reported.
   */
  function TrieOnlySpec(text: Word, P: seq<Word>): seq<Match> {
    if text == [] then [] else TrieWalkUpTo(text, P, |text|, |text| - 1)
  }

  /** What the trie walk reports once the node reached at the end of the text is examined too. */
  function CorrectedTrieOnlySpec(text: Word, P: seq<Word>): seq<Match> {
    TrieWalkUpTo(text, P, |text|, |text|)
  }

  lemma {:induction false} StartingAtMembers(text: Word, P: seq<Word>, i: nat, k: nat, end: nat, m: Match)
    requires end <= |text|
    ensures m in StartingAt(text, P, i, k, end) <==>
              m.offset == i && k <= m.length && End(m) <= end && text[i..End(m)] in P
    decreases end + 1 - i - k
  {
    if i + k <= end {
      StartingAtMembers(text, P, i, k + 1, end, m);
    }
  }

  /** Once the walk from `i` leaves the trie, no longer match from `i` remains. */
  lemma {:induction false} StartingAtOutsideTrie(text: Word, P: seq<Word>, S: set<Word>, i: nat, k: nat, end: nat)
    requires end <= |text| && i + k <= |text|
    requires PrefixClosed(S) && forall p :: p in P ==> p in S
    requires text[i..i + k] !in S
    ensures StartingAt(text, P, i, k, end) == []
    decreases end + 1 - i - k
  {
    if i + k < end {
      assert text[i..i + k + 1] == text[i..i + k] + [text[i + k]];
      StartingAtOutsideTrie(text, P, S, i, k + 1, end);
    }
  }

  lemma {:induction false} TrieWalkUpToMembers(text: Word, P: seq<Word>, i: nat, end: nat)
    requires i <= |text| && end <= |text|
    ensures forall m :: m in TrieWalkUpTo(text, P, i, end) <==>
              m.offset < i && End(m) <= end && IsOccurrence(m, text, P)
  {
    if i > 0 {
      TrieWalkUpToMembers(text, P, i - 1, end);
      forall m ensures m in TrieWalkUpTo(text, P, i, end) <==> m.offset < i && End(m) <= end && IsOccurrence(m, text, P) {
        StartingAtMembers(text, P, i - 1, 0, end, m);
      }
    }
  }
}
