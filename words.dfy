/**
 * Byte strings and the suffix notions the automaton is built on:
 * the longest suffix of a string that lies in a set of strings (what a
 * failure link and the matcher's current state denote) and the longest
 * suffix of a string that is a pattern (what a dictionary link denotes).
 */
module Words {
  import opened Wrappers

  /** The alphabet: `unsigned char` in the source. */
  newtype byte = x: int | 0 <= x < 256

  type Word = seq<byte>

  predicate IsPrefix(s: Word, t: Word) {
    |s| <= |t| && t[..|s|] == s
  }

  predicate IsSuffix(s: Word, t: Word) {
    |s| <= |t| && t[|t| - |s|..] == s
  }

  /** Drops the first byte of a non-empty string: its longest proper suffix. */
  function Drop1(t: Word): (r: Word)
    ensures t != [] ==> |r| == |t| - 1
    ensures t == [] ==> r == []
  {
    if t == [] then [] else t[1..]
  }

  lemma Drop1Append(s: Word, b: byte)
    requires s != []
    ensures Drop1(s + [b]) == Drop1(s) + [b]
  {
    assert (s + [b])[1..] == s[1..] + [b];
  }

  /** The proper suffixes of a string are the suffixes of its longest proper suffix. */
  lemma ProperSuffix(s: Word, t: Word)
    ensures (IsSuffix(s, t) && |s| < |t|) <==> (t != [] && IsSuffix(s, Drop1(t)))
  {
    if t != [] && |s| < |t| {
      assert t[1..][|t[1..]| - |s|..] == t[|t| - |s|..];
    }
  }

  /** A set of strings closed under taking prefixes, containing the empty string: a trie. */
  ghost predicate PrefixClosed(S: set<Word>) {
    [] in S && forall s, b :: s + [b] in S ==> s in S
  }

  /** A trie holds every prefix of each of its strings. */
  lemma {:induction false} PrefixClosedHoldsPrefixes(S: set<Word>, s: Word, t: Word)
    requires PrefixClosed(S) && s in S && IsPrefix(t, s)
    ensures t in S
    decreases |s|
  {
    if |t| < |s| {
      assert s[..|s| - 1] + [s[|s| - 1]] == s;
      assert s[..|s| - 1][..|t|] == s[..|t|];
      assert IsPrefix(t, s[..|s| - 1]);
      PrefixClosedHoldsPrefixes(S, s[..|s| - 1], t);
    } else {
      assert t == s[..|s|] == s;
    }
  }

  /** The longest suffix of `t` that is in `S`. */
  function LongestSuffixIn(t: Word, S: set<Word>): (r: Word)
    requires [] in S
    ensures r in S && |r| <= |t|
    decreases |t|
  {
    if t in S then t else LongestSuffixIn(t[1..], S)
  }

  /** `LongestSuffixIn(t, S)` is a suffix of `t`. */
  lemma {:induction false} LongestSuffixInIsSuffix(t: Word, S: set<Word>)
    requires [] in S
    ensures IsSuffix(LongestSuffixIn(t, S), t)
    decreases |t|
  {
    if t !in S {
      var r := LongestSuffixIn(t[1..], S);
      LongestSuffixInIsSuffix(t[1..], S);
      assert t[1..][|t[1..]| - |r|..] == t[|t| - |r|..];
    }
  }

  /** No suffix of `t` in `S` is longer than `LongestSuffixIn(t, S)`. */
  lemma {:induction false} LongestSuffixInIsLongest(t: Word, S: set<Word>, s: Word)
    requires [] in S && s in S && IsSuffix(s, t)
    ensures |s| <= |LongestSuffixIn(t, S)|
    decreases |t|
  {
    if t !in S {
      assert |s| < |t|;
      assert IsSuffix(s, t[1..]) by {
        assert t[1..][|t[1..]| - |s|..] == t[|t| - |s|..];
      }
      LongestSuffixInIsLongest(t[1..], S, s);
    }
  }

  /**
   * The classical extension step: the longest suffix of `t + [b]` in a trie is
   * the longest suffix in the trie of (the longest suffix of `t` in the trie) + [b].
   */
  lemma {:induction false} LongestSuffixInExtend(t: Word, b: byte, S: set<Word>)
    requires PrefixClosed(S)
    ensures LongestSuffixIn(t + [b], S) == LongestSuffixIn(LongestSuffixIn(t, S) + [b], S)
    decreases |t|
  {
    if t !in S {
      assert t != [];
      assert t + [b] !in S;
      assert (t + [b])[1..] == t[1..] + [b];
      LongestSuffixInExtend(t[1..], b, S);
    }
  }

  /**
   * The fallback step: when `u + [c]` is not in the trie, its longest suffix there is
   * that of (the longest proper suffix of `u` in the trie) + [c].
   */
  lemma LongestSuffixInFallback(u: Word, c: byte, S: set<Word>)
    requires PrefixClosed(S) && u != [] && u + [c] !in S
    ensures LongestSuffixIn(u + [c], S) == LongestSuffixIn(LongestSuffixIn(Drop1(u), S) + [c], S)
  {
    assert (u + [c])[1..] == Drop1(u) + [c];
    LongestSuffixInExtend(Drop1(u), c, S);
  }

  /** The longest non-empty suffix of `t` that is one of the patterns `P`, if any. */
  function LongestPatternSuffix(t: Word, P: seq<Word>): (r: Option<Word>)
    ensures r.Some? ==> r.value in P && r.value != [] && |r.value| <= |t|
    decreases |t|
  {
    if t == [] then None
    else if t in P then Some(t)
    else LongestPatternSuffix(t[1..], P)
  }

  /** `LongestPatternSuffix(t, P)`, when there is one, is a suffix of `t`. */
  lemma {:induction false} LongestPatternSuffixIsSuffix(t: Word, P: seq<Word>)
    requires LongestPatternSuffix(t, P).Some?
    ensures IsSuffix(LongestPatternSuffix(t, P).value, t)
    decreases |t|
  {
    if t !in P {
      var r := LongestPatternSuffix(t[1..], P).value;
      LongestPatternSuffixIsSuffix(t[1..], P);
      assert t[1..][|t[1..]| - |r|..] == t[|t| - |r|..];
    }
  }

  /** Every non-empty pattern suffix of `t` is at most as long as `LongestPatternSuffix(t, P)`. */
  lemma {:induction false} LongestPatternSuffixIsLongest(t: Word, P: seq<Word>, s: Word)
    requires s in P && s != [] && IsSuffix(s, t)
    ensures LongestPatternSuffix(t, P).Some?
    ensures |s| <= |LongestPatternSuffix(t, P).value|
    decreases |t|
  {
    if t !in P {
      assert |s| < |t|;
      assert IsSuffix(s, t[1..]) by {
        assert t[1..][|t[1..]| - |s|..] == t[|t| - |s|..];
      }
      LongestPatternSuffixIsLongest(t[1..], P, s);
    }
  }

  /**
   * When every pattern lies in the trie `S`, the patterns that are suffixes of `t`
   * are exactly those that are suffixes of the longest suffix of `t` in `S`.
   */
  lemma {:induction false} LongestPatternSuffixInTrie(t: Word, P: seq<Word>, S: set<Word>)
    requires [] in S && forall p :: p in P ==> p in S
    ensures LongestPatternSuffix(t, P) == LongestPatternSuffix(LongestSuffixIn(t, S), P)
    decreases |t|
  {
    if t !in S {
      LongestPatternSuffixInTrie(t[1..], P, S);
    }
  }
}
