# Aho–Corasick multi-pattern matching

This project models the core of `src/aho_corasick.cpp`, a C++ program that finds
every occurrence of a set of patterns in a text in three ways:

- `Aho::BuildTrie` builds the trie of the patterns. It adds failure links ("the
  longest proper suffix that is also in the trie") and dictionary links ("the next
  pattern that ends here"). It sets them level by level from a queue.
- `Aho::MatchPatterns` runs the automaton over the text once and reports every
  occurrence.
- `Aho::MatchPatternsWithTriesOnly` walks the bare trie from every start position.
- `find` is the brute-force reference. For each pattern it calls
  `std::string::find` again and again.

The model is imperative, like the source:

- The nodes are an arena `seq<Node>` held by class `AhoCorasick.Aho`. Child pointers
  and link pointers are arena indices, and index 0 is the root.
- `BuildTrie`, the first-level loop, the queue loop, the failure chase and both
  matchers are methods with `while`/`for` loops.
- Each method is proved against a string-level specification:
  - `Words.LongestSuffixIn` is the longest suffix of a string that is in the trie.
  - `Words.LongestPatternSuffix` is the longest suffix that is a pattern.
  - `Occurrences.AhoSpec`, `Occurrences.FindSpec` and `Occurrences.TrieOnlySpec`
    say what each search reports.
- Lemmas connect those specifications to occurrences in the text:
  - the reports of the automaton are exactly the brute-force reports;
  - they come in order and without duplicates;
  - the trie walk misses matches at the end.
- Ghost state ties each node to the string spelled from the root to it:
  - `spelling` maps each node to its string;
  - `index` maps each string back to its node;
  - `bfsOrder` is the order in which nodes leave the queue.

Bytes are `byte` (an 8-bit newtype), and strings are `seq<byte>`. A reported
occurrence is a `Match(offset, length)`. The source prints the matched text and its
offset. The model records the offset and the length, which fix the printed text
`text[offset..offset + length]`. The occurrence counter the source
prints is returned next to the list of reports.

Files:

| file | contents |
|---|---|
| `wrappers.dfy` | `Option` |
| `words.dfy` | prefixes, suffixes, `LongestSuffixIn`, `LongestPatternSuffix` |
| `occurrences.dfy` | matches, and the report specifications of the three searches |
| `trie.dfy` | `Node`, the arena invariants, and the link lemmas |
| `linking.dfy` | the linking half of `BuildTrie` |
| `matching.dfy` | the two matchers' loops and `find` |
| `aho.dfy` | class `Aho`, trie insertion, and the entry points |
| `properties.dfy` | the properties of the finished automaton and of the searches |

## Model

| member | source | states |
|---|---|---|
| Trie.NewNode | src/aho_corasick.cpp:74-82 | A new node has the given level and byte. It is not a word and has no children and no links. |
| AhoCorasick.Aho.constructor | src/aho_corasick.cpp:100-102 | Building from non-empty patterns gives a valid automaton. Its node strings are exactly the prefixes of the patterns. |
| AhoCorasick.Aho.BuildTrie | src/aho_corasick.cpp:173-243 | Afterwards every node carries its intended failure and dictionary links, and the nodes are exactly the prefixes of the patterns. The queue releases every non-root node exactly once, by non-decreasing level. |
| AhoCorasick.Aho.InsertAll | src/aho_corasick.cpp:181-197 | The root followed by the insertion loop gives the trie of the patterns. No node has a link yet. |
| AhoCorasick.Aho.Insert | src/aho_corasick.cpp:188-196 | The set of node strings grows by exactly the prefixes of `s`, and old nodes keep their strings. The word nodes are the old ones plus `s`'s node. Inserting a pattern that is already a word node changes nothing. |
| AhoCorasick.Aho.Descend | src/aho_corasick.cpp:190-195 | Descending along `s` creates the missing nodes and ends at `s`'s node. When `s` already has a node, nothing changes. |
| AhoCorasick.DescendFrom | src/aho_corasick.cpp:190-195 | The same descent on the arena value. |
| Trie.WithChild | src/aho_corasick.cpp:193 | Filling an empty slot of node `n` appends one new node: level one more than `n`'s, carrying `c`, with no children and no links. Node `n`'s slot for `c` now leads to it, and every other node stays as it was. |
| AhoCorasick.Filled | src/aho_corasick.cpp:193 | After the slot test, node `n` has a child for `c`. An occupied slot leaves the arena unchanged. An empty slot gets a new node one level deeper, carrying `c`, at the end of the arena; node `n` keeps its other slots and fields, and every other node stays as it was. |
| AhoCorasick.DescentStep | src/aho_corasick.cpp:192-194 | One descent step leaves a slot for `s[j]`. It creates a node of level `j + 1` for `s[..j+1]` only when there was none. |
| AhoCorasick.Aho.MarkWord | src/aho_corasick.cpp:196 | Only node `n` changes, and it becomes a word node. |
| AhoCorasick.InsertNext | src/aho_corasick.cpp:187-197 | After pattern `i` is inserted, the trie spells and marks exactly the first `i + 1` patterns. |
| AhoCorasick.PrefixesUpToMembers | src/aho_corasick.cpp:191-195 | The strings the descent has reached by step `j` are exactly the prefixes of `s` of length at most `j`. |
| Linking.LinkAll | src/aho_corasick.cpp:199-239 | The links are set on an unlinked trie without changing its tree. Every node ends with its intended links. The dequeue order lists every non-root node once, by non-decreasing level. |
| Linking.LinkFirstLevel | src/aho_corasick.cpp:199-209 | The root and every child of the root get the root as failure link. The children are queued in byte order. |
| Linking.Dequeue | src/aho_corasick.cpp:216-238 | The head of the queue is removed (first in, first out) and its children are appended in byte order, so the new queue is the old tail followed by those children. Only those children change, and each gets its intended links. The queue invariant holds again, and the dequeued node is appended to the order. The invariant says: links set so far are correct, exactly the dequeued and queued nodes are linked, and levels do not decrease. |
| Linking.LinkChildren | src/aho_corasick.cpp:218-238 | The children of `n` are appended to the queue in byte order. Each one gets its intended links, and no other node changes. |
| Linking.LinkChild | src/aho_corasick.cpp:220-237 | Only the child changes. It gets its intended failure link and dictionary link, and the links set before stay correct. The dictionary link is given by the rule `Trie.DictionaryTarget`. |
| Linking.LinkSlot | src/aho_corasick.cpp:218-222 | One turn of the slot loop of a dequeued node. When slot `i` holds a child, that child is appended to the queue and linked. The loop state then covers the slots below `i + 1`: the queue is the old queue plus the children of those slots in byte order, only those children changed, and each has its intended links. |
| Linking.ChaseFailure | src/aho_corasick.cpp:223-232 | The chase terminates: the level of the current node strictly decreases. It yields the node of the longest proper suffix of the child's string that is in the trie. |
| Linking.LinkStep | src/aho_corasick.cpp:233-236 | Given the failure target, "the target if it is a word, else the target's dictionary link" is the node of the longest proper suffix that is a pattern. |
| Linking.ChildrenMembers | src/aho_corasick.cpp:218-222 | The slots of a node, scanned in byte order, list each child of the node once. Each child is one level deeper. |
| Trie.FailureShallower | src/aho_corasick.cpp:223-232 | The failure link of a non-root node leads to a strictly shallower node. |
| Trie.FollowFailure | src/aho_corasick.cpp:150-152 | Following a failure link when the slot for `c` is empty does not change the longest trie suffix of (state string + `c`). |
| Trie.DictionaryStep | src/aho_corasick.cpp:234-236 | The dictionary-link rule `Trie.DictionaryTarget` (the failure target if it is a word, else the target's dictionary link) yields the node of the longest pattern suffix of `t`, or null when there is none. |
| Trie.WalkFollowsLabels | src/aho_corasick.cpp:190-195 | Walking the slots along `s` from node `k` reaches the node of `spelling[k] + s`. It fails exactly when there is none. |
| Properties.PatternReached | src/aho_corasick.cpp:187-196 | Walking a pattern from the root reaches a word node whose level is the pattern's length. |
| Properties.ChildLevel | src/aho_corasick.cpp:193 | A child is a non-root node one level below its parent. Its byte is the slot's byte. |
| Properties.RootLinks | src/aho_corasick.cpp:199 | The root fails to itself and has no dictionary link. |
| Properties.DepthOneLinks | src/aho_corasick.cpp:204-209 | A node of level 1 fails to the root and has no dictionary link. |
| Properties.FailureLinkLongest | src/aho_corasick.cpp:223-232 | The failure target of a non-root node is a proper suffix of its string and lies strictly shallower. It is at least as long as every proper suffix that is in the trie. |
| Properties.DictionaryFollowsFailure | src/aho_corasick.cpp:233-236 | The dictionary link of a non-root node is its failure target when that is a word, else the target's own dictionary link. |
| Properties.DictionaryLinkIsWord | src/aho_corasick.cpp:233-236 | A dictionary link leads to a word node. That node is a strictly shorter suffix of the node's string. |
| Properties.DictionaryLinkNull | src/aho_corasick.cpp:233-236 | The dictionary link is null exactly when no pattern is a proper suffix of the node's string. |
| AhoCorasick.Aho.MatchPatterns | src/aho_corasick.cpp:134-171 | Reports `AhoSpec`: for each end position in increasing order, every pattern ending there, longest first. The count is the number of reports. |
| Matching.ScanByte | src/aho_corasick.cpp:145-168 | After byte `i`, the state is the node of the longest suffix of `text[..i+1]` in the trie. The reports are exactly the pattern suffixes of that prefix, longest first. |
| Matching.Fallback | src/aho_corasick.cpp:150-152 | Falling back along failure links stops at a node with a slot for `c`, or at the root. The longest trie suffix of (state + `c`) does not change. |
| Matching.Advance | src/aho_corasick.cpp:154-168 | The next state is the node of the longest trie suffix of (state + `c`). The reports are the patterns that are suffixes of it. |
| Matching.Reports | src/aho_corasick.cpp:157-167 | Reporting the node and then following dictionary links visits exactly the patterns that are suffixes of the state's string, longest first. |
| Matching.ScanWord | src/aho_corasick.cpp:147-155 | The pattern suffixes of the text read so far are those of the longest trie suffix of (state + byte). |
| Matching.ChainNext | src/aho_corasick.cpp:163-166 | Following a dictionary link reports the longest remaining pattern suffix next. |
| Matching.ChainEnd | src/aho_corasick.cpp:163 | A null dictionary link means no shorter pattern suffix remains. |
| Matching.EndingAtTrie | src/aho_corasick.cpp:145-155 | The patterns ending at a position are the same for the text read so far as for its longest suffix in the trie. |
| Occurrences.EndingAtMembers | src/aho_corasick.cpp:157-167 | The reports at one end position are exactly the non-empty pattern suffixes that end there. |
| Occurrences.EndingAtOrdered | src/aho_corasick.cpp:157-167 | Reports at one end position come in strictly decreasing length. |
| Occurrences.AhoUpToMembers | src/aho_corasick.cpp:145-168 | The scan's reports up to `i` are exactly the occurrences of non-empty patterns that end by `i`. |
| Occurrences.AhoUpToOrdered | src/aho_corasick.cpp:145-168 | Reports come by increasing end, and by decreasing length at one end. |
| Properties.ScanDistinct | src/aho_corasick.cpp:134-171 | The automaton never reports the same occurrence twice. |
| Properties.ScanAgreesWithFind | src/aho_corasick.cpp:44-61 | For non-empty patterns, the automaton's reports and the brute-force reports are the same set of occurrences. Every report is a genuine occurrence. |
| Properties.ScanCountsAsFind | src/aho_corasick.cpp:134-171 | For distinct non-empty patterns, both searches give the same occurrence count. |
| Matching.Find | src/aho_corasick.cpp:44-61 | The brute-force search reports `FindSpec`: pattern by pattern, every occurrence, in increasing position. The count is the number of reports. |
| Matching.FindOne | src/aho_corasick.cpp:52-58 | Repeated `find` from one past the last hit reports every occurrence of one pattern, in increasing position. |
| Matching.NextOccurrence | src/aho_corasick.cpp:53-55 | One `find` hit adds one report, and the search continues past it without skipping an occurrence. |
| Occurrences.StringFind | src/aho_corasick.cpp:53 | `std::string::find` returns the first occurrence at or after `from`, or none when there is none. |
| Occurrences.PositionsByFind | src/aho_corasick.cpp:53-55 | Jumping to the next hit of `find` skips no occurrence. |
| Occurrences.PositionsMembers | src/aho_corasick.cpp:52-58 | The reports for one pattern are exactly its occurrences at or after the start. |
| Occurrences.PositionsOrdered | src/aho_corasick.cpp:52-58 | The reports for one pattern come in strictly increasing position. |
| Occurrences.FindSpecMembers | src/aho_corasick.cpp:51-58 | The brute-force reports are exactly the occurrences of the patterns in the text. |
| Occurrences.FindSpecDistinct | src/aho_corasick.cpp:51-58 | For distinct patterns, the brute-force search never reports an occurrence twice. |
| AhoCorasick.Aho.MatchPatternsWithTriesOnly | src/aho_corasick.cpp:104-132 | Reports `TrieOnlySpec`: for each start position, the pattern prefixes of the rest of the text, shortest first, up to but not including the last byte of the text. |
| Matching.WalkFrom | src/aho_corasick.cpp:114-126 | The do/while from start `i` reports exactly the patterns starting at `i` that end before the last byte, shortest first. |
| Matching.WalkStop | src/aho_corasick.cpp:123-126 | Once a slot is empty, no longer pattern starts at `i`. |
| Occurrences.StartingAtMembers | src/aho_corasick.cpp:117-126 | The walk's reports from `i` are exactly the occurrences starting at `i`, no shorter than `k`, that end by `end`. |
| Occurrences.TrieWalkUpToMembers | src/aho_corasick.cpp:113-126 | The walk's reports for the starts below `i` are exactly the occurrences starting below `i` that end by `end`. |
| Properties.TrieOnlyMembers | src/aho_corasick.cpp:113-126 | The trie walk as written reports exactly the occurrences that end before the last byte. |
| Properties.TrieOnlyOnRun | src/aho_corasick.cpp:126 | On a text of `a`s with the single pattern `a`, the walk as written reports one fewer than the text's length. The corrected walk and the automaton report all of them. |
| Properties.TrieOnlyMissesLastByte | src/aho_corasick.cpp:126 | On `aaaa` with the pattern `a`: 3 reports as written, 4 corrected, 4 from the automaton. |
| AhoCorasick.Aho.MatchPatternsWithTriesToEnd | src/aho_corasick.cpp:104-132 | With the last node also examined, the trie walk reports `CorrectedTrieOnlySpec`. |
| Matching.WalkFromToEnd | src/aho_corasick.cpp:114-126 | The corrected walk from `i` reports exactly the patterns starting at `i`, shortest first. |
| Properties.CorrectedAgreesWithScan | src/aho_corasick.cpp:104-132 | The corrected walk reports the same occurrences as the automaton. |
| Words.LongestSuffixInIsLongest | src/aho_corasick.cpp:223-232 | Every suffix in the set is no longer than `LongestSuffixIn`. |
| Words.LongestSuffixInIsSuffix | src/aho_corasick.cpp:223-232 | `LongestSuffixIn(t, S)` is a suffix of `t`. |
| Words.LongestSuffixInExtend | src/aho_corasick.cpp:150-155 | For a prefix-closed set, the longest suffix in the set of `t + [b]` is that of (the longest suffix of `t` in the set) + `[b]`. |
| Words.LongestSuffixInFallback | src/aho_corasick.cpp:150-152 | When `u + [c]` is not in the prefix-closed set, the longest suffix of `u + [c]` can be found from the longest suffix of `u`'s proper suffix. |
| Words.LongestPatternSuffixIsSuffix | src/aho_corasick.cpp:233-236 | The longest pattern suffix is a suffix of `t`. |
| Words.LongestPatternSuffixIsLongest | src/aho_corasick.cpp:233-236 | Whenever some non-empty pattern is a suffix of `t`, the longest pattern suffix exists and is at least as long. |
| Words.LongestPatternSuffixInTrie | src/aho_corasick.cpp:233-236 | The longest pattern suffix of `t` is the longest pattern suffix of `t`'s longest trie suffix. |

## Left out

- Pointers become arena indices in a `seq<Node>`. An assignment to a node field becomes an update of the sequence. Heap allocation, `delete` and aliasing are not modelled.
- The `children[MAX_CHILDREN]` array becomes a `map<byte, nat>` (a missing key is a null slot). Slot scans still run over all `MaxChildren` byte values in order.
- `main`, `get_real_time`, `error_exit`, the argument and file parsing, the shuffle with `rand`, and the timing printouts are not modelled. They are I/O, clocks and randomness outside the core.
- The `print` flag and the `printf` of each match are not modelled. Each report becomes a `Match(offset, length)` in a returned sequence, and the printed count becomes a returned number.
- `Aho::PrintConnections` and `Aho::PrintPatterns` are not modelled. They are debugging output only.
- The `int`/`char`/`unsigned char` casts and the `int` overflow of `occurrence` and `level` are not modelled. Text and patterns are byte strings, and counters are unbounded.
- AhoCorasick.Aho.constructor: the patterns must be non-empty. `main` can pass empty patterns: it drops bank words of 3 bytes or fewer, but `patterns.resize(num_patterns)` pads the list with empty strings whenever `num_patterns` exceeds the number of words kept. Its guard on `num_patterns` never fires once the number has been parsed, because the two tests are joined with `&&`. The model excludes empty patterns. With one, the source marks the root as a word, and the three searches then report zero-length matches in different numbers.
- Properties.ScanCountsAsFind: equal counts are proved only for distinct patterns. With a duplicate pattern, `find` reports each copy while the automaton reports the occurrence once.
- Time complexity is not modelled.

## Findings

| source | as written | input that shows it | evidently intended | confidence | as-written member | corrected member |
|---|---|---|---|---|---|---|
| src/aho_corasick.cpp:117-126 | The do/while consumes `text[j]`, sets `j++` and stops once `j == text.size()`. It stops before the `is_word` test at the top of the loop looks at the node just reached. So a match ending at the last byte of the text is never counted. | Pattern `a`, text `aaaa`: `MatchPatternsWithTriesOnly` counts 3 occurrences, while `MatchPatterns` and `find` count 4. | Every occurrence is counted, as `MatchPatterns` and `find` do. | not executed | AhoCorasick.Aho.MatchPatternsWithTriesOnly, Properties.TrieOnlyMissesLastByte | AhoCorasick.Aho.MatchPatternsWithTriesToEnd, Properties.CorrectedAgreesWithScan |
