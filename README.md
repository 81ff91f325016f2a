# Ranked retrieval, string search and Thompson regex matching, in Dafny

This project models two parts of a course repository on information retrieval.

**Ranked retrieval** (`in3120/`):
- the N-out-of-M document-at-a-time query evaluation of the simple search engine;
- the intersection and union of sorted posting lists;
- the TF-IDF ranker with a static quality score;
- the shingle generator's character ranges.

**String search and regular expressions** (`sciencefair/`):
- the naive substring search and Boyer–Moore–Horspool search, in Python and in C;
- the two Thompson-construction matchers. The C one converts an infix regular expression to postfix, builds the NFA from a stack of fragments with dangling arrows, and runs it over each line. The Python one builds the NFA from a postfix expression and extracts non-overlapping matches.

**How it is written.** There is one module per source file, plus three shared ones:
- `Postings`: postings, strict ordering, and sets of document ids;
- `StringSearch`: what an occurrence is, and the bad-character shift;
- `RegexPostfix`: `re2post`, and the stack depth of a postfix expression.

Code that loops or updates state is modelled as methods with loop invariants, proved against specification functions:
- the mergers, the searches and the traversal are methods;
- the table builders fill a `map` or an `array`;
- `BetterRanker`, the C `State` heap (`ThompsonC.Machine`) and the Python `State` heap (`ThompsonPy.StateHeap`) are classes whose methods update their fields.

NFA states are indices into a sequence of states; a C pointer or a Python object reference is such an index.

Collaborators whose code is not part of this model appear as parameters:
- the inverted index, a function from terms to posting lists;
- the ranker, a function from a document and its `update` calls to a score;
- the sieve, the log of the `sift` calls it receives;
- the corpus size, document frequencies and static scores;
- `log10`, a function on reals with no assumed property.

Python generators are modelled as functions or methods that return everything they would yield.

## Model

| member | source | states |
|---|---|---|
| PostingsMerger.Intersection | in3120/postingsmerger.py:13-39 | for strictly increasing inputs: exactly the postings of `p1` whose id occurs in `p2`, in order; strictly increasing; id set is the intersection; every posting is one of `p1`'s; length at most min(\|p1\|, \|p2\|) |
| PostingsMerger.IntersectionOfSorted | in3120/postingsmerger.py:13-39 | the postings of `p1` kept for ids of `p2` form a strictly increasing list with exactly the common ids, drawn from `p1`, no longer than either input |
| PostingsMerger.KeepIdsIds | in3120/postingsmerger.py:16-21 | the ids kept by the AND are exactly the ids common to both lists |
| PostingsMerger.KeepIdsSorted | in3120/postingsmerger.py:29-39 | keeping a subsequence of a strictly increasing list keeps it strictly increasing |
| PostingsMerger.KeepIdsIgnoresTail | in3120/postingsmerger.py:27-29 | postings past the point where the other list is exhausted contribute nothing, so stopping early loses nothing |
| PostingsMerger.Union | in3120/postingsmerger.py:41-77 | strictly increasing; id set is the union; an id in `p1` yields `p1`'s posting, otherwise `p2`'s; length is \|p1\| + \|p2\| − \|common ids\| |
| PostingsMerger.MergeHeads | in3120/postingsmerger.py:57-69 | the two-cursor loop ends with one list exhausted, having emitted a strictly increasing list of the inputs' postings whose ids are those of the consumed prefixes |
| PostingsMerger.EmitFirst | in3120/postingsmerger.py:60-66 | yielding `p1`'s head (advancing both cursors on equal ids) keeps the union invariant |
| PostingsMerger.EmitSecond | in3120/postingsmerger.py:67-69 | yielding the smaller head of `p2` keeps the union invariant |
| PostingsMerger.UnionDone | in3120/postingsmerger.py:71-77 | once both tails are yielded, the output has the union's ids, origins and length |
| SimpleSearchEngine.UniqueTermsCounter | in3120/simplesearchengine.py:39-40 | each distinct query term is listed once, with its multiplicity equal to its number of occurrences |
| SimpleSearchEngine.UniqueTermsMultiplicity | in3120/simplesearchengine.py:40 | every listed term's multiplicity is its count in the query terms, and at least 1 |
| SimpleSearchEngine.BumpCounts | in3120/simplesearchengine.py:40 | counting one more occurrence raises that term's count by one and leaves the others |
| SimpleSearchEngine.BumpMultiplicity | in3120/simplesearchengine.py:40 | counting `t` once more adds one to the count of `t` and changes no other count |
| SimpleSearchEngine.BumpDistinct | in3120/simplesearchengine.py:40 | the counter keeps one entry per distinct term |
| SimpleSearchEngine.UniqueTermsExample | in3120/simplesearchengine.py:36-40 | "to be or not to be" gives (to,2), (be,2), (or,1), (not,1), in order of first appearance |
| SimpleSearchEngine.ClampThreshold | in3120/simplesearchengine.py:49 | the threshold lies in [0,1]; it is unchanged inside, 0 below and 1 above |
| SimpleSearchEngine.Truncate | in3120/simplesearchengine.py:50 | `int()` truncates toward zero |
| SimpleSearchEngine.RequiredMinimum | in3120/simplesearchengine.py:50 | the required minimum is at least 1, and at most M when M ≥ 1 |
| SimpleSearchEngine.RequiredAll | in3120/simplesearchengine.py:50 | a threshold of 1.0 requires all M terms |
| SimpleSearchEngine.RequiredAny | in3120/simplesearchengine.py:50 | a threshold whose product with M is below 2 requires one term |
| SimpleSearchEngine.RequiredMonotone | in3120/simplesearchengine.py:50 | a higher threshold never lowers the required minimum |
| SimpleSearchEngine.DefaultThresholdExample | in3120/simplesearchengine.py:49-50 | with the default threshold 0.5, "to be or not to be" (four unique terms) requires 2 |
| SimpleSearchEngine.SieveCapacity | in3120/simplesearchengine.py:60 | the capacity lies in [1,100] and equals `hit_count` (default 10) when that is in range |
| SimpleSearchEngine.PostingLists | in3120/simplesearchengine.py:43 | one posting list per unique term, the index's list for that term |
| SimpleSearchEngine.ContainingSpec | in3120/simplesearchengine.py:71-72 | the lists containing a document are listed in ascending order, and exactly those |
| SimpleSearchEngine.QualifyingSpec | in3120/simplesearchengine.py:23-24 | a document qualifies iff it occurs in at least the required number of lists; qualifying ids ascend |
| SimpleSearchEngine.AndQuery | in3120/simplesearchengine.py:23-24 | requiring all M lists: a document qualifies iff it is in every list |
| SimpleSearchEngine.OrQuery | in3120/simplesearchengine.py:23-24 | requiring one list: a document qualifies iff it is in some list |
| SimpleSearchEngine.EmptyQuery | in3120/simplesearchengine.py:55-64 | with no query terms no document qualifies |
| SimpleSearchEngine.Lowest | in3120/simplesearchengine.py:71 | the chosen id is the smallest current id among the remaining lists |
| SimpleSearchEngine.FrontierIsContaining | in3120/simplesearchengine.py:71-72 | the frontier at the lowest current id is exactly the set of lists containing it, and no id skipped over is on any list |
| SimpleSearchEngine.AdvanceTraversal | in3120/simplesearchengine.py:91-93 | advancing the frontier cursors keeps every cursor at the first posting not yet visited |
| SimpleSearchEngine.Finish | in3120/simplesearchengine.py:62-64 | once fewer lists remain than required, no later document qualifies |
| SimpleSearchEngine.QualifyingStep | in3120/simplesearchengine.py:64-93 | one iteration adds its document to the results iff it is on enough lists |
| SimpleSearchEngine.Advanced | in3120/simplesearchengine.py:91-92 | exactly the frontier cursors move one posting on; the others stay |
| SimpleSearchEngine.Advance | in3120/simplesearchengine.py:91-92 | the cursor array is updated in place to the advanced cursors |
| SimpleSearchEngine.RankDocument | in3120/simplesearchengine.py:76-81 | ranker protocol: `reset(d)`, then one `update` per frontier term with its multiplicity and a posting of `d`, then `evaluate`; the sifted score is the ranker's |
| SimpleSearchEngine.Visit | in3120/simplesearchengine.py:64-93 | one loop iteration sifts its document iff it qualifies, with that document's calls and score |
| SimpleSearchEngine.Traverse | in3120/simplesearchengine.py:55-93 | the traversal sifts exactly the qualifying documents, once each in ascending order, each with its ranker calls |
| SimpleSearchEngine.Evaluate | in3120/simplesearchengine.py:21-98 | capacity is the clamped hit count; the sifts are exactly the documents on at least the required minimum of the unique terms' lists, ascending, each scored by its own reset/update/evaluate calls |
| Shingles.NewShingleGenerator | in3120/shinglegenerator.py:20-22 | construction succeeds iff the width is positive, and keeps the width |
| Shingles.Ranges | in3120/shinglegenerator.py:24-33 | every range satisfies 0 ≤ start < end ≤ len |
| Shingles.RangesEmpty | in3120/shinglegenerator.py:28-29 | there are no ranges iff the buffer is empty |
| Shingles.RangesShort | in3120/shinglegenerator.py:30-31 | a non-empty buffer no longer than the width gives the single range (0, len) |
| Shingles.RangesLong | in3120/shinglegenerator.py:32-33 | a longer buffer gives (i, i+width) for i from 0 to len−width, len−width+1 ranges |
| Shingles.RangesShape | in3120/shinglegenerator.py:30-33 | each range is min(width, len) long and starts one after the previous one |
| Shingles.RangesCover | in3120/shinglegenerator.py:24-33 | every position of the buffer lies in some range |
| Shingles.Shingles | in3120/shinglegenerator.py:10-14 | one shingle per range, each min(width, len) characters long |
| Shingles.MouseExample | in3120/shinglegenerator.py:10-11 | width 3 on "mouse" gives (0,3), (1,4), (2,5), that is "mou", "ous", "use" |
| BetterRanker.UpdateResult | in3120/betterranker.py:36-44 | `update` succeeds iff all five assertions hold and both the document frequency and the corpus size are positive; it fails an assertion iff one of the five fails, so always before any `reset` |
| BetterRanker.BetterRanker.constructor | in3120/betterranker.py:23-30 | score 0.0, no current document, both weights 1.0, static field "static_quality_score" |
| BetterRanker.BetterRanker.Reset | in3120/betterranker.py:32-34 | score 0.0 and current document `d`, discarding earlier contributions |
| BetterRanker.BetterRanker.Update | in3120/betterranker.py:36-44 | the outcome is `UpdateResult`; on success the score grows by exactly (1+log10 m)(1+log10 tf)·log10(N/df), otherwise nothing changes; the document never changes |
| BetterRanker.BetterRanker.Evaluate | in3120/betterranker.py:46-49 | reads only; with a current document it is dynamic weight · score + static weight · static score, the static score 0.0 when missing |
| BetterRanker.ProtocolExample | in3120/betterranker.py:32-49 | reset, two updates and evaluate give the two contributions plus the static score |
| StringSearch.OccurrencesSpec | sciencefair/simple_search.py:21-24 | the occurrences ascend and `i` is one iff the pattern sits at `i` |
| StringSearch.TooLong | sciencefair/simple_search.py:22 | a pattern longer than the text occurs nowhere |
| StringSearch.SearchExample | sciencefair/simple_search.py:28-33 | "abc" occurs in "abababdwerdfgbbcabcabaaabc" at 16 and 23 |
| StringSearch.LastBelow | sciencefair/horspool.py:16-17 | finds the last position below `n` holding the character, or reports that none does |
| StringSearch.Shift | sciencefair/horspool.py:14-17 | the bad-character shift lies in [1, \|P\|] and is \|P\| iff the character is not in P[0..\|P\|−2] |
| StringSearch.ShiftIsSafe | sciencefair/horspool.py:48 | no occurrence starts strictly between the current position and the shifted one |
| StringSearch.SkipStep | sciencefair/horspool.py:44-48 | skipping by the shift loses no occurrence |
| SimpleSearch.Same | sciencefair/simple_search.py:6-18 | true iff the first `l` characters agree, compared right to left |
| SimpleSearch.Search | sciencefair/simple_search.py:21-24 | an empty pattern raises IndexError; otherwise it yields exactly the occurrences, ascending |
| HorspoolPy.Preprocess | sciencefair/horspool.py:10-19 | the table's keys are the printable characters and P[0..\|P\|−2]; each value is the bad-character shift, in [1, \|P\|]; for a nonempty pattern the table is `BadChars` |
| HorspoolPy.PrintableText | sciencefair/horspool.py:7 | a text of printable characters never misses the table |
| HorspoolPy.BadChars | sciencefair/horspool.py:14-17 | every entry of the finished table is at least 1, so each turn of the loop moves `skip` forward |
| HorspoolPy.BadCharsEntries | sciencefair/horspool.py:14-17 | the finished table has an entry for exactly the printable characters and P[0..\|P\|−2], each the bad-character shift |
| HorspoolPy.Search | sciencefair/horspool.py:35-48 | IndexError iff the pattern is empty; otherwise exactly `Run` from 0 with the finished table, so it yields exactly the occurrences, or raises KeyError at a character missing from the table after yielding the occurrences up to that position |
| HorspoolPy.Scan | sciencefair/horspool.py:42-48 | the skip loop produces exactly `Run` from 0: the occurrences, or the KeyError at the first missing character the skips reach, after the occurrences up to it |
| HorspoolPy.ScanAt | sciencefair/horspool.py:44-48 | one turn yields `skip` iff the pattern occurs there; it misses the table iff the character under the pattern's last position has no entry; otherwise `skip` advances by exactly that character's entry, past no occurrence and not past the end |
| HorspoolPy.RunTurn | sciencefair/horspool.py:44-48 | one turn of the loop keeps what the generator produces: it raises KeyError after the positions found so far, or goes on as the run from the shifted position behind them |
| HorspoolPy.TableSkip | sciencefair/horspool.py:48 | the lookup misses exactly when the character has no table entry; an entry moves `skip` forward, not past the end of the text and past no occurrence |
| HorspoolPy.Prepend | sciencefair/horspool.py:46-47 | yielding ahead of a run keeps whether it ends or raises |
| HorspoolPy.RunFrom | sciencefair/horspool.py:42-48 | from any position the generator yields the occurrences from there on, or raises KeyError at the position where the run stops, whose character is missing, having yielded the occurrences up to and including it |
| HorspoolPy.RunPrintable | sciencefair/horspool.py:48 | with a table holding every printable character, as the finished table does, the generator never raises on a text of printable characters |
| HorspoolC.SameBytewise | sciencefair/horspool.c:40-55 | `memcmp` of the first `l` bytes is zero iff those bytes agree |
| HorspoolC.Preprocess | sciencefair/horspool.c:29-37 | all 256 entries are set to the bad-character shift, each in [1, patlen] |
| HorspoolC.Horspool | sciencefair/horspool.c:58-80 | returns the number of occurrences of the pattern |
| HorspoolC.Naive | sciencefair/horspool.c:83-100 | returns 0 for an empty pattern and otherwise the number of occurrences |
| RegexPostfix.OpenGroup | sciencefair/matcher.c:62-74 | `(` fails iff 100 groups are open |
| RegexPostfix.Alternate | sciencefair/matcher.c:75-81 | `\|` fails iff no atom precedes it |
| RegexPostfix.CloseGroup | sciencefair/matcher.c:82-95 | `)` fails iff no group is open or no atom precedes it |
| RegexPostfix.Repetition | sciencefair/matcher.c:96-102 | `*`, `+`, `?` fail iff no atom precedes them |
| RegexPostfix.ScanChar | sciencefair/matcher.c:60-111 | one input character fails exactly in the four NULL cases of the loop |
| RegexPostfix.ScanRefusalPersists | sciencefair/matcher.c:60-111 | once a prefix is refused the whole expression is |
| RegexPostfix.Postfix | sciencefair/matcher.c:58-59 | an input of 4000 characters or more gives NULL |
| RegexPostfix.ScanStep | sciencefair/matcher.c:61-111 | one pass of the `switch` computes the scanner step `ScanChar`, keeping the atom counts non-negative |
| RegexPostfix.ScanLoop | sciencefair/matcher.c:60-112 | the scanning loop computes the scan specification |
| RegexPostfix.EmitConcats | sciencefair/matcher.c:115-116 | writes one `.` fewer than there are pending atoms |
| RegexPostfix.EmitAlternations | sciencefair/matcher.c:117-118 | writes one `\|` per pending alternation |
| RegexPostfix.Re2Post | sciencefair/matcher.c:43-121 | the conversion as written, equal to `Postfix` |
| RegexPostfix.PostfixKeepsOperands | sciencefair/matcher.c:60-120 | the output has no parentheses and keeps the non-operator characters in input order |
| RegexPostfix.ScanBalanced | sciencefair/matcher.c:60-111 | the output written so far has stack depth equal to the pending atoms and alternations of all open groups |
| RegexPostfix.FinishWellFormed | sciencefair/matcher.c:113-120 | with all groups closed and an atom pending, the final output leaves exactly one operand |
| RegexPostfix.FinishIllFormed | sciencefair/matcher.c:113-120 | with no atom pending, the final output is not well formed |
| RegexPostfix.PostfixChecked | sciencefair/matcher.c:113-120 | the corrected conversion: whatever it accepts is the original's output |
| RegexPostfix.CheckedWellFormed | sciencefair/matcher.c:113-120 | for input without `.`, the corrected conversion accepts exactly the outputs that are well formed postfix |
| RegexPostfix.Re2PostChecked | sciencefair/matcher.c:113-120 | the corrected method computes `PostfixChecked` |
| RegexPostfix.PostfixNumberExample | sciencefair/matcher.c:26 | " 100* " converts to " 1.0.0*. ." |
| RegexPostfix.PostfixAlternationExample | sciencefair/matcher.c:27 | "hello\|ba*b" converts to "he.l.l.o.ba*.b.\|" |
| RegexPostfix.TrailingAlternationExample | sciencefair/matcher.c:113-120 | "a\|" and "" are accepted as written although not well formed; the corrected conversion refuses both |
| ThompsonC.WellFormedNeverUnderflows | sciencefair/matcher.c:250-291 | a well-formed postfix expression never pops an empty fragment stack; the stack height equals its depth |
| ThompsonC.WellFormedBuilds | sciencefair/matcher.c:289-294 | a well-formed postfix expression leaves exactly one fragment unless the stack overflows |
| ThompsonC.TrailingAlternationUnderflows | sciencefair/matcher.c:258-259 | "a\|" converts to "a\|", on which `post2nfa` pops from an empty stack |
| ThompsonC.Machine.constructor | sciencefair/matcher.c:143-144 | only `matchstate` exists, `nstate` and `listid` are 0 |
| ThompsonC.Machine.NewState | sciencefair/matcher.c:147-160 | appends one state with the given label and arrows, unmarked with start 0; `nstate` grows by one |
| ThompsonC.Machine.Patch | sciencefair/matcher.c:207-216 | every listed dangling arrow now leads to the target; nothing else changes |
| ThompsonC.Machine.Literal | sciencefair/matcher.c:253-256 | pushes a fragment of one new state labelled with the character |
| ThompsonC.Machine.Catenate | sciencefair/matcher.c:257-262 | pops two fragments and pushes one, allocating nothing |
| ThompsonC.Machine.Alternate | sciencefair/matcher.c:263-268 | pops two fragments and pushes one, adding one split state |
| ThompsonC.Machine.ZeroOrOne | sciencefair/matcher.c:269-273 | replaces the top fragment, adding one split state |
| ThompsonC.Machine.ZeroOrMore | sciencefair/matcher.c:274-279 | replaces the top fragment, adding one split state |
| ThompsonC.Machine.OneOrMore | sciencefair/matcher.c:280-285 | replaces the top fragment, adding one split state |
| ThompsonC.Machine.Consume | sciencefair/matcher.c:251-286 | one postfix character succeeds iff the stack has room and enough fragments, with the predicted height |
| ThompsonC.Machine.Fragments | sciencefair/matcher.c:250-287 | the loop leaves the predicted stack, one state per non-`.` character labelled after it, or reports the underflow or overflow |
| ThompsonC.Machine.Feed | sciencefair/matcher.c:251-286 | one character of the loop keeps the stack at the predicted height and the new states labelled, or reports the failure the height predicts |
| ThompsonC.Machine.Finish | sciencefair/matcher.c:289-294 | one fragment left: its dangling arrows are patched to `matchstate` and every new state is complete; more left: NULL; none: underflow |
| ThompsonC.Machine.Post2Nfa | sciencefair/matcher.c:235-297 | NULL for NULL input; otherwise the outcome follows the stack heights, one state per non-`.` character is allocated, and on success the NFA has no dangling arrow |
| ThompsonC.Machine.Compile | sciencefair/matcher.c:465-476 | the corrected conversion then `post2nfa`: an expression without `.` that converts always builds, unless the stack overflows |
| ThompsonC.Machine.AddState | sciencefair/matcher.c:335-349 | adds a state at most once per `listid` and records its start; split states are not stored but both their arrows are followed; the newly marked states are exactly those reached from `s` along unlabelled arrows through states not yet marked, and every newly marked split state has both targets marked |
| ThompsonC.Machine.StartList | sciencefair/matcher.c:312-319 | a new generation, with start 0, whose marked states are exactly the ε-closure of the start state; the list holds its non-split states |
| ThompsonC.Machine.Step | sciencefair/matcher.c:356-370 | the new generation is exactly the ε-closure of the targets of the current list's states reading `c`; when the current generation is closed, the current list becomes the non-split states of the closure of that generation and `start`, and the new generation is `StepSet` of the old one; each list holds each state once, so at most `nstate`+1 of them |
| ThompsonC.Machine.NextList | sciencefair/matcher.c:365-369 | over a fresh generation, the states marked are exactly the ε-closure of the targets of the listed states that read `c`; the new list holds the non-split ones, each once |
| ThompsonC.Machine.Follow | sciencefair/matcher.c:366-368 | a state not reading `c` changes nothing; one reading `c` spreads the mark from its target along unlabelled arrows; marks already made stay |
| ThompsonC.Machine.AddStart | sciencefair/matcher.c:362 | spreads the current generation's mark from `start`; the list only grows, and holds `start` unless it is a split state |
| ThompsonC.Machine.Match | sciencefair/matcher.c:390-411 | the slices end exactly at the positions after which the NFA, restarted at every position, is in `matchstate` (`MatchEnds`), in increasing order, all within the line before its first NUL, each starting before it ends |
| ThompsonC.Machine.MatchAt | sciencefair/matcher.c:405-410 | one character takes the generation from `Active` at `i` to `Active` at `i`+1 and appends a slice ending at `i`+1 iff `matchstate` is then active |
| ThompsonC.LineEnd | sciencefair/matcher.c:399 | the loop runs up to the first NUL of the line, or its end |
| ThompsonC.SpreadMarks | sciencefair/matcher.c:335-349 | after `addstate` the marked states are exactly those marked before plus those reached from the source through unmarked states |
| ThompsonC.FreshSpread | sciencefair/matcher.c:312-319 | a spread over a fresh generation marks exactly the ε-closure of its sources |
| ThompsonC.ClosureClosed | sciencefair/matcher.c:342-346 | a generation equal to an ε-closure has both targets of each of its split states |
| ThompsonC.Absorb | sciencefair/matcher.c:362 | spreading from `start` over a closed generation marks exactly the closure of the generation and `start` |
| ThompsonC.StepClosed | sciencefair/matcher.c:356-370 | from a closed generation, `step` leaves the current list as the non-split states of the closure with `start`, and the next generation as `StepSet` |
| ThompsonC.MatchStep | sciencefair/matcher.c:405-407 | one `step` of `match` advances the generation from `Active` at `i` to `Active` at `i`+1 |
| ThompsonC.OverfullList | sciencefair/matcher.c:484-485 | regex "a" on "aa" needs a list of 2 entries where 1 slot is allocated |
| ThompsonPySpec.CharSet | sciencefair/matcher.py:162 | the alphabet is the expression's characters other than `\|`, `.`, `*` |
| ThompsonPySpec.AddFacts | sciencefair/matcher.py:105-114 | `add` marks and appends only states not yet on the list, each once with this start, and every state it adds has its ε-successors on the list |
| ThompsonPySpec.FollowFacts | sciencefair/matcher.py:99-103 | `add_if_label_match` adds the edge's target iff the edge reads `c` |
| ThompsonPySpec.StepAppends | sciencefair/matcher.py:116-119 | `step` appends only states not yet on the list, each once |
| ThompsonPySpec.StepStarts | sciencefair/matcher.py:116-119 | `step` records on new states only starts of the states it steps from |
| ThompsonPySpec.MatchSpans | sciencefair/matcher.py:121-144 | every pair has start < end ≤ len; each starts at or after the previous end; ends strictly increase |
| ThompsonPySpec.NullableNeverMatches | sciencefair/matcher.py:126-140 | an expression whose accepting state is ε-reachable from its initial state never reports a match |
| ThompsonPySpec.ContinuingStaysFresh | sciencefair/matcher.py:121-144 | with the list id carried from line to line, a call uses one id per character and leaves no mark above the last |
| ThompsonPySpec.StaleMarksExample | sciencefair/matcher.py:121-144 | as written, "a" matched twice on the line "a" finds nothing the second time; carrying the list id finds it again |
| ThompsonPyGen.CharNfa | sciencefair/matcher.py:46-50 | two new states, the initial one reading `c` into the accepting one, which alone accepts and has no edges |
| ThompsonPyGen.SplitNfa | sciencefair/matcher.py:52-61 | two new states; the result stays closed |
| ThompsonPyGen.ConcatNfa | sciencefair/matcher.py:63-66 | no new state; the result runs from `a`'s initial to `b`'s accepting state |
| ThompsonPyGen.StarNfa | sciencefair/matcher.py:68-76 | two new states; the result stays closed |
| ThompsonPyGen.SplitShape | sciencefair/matcher.py:52-61 | the exact ε-edges and flags the split sets, and no other change |
| ThompsonPyGen.ConcatShape | sciencefair/matcher.py:63-66 | the exact ε-edge and flag the concatenation sets, and no other change |
| ThompsonPyGen.StarShape | sciencefair/matcher.py:68-76 | the exact ε-edges and flags the star sets, and no other change |
| ThompsonPyGen.CharKeeps | sciencefair/matcher.py:46-50 | pushing a character NFA keeps "each stacked NFA's accepting state is the only accepting state among its states" |
| ThompsonPyGen.SplitKeeps | sciencefair/matcher.py:52-61 | the split keeps that invariant by clearing both old accepting flags |
| ThompsonPyGen.ConcatKeeps | sciencefair/matcher.py:63-66 | the concatenation keeps that invariant |
| ThompsonPyGen.StarKeeps | sciencefair/matcher.py:68-76 | the star keeps that invariant |
| ThompsonPyGen.ApplyHeight | sciencefair/matcher.py:84-95 | one character succeeds iff the stack holds enough NFAs, with the predicted height |
| ThompsonPyGen.GenFrom | sciencefair/matcher.py:81-97 | the built NFA's states are in the heap, which only grows |
| ThompsonPyGen.GenSucceeds | sciencefair/matcher.py:81-97 | generation succeeds (no IndexError) iff no pop meets an empty stack and at least one NFA is left |
| ThompsonPyGen.GenSize | sciencefair/matcher.py:81-95 | two states per character other than `.` |
| ThompsonPyGen.GenerateOneAccepting | sciencefair/matcher.py:46-97 | an expression leaving exactly one NFA yields 2 states per non-`.` character, exactly one of them accepting, namely `accepting`, with no edges |
| ThompsonPy.StateHeap.Allocate | sciencefair/matcher.py:31-44 | appends a fresh state: given flag, list 0, start 0, no edges |
| ThompsonPy.StateHeap.GenerateChar | sciencefair/matcher.py:46-50 | the heap and NFA are `CharNfa`'s |
| ThompsonPy.StateHeap.GenerateSplit | sciencefair/matcher.py:52-61 | the heap and NFA are `SplitNfa`'s |
| ThompsonPy.StateHeap.GenerateConcat | sciencefair/matcher.py:63-66 | the heap and NFA are `ConcatNfa`'s |
| ThompsonPy.StateHeap.GenerateStar | sciencefair/matcher.py:68-76 | the heap and NFA are `StarNfa`'s |
| ThompsonPy.StateHeap.GenerateNfa | sciencefair/matcher.py:81-97 | succeeds iff `GenFrom` does, with the same heap and NFA |
| ThompsonPy.StateHeap.Push | sciencefair/matcher.py:83-95 | one character pops and pushes exactly as `Apply` says, or fails iff a pop finds the stack empty |
| ThompsonPy.StateHeap.AddIfLabelMatch | sciencefair/matcher.py:99-103 | the heap and list are those of `AddIfLabelMatch` |
| ThompsonPy.StateHeap.Add | sciencefair/matcher.py:105-114 | the heap and list are those of `Add` |
| ThompsonPy.StateHeap.Step | sciencefair/matcher.py:116-119 | the heap and list are those of `Step` |
| ThompsonPy.StateHeap.MatchFrom | sciencefair/matcher.py:121-144 | the heap, matches and last list id are those of `MatchContinuing` |
| ThompsonPy.StateHeap.Match | sciencefair/matcher.py:121-144 | as written, with the list id restarting at 0: the heap and matches of `Match` |
| ThompsonPy.StateHeap.MatchLines | sciencefair/matcher.py:172-178 | corrected (list id carried from line to line): reports the numbered lines with a match, in increasing order, each with ordered non-overlapping pairs; a nullable expression reports none |
| ThompsonPy.StateHeap.MatchLine | sciencefair/matcher.py:174 | corrected (list id carried from line to line): one line's pairs are ordered and within the line; a nullable expression finds none; the list marks stay fresh |
| ThompsonPy.Grep | sciencefair/matcher.py:157-178 | fails (IndexError) iff a pop meets an empty stack or no NFA is left; otherwise the reported lines are in range and increasing, each with ordered non-overlapping matches |

## Left out

- Terminal output and files are not modelled: `print_matches`, `printmatches`, `print_context`, the colour codes, `fileinput`, `getline`, `fopen`, `getopt`, the timing code and the `debug` prints of `evaluate`.
- `get_terms` is not modelled: the tokenizer and normaliser are not part of this model, and the query terms are given as a sequence.
- The sieve, ranker, corpus and inverted index are not part of this model. Their behaviour enters only as parameters and logs.
- SimpleSearchEngine.Evaluate: states which documents are sifted, with which scores and calls. It does not state which K of them `winners()` yields, or in what order, since that is the sieve's behaviour. Corpus lookups of the winners are not modelled.
- SimpleSearchEngine.Evaluate, PostingsMerger.Intersection, PostingsMerger.Union: postings are assumed always truthy, so a cursor is exhausted exactly when its list ends (`while current1 and current2` stops only at the end of a list).
- Floating point is modelled with reals:
  - `log10` is an uninterpreted function;
  - `int()` truncates a real;
  - no numeric score value is proved.
- BetterRanker.BetterRanker.Evaluate: before any `reset` the source looks up `corpus[None]`; the model returns `None` instead.
- HorspoolC.Horspool, HorspoolC.Naive: C `int` positions and counts are modelled as unbounded integers. For a text of 2^31 bytes or more, `skip`, `i` and the occurrence count would overflow.
- HorspoolC.Horspool: requires a non-empty pattern. With `patlen` 0, `preprocess` runs before the early return and `patlen - 1` wraps around, so the C code reads far past the pattern.
- SimpleSearch.Same: requires `l >= 1`. With `l == 0` Python compares index −1. That case arises only through an empty pattern, which `Search` models as the IndexError it ends in.
- HorspoolPy.Search: the alphabet `string.printable` is modelled as the character ranges tab to carriage return and space to tilde.
- Strings are sequences of characters; UTF-8 bytes and the signedness of C `char` are not modelled.
- C memory details are not modelled:
  - `malloc` and leaks, including the states a NULL `post2nfa` result leaves behind;
  - the static buffer, whose size enters only as the 4000-character limit;
  - the `Ptrlist` union, modelled as lists of holes;
  - the walk in `addslice`, modelled as a sequence append.
- The fragment stack of 1000 entries is modelled as an overflow outcome.
- ThompsonC.Machine.Catenate, Alternate, ZeroOrOne, ZeroOrMore, OneOrMore and Literal state three things:
  - the fragment invariant: every fragment lives in the new states, and every arrow still missing is dangling in some fragment;
  - the stack height;
  - the labels of the states.

  They do not state which arrow leads where.
- ThompsonC.Machine.Match: states exactly where the slices end, but bounds only where they start (at or after 0, before the end). The start `addstate` records is the position of whichever attempt reached `matchstate` first in the marking order, which is not modelled.
- The language a regular expression denotes is not modelled for either matcher: the C matcher's slices are stated against the NFA's ε-closure semantics (`Active`), not against the expression.
- A `.` in the C matcher's infix input is a literal for `re2post` but a concatenation for `post2nfa`. The well-formedness results therefore assume input without `.`.
- ThompsonPy.Grep: an `IndexError` from `generate_nfa` ends the Python program; it is modelled as `None`.
- ThompsonPy.Grep, ThompsonPy.StateHeap.MatchLines, ThompsonPy.StateHeap.MatchLine: model the corrected matching, with the list id carried from line to line; the source restarts it at 0 on every line (see Findings), which `ThompsonPy.StateHeap.Match` models as written.
- "At most two edges per state" holds by construction: `outa` and `outb` are the only edge fields.
- in3120/naivebayesclassifier.py, sciencefair/compare_time.py and the two tokenizer/normaliser tests are not part of this model.

## Findings

| source | as written | input that shows it | evidently intended | confidence | as-written member | corrected member |
|---|---|---|---|---|---|---|
| sciencefair/matcher.c:113-120 | `re2post` accepts a trailing `\|` and the empty expression. It returns "a\|" and "", on which `post2nfa` pops from an empty fragment stack. | "a\|" or "" | refuse an expression that does not leave exactly one operand | not executed | ThompsonC.TrailingAlternationUnderflows | RegexPostfix.CheckedWellFormed |
| sciencefair/matcher.py:121-144 | `match` restarts `list_id` at 0 on every line, while `last_list` marks persist in the states. A later line therefore skips states still marked from an earlier one. | regex "a", two lines "a": the second line finds no match | carry the list id from line to line | not executed | ThompsonPySpec.StaleMarksExample | ThompsonPySpec.ContinuingStaysFresh |
| sciencefair/matcher.c:484-485 | each state list gets `nstate` slots, but a list can hold every non-split state plus `matchstate`, which is `nstate`+1 entries | regex "a", line "aa": the second step stores state `a` and `matchstate` in one slot | allocate `nstate`+1 slots | not executed | ThompsonC.OverfullList | ThompsonC.Machine.Step |
