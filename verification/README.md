# tmux-thumbs: finding and hinting matches

This project models `State::matches` of tmux-thumbs. That function takes the lines of a tmux pane and finds the pieces of text the user may want to copy: URLs, paths, hashes, IP addresses, numbers and the user's own regular expressions. It then gives each piece a hint, the short key sequence that selects it. The model covers four parts:

- **Patterns** (`patterns.dfy`) builds the pattern catalog in the source's order:
  - the `bash` colour-sequence exclusion;
  - then the user's custom regexps;
  - then the ten built-in patterns.

  It also picks the winner among the patterns on a piece of text. The winner is the match that starts leftmost, and a tie goes to the earlier pattern.
- **Scanner** (`scanner.dfy`) models the per-line loop. Each round:
  - finds the winner on the unconsumed rest of the line;
  - runs the winner's pattern again on the matched text;
  - emits capture group 1, or the whole match when group 1 did not take part;
  - emits nothing when the winner is the `bash` exclusion;
  - advances past the whole match.

  When nothing matches, the loop stops. When the winner does not match its own text, the loop aborts.
- **Hints** (`hints.dfy`) models hint allocation. The hint list is reversed into a stack. The matches are walked forward, or backward in `reverse` mode. Each walked match pops the next hint. In `unique` mode, a match whose text already has a hint reuses that hint.
- **State** (`state.dfy`) composes the three parts into `Matches`.

The regular-expression engine is abstract. A pattern is a function from a string to an optional hit: the span of the whole match and the span of group 1, if group 1 took part. Compiling a custom regexp is a parameter that may fail. The alphabet's hint generator is a parameter that maps a count to a list of hints. The source's panics are modelled as error results:

- `InvalidCustomRegexp` for a custom regexp that does not compile;
- `NoMatching` for a winner that does not match its own text.

When group 1 does not take part in the re-match, the code (src/state.rs:92-96) emits the whole match at sub-offset 0, and so does the model.

## Model

| member | source | states |
|---|---|---|
| Patterns.BuildCatalog | src/state.rs:60-72 | The catalog is built exactly when every custom regexp compiles, and `InvalidCustomRegexp` otherwise. On success, the exclusion comes first, then the custom patterns in the order given, then the ten built-ins in table order. |
| Patterns.SkippedExactlyExclusions | src/state.rs:5-7 | In a built catalog, the exclusion at position 0 is the only pattern whose matches are skipped. Custom and built-in patterns are never skipped. |
| Patterns.LeftmostIsFirstMinimum | src/state.rs:79-85 | The candidate chosen among the patterns from `i` on matches, starts no later than any other matching pattern, and starts strictly before every earlier-listed matching pattern. It is absent exactly when no pattern matches. |
| Patterns.WinnerIsFirstLeftmost | src/state.rs:79-85 | The winner on a chunk is the first pattern whose match starts leftmost, as `min_by` keeps the first of equal minima. There is no winner exactly when no pattern matches. |
| Patterns.WinnerUnique | src/state.rs:85 | The winner rule picks exactly one candidate: two winners of the same chunk are equal. |
| Patterns.CustomBeatsBuiltinOnTie | src/state.rs:68-85 | When a custom pattern's match starts no later than every built-in's match, the winner is the exclusion or a custom pattern, never a built-in. So custom patterns win their ties with built-ins. |
| Scanner.Steps | src/state.rs:74-118 | The rounds of one line are chained: each round starts where the previous whole match ended, and each advances strictly. The loop stops inside the line, at a point where no pattern matches the rest. |
| Scanner.StepIsWinner | src/state.rs:79-88 | Every round's candidate is the winner on the unconsumed rest of the line at that round's start. |
| Scanner.Claim | src/state.rs:88-113 | A round aborts with `NoMatching` exactly when the winner's pattern does not match its own text. An exclusion emits nothing. Otherwise the emitted text is group 1 at the whole match's start plus the group's start, or the whole match when group 1 is absent, and it lies inside the whole match. |
| Scanner.ClaimFits | src/state.rs:98-109 | A piece claimed by a round lies inside that round's whole match, which ends inside the line. The round emits nothing exactly when its winner is the exclusion. |
| Scanner.Prepend | src/state.rs:99-106 | A round's claimed piece becomes the match at column `offset` plus the piece's position, on line `y`, with the piece's text and no hint. It goes in front of the later rounds' matches. The result stays a list of line slices, left to right and not overlapping, and an exclusion leaves it unchanged. |
| Scanner.Emit | src/state.rs:87-117 | The matches the rounds emit are slices of their line, at or after the starting column, left to right and not overlapping. The only error is `NoMatching`. |
| Scanner.ScanLine | src/state.rs:74-118 | Every match found on a line is the slice of that line at its column. Matches are left to right without overlap, and the only failure is `NoMatching`. `ScanLineMatch` states which piece each match is. |
| Scanner.ExampleDiffPath | src/state.rs:268-276 | On `--- a/src/main.rs`, a pattern whose group 1 is the path claims `src/main.rs` at column 6, not the whole match. |
| Scanner.EmitRound | src/state.rs:87-109 | Every round whose winner is not the exclusion emits the piece it claimed: the match at the round's column plus the piece's position, with the piece's text. It sits right after the matches of the emitting rounds before it. |
| Scanner.EmittingRoundOf | src/state.rs:98-106 | Every emitted position belongs to an emitting round: for `k` below the number of emitting rounds, some emitting round has exactly `k` emitting rounds before it. |
| Scanner.EmittingBeforeMonotone | src/state.rs:78-117 | Rounds emit in order: an emitting round's match comes before the matches of every later round. |
| Scanner.ScanLineMatch | src/state.rs:74-113 | The `k`-th match found on a line is the claim of the `k`-th emitting round. That round's candidate is the winner where the round started. The text is group 1 of the re-match, or the whole match, at the round's column plus the piece's position. |
| Scanner.EmitAbortsIffRematchFails | src/state.rs:91-113 | Scanning a line aborts exactly when some round's winner does not match the text it matched. |
| Scanner.EmitCount | src/state.rs:98-106 | A successful line scan emits exactly one match per round whose winner is not the exclusion. |
| Scanner.ExclusionsConsumedNotEmitted | src/state.rs:98-109 | Exclusion rounds emit nothing, yet consume their text: no emitted match overlaps the whole match of a round won by the exclusion. |
| Scanner.ScanLines | src/state.rs:74-118 | Scanning all lines succeeds exactly when every line's scan succeeds. Each match is the slice of its own line, and the result is ordered by line and then left to right without overlap. |
| Scanner.ScanLinesPerLine | src/state.rs:74-76 | When the whole scan succeeds, the matches of line `y` in its result are exactly the scan of line `y` taken on its own. |
| Scanner.OrderedPositions | src/state.rs:36-40 | The result is sorted by `(y, x)`. Two matches with non-empty text never share a position, so position-only equality tells them apart. |
| Hints.Reverse | src/state.rs:124 | Reversal keeps the length, and position `i` of the result holds element `n - 1 - i` of an `n`-element list. |
| Hints.PopReversed | src/state.rs:124-146 | Popping the reversed remainder of the hint list yields its next hint in forward order and leaves the reversed rest. |
| Hints.FirstSeenMembers | src/state.rs:131-139 | The distinct texts in first-seen order contain exactly the texts walked. |
| Hints.FirstSeenDistinct | src/state.rs:131-139 | No text appears twice in the first-seen list of texts, the list the unique-mode map is keyed by. |
| Hints.TakePlain | src/state.rs:143-145 | One plain round: the walked match gets `hints[i]` if the stack still holds it, and otherwise keeps its hint. The stack shrinks by exactly that hint. |
| Hints.WalkPlain | src/state.rs:141-147 | The plain walk gives the `i`-th walked match `hints[i]`. A match past the end of the list keeps its hint. Nothing but hints changes. |
| Hints.AssignedLookup | src/state.rs:134-138 | The unique-mode map sends the `k`-th distinct text to the `k`-th popped hint. |
| Hints.TakeUnique | src/state.rs:133-139 | One unique round: a text already in the map reuses its hint, and a new text pops the next hint and is recorded. The map and stack afterwards are those of the first `i + 1` walked texts. |
| Hints.WalkUnique | src/state.rs:128-140 | The unique walk gives the `i`-th walked match the hint whose index is its text's first-seen rank. |
| Hints.Allocate | src/state.rs:120-153 | Allocation changes only the hints and keeps the match order, including after a `reverse` walk. The match walked `i`-th gets `hints[i]`, or in unique mode the hint of its text's rank. |
| Hints.RankIffSameText | src/state.rs:131-139 | Two walked matches have the same rank if and only if they have the same text. |
| Hints.RankOfNewText | src/state.rs:136-138 | A text walked for the first time takes the next unused rank, the number of distinct texts before it. |
| Hints.RankOfSeenText | src/state.rs:134-135 | A text walked again takes the rank of its first occurrence, which is below the number of distinct texts before it. |
| Hints.RankBound | src/state.rs:121-138 | Ranks stay below the number of distinct texts, hence below the number of matches hints are requested for. |
| Hints.SameTextSameHint | src/state.rs:134-139 | In unique mode, matches with equal text get the same hint. While the stack lasts it is the listed hint of their shared rank. Once the stack has run out, both keep the hint they had, so matches that started out alike stay alike. |
| Hints.SameHintSameText | src/state.rs:134-138 | In unique mode with distinct hints, matches that got the same listed hint have equal text. |
| Hints.EnoughHints | src/state.rs:121 | With at least as many hints as matches, every match gets a hint from the list in either mode. |
| Hints.ExampleRepeatedAddress | src/state.rs:165-185 | For texts `127.0.0.1`, `255.255.255.255`, `127.0.0.1` and hints `a`, `b`, `c`, the plain walk gives the last match `c`. The unique walk gives `a`, `b`, `a`. |
| State.HintScan | src/state.rs:120-153 | Hints are requested for exactly as many matches as were found. Only hints change, following the plain or unique policy. With enough hints, every match has one. |
| State.HintsKeepScan | src/state.rs:120-153 | Hinting keeps the scan's properties: the matches stay ordered, and each is still the slice of its line at its column. |
| State.Matches | src/state.rs:57-154 | `InvalidCustomRegexp` is returned exactly when some custom regexp fails to compile. On success:<br>• the matches are ordered by line and column without overlap;<br>• each is a slice of its line;<br>• their hints follow the allocation policy over the scan.<br>The result is an error exactly when the catalog or some line scan fails. |

## Left out

- The concrete regular expressions and the regex engine. Patterns are abstract matchers: each returns the leftmost match and group 1, as `find_iter(..).nth(0)` and `captures` do.
- `Regex::new(..).unwrap()` on the fixed patterns cannot fail in the source, so the built-ins and the exclusion are given as already-compiled matchers.
- The alphabet module (`get_alphabet`, `hints`) is not part of this model. It is a parameter mapping a count to a hint list.
- Positions are unbounded naturals rather than `i32`, so overflow is not modelled. Columns count characters; the source's columns are byte offsets of UTF-8 text.
- Scanner.Steps: requires `Scannable`: on every suffix of the line, the winner's match lies inside the suffix and ends after its first column, and the re-match's spans lie inside the matched text. The source meets the bounds through its regex library. It would loop forever on a winning match that is empty at the start of the rest of a line. It only ever reaches the suffixes at round boundaries, so a catalog with an empty winning match on some unreached suffix runs in the source but is outside the model.
- Scanner.Steps: computes every round up to the end of the line, including rounds after one that aborts. `Emit` stops at the first abort, as the source's panic does.
- The `HashMap` of unique mode is modelled as a `map`, and its contents are stated through `Previous`.
- `State::new` and the `State` struct are not modelled. `Matches` takes the lines, the custom regexps and the alphabet's hint generator directly.
- The `Debug` implementation of `Match` (src/state.rs:30-34) is left out because it only formats text.
- Hints.SameHintSameText: needs the hint list to be free of duplicates. The alphabet module that produces the hints is not part of this model.
