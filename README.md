# logknife core in Dafny

logknife is a small `tail -f` clone (`src/logknife.c`). It follows a single
file. Each line that appears is passed through an include/exclude filter
built on a tiny regular-expression matcher (`^`, `$`, `.`, `c*`). A kept
line is printed with configured keywords wrapped in ANSI colours. When the
open file is seen to have shrunk (a truncation, or a copy-and-truncate
rotation), reading restarts from the beginning.

The model has four modules, one per piece of the program:

- `Regex` (regex.dfy) covers `matchstar`, `matchhere` and `matchre`.
  - They are recursive functions over strings.
  - `matchre`'s pointer loop is also the method `MatchRe`.
  - A declarative meaning for patterns (`Parse`, `Full`, `Search`) is given, and the matcher is proved correct against it.
- `Filter` (filter.dfy) covers `should_print`.
  - It is a method with the trimming loop and the include and exclude loops.
  - It is proved equal to the predicate `Keeps`.
- `Highlight` (highlight.dfy) covers `print_highlighted`.
  - It is a method whose cursor loop returns the text written to stdout.
  - It is proved equal to the rendering of a `Layout`, the cut of the line into plain text and highlighted words that `Split` computes.
  - The properties of the highlighter are proved about `Split`.
- `Follow` (follow.dfy) covers the body of `cmd_follow`.
  - The class `Follower` holds the read position, `last_size` and the output written so far.
  - `Step` is one iteration of the `for (;;)` loop, either the EOF branch or one `fgets` read.
  - `Poll` repeats `Step` until the reader is at end of data once more.
  - Both are proved against the pure functions `Transition` and `Cycle`.

Inputs and outputs are modelled as follows:

- The followed file is a `string` (its bytes as characters).
- The standard output is the field `out`, to which written text is appended.
- `file_size` becomes the input `statOk`. When it is false the size is unknown (-1); otherwise it is the length of the file.
- C strings are sequences without NUL, and the end of a sequence plays the part of the terminating NUL.
- Patterns and highlight words come from the command line and so hold no NUL. `Filter.Options` does not restate this; a NUL placed in one would act as a literal character in the model, whereas C would stop at it.
- A NUL inside a line read by `fgets` cuts the line short for `should_print` and `print_highlighted`, which see only what `strlen` sees. This is `Follow.CStr`.

Behaviour of the code worth noting:

- At end of file, `fgets` returns a last line without a `\n`. That partial line is filtered and printed like any other (`Follow.ChunkShape`, `Follow.ChunksShape`).
- The comment at src/logknife.c:260 speaks of truncation and rotation, but only a shrink of the open file is detected. A rotation by renaming leaves `fp` and `fstat(fileno(fp))` (src/logknife.c:211, 243) on the old file, which is then followed as before.
- The read offset can lie beyond the end of the file, by three routes:
  - the file shrinks while `file_size` fails, so the position is kept and `last_size` becomes -1 (`Follow.UnknownSizeKeepsPosition`);
  - `file_size` fails once, so `last_size` becomes -1, and the file shrinks before the next check, at which `fstat` succeeds but the test at src/logknife.c:262 meets `last_size == -1`;
  - between two end-of-data checks the file is truncated below the position but not below `last_size`, so the test at src/logknife.c:262 does not fire.
- Two shrinks in quick succession make the reader read the same bytes again: a poll that starts at 0 and finds the file still smaller than `last_size` resets to 0 once more (`Follow.ShrinkRereads`).
- While `fstat` keeps succeeding and the position starts no further than `last_size`, as it does after opening, a poll ends within the file, provided the file does not change during the poll (`Follow.CycleWithinFile`). `Follow.Follower.Poll` makes that assumption; see the `Follow.Follower.Step` line under "## Left out". A file that grows and is then truncated within one poll, but not below `last_size`, can still leave the offset past the end, as in the third route above.
- `^` is special only as the first pattern character. A `$` is an anchor only as the last one; anywhere else it is a literal (`Regex.InnerDollarIsLiteral`).

## Model

| member | source | states |
|---|---|---|
| Regex.MatchStar | src/logknife.c:26-32 | definition: `matchstar` as written, zero repetitions first; its meaning is stated by `MatchStarIff` |
| Regex.MatchHere | src/logknife.c:34-41 | definition: `matchhere` as written; its meaning is stated by `MatchHereCorrect` |
| Regex.MatchSomewhere | src/logknife.c:45-48 | definition: the do-while of `matchre` over every offset, the end included; its meaning is stated by `MatchSomewhereIff` |
| Regex.Matches | src/logknife.c:43-49 | definition: `matchre` as written; its meaning is stated by `MatchesIff` and `MatchesCorrect` |
| Regex.MatchRe | src/logknife.c:43-49 | the loop returns exactly `matchre`'s result; without `^`, true iff `matchhere` succeeds at some offset 0..\|text\|, the end included |
| Regex.EmptyAndDollar | src/logknife.c:35-36 | an empty pattern matches every text; the pattern `$` matches iff the text is empty |
| Regex.LiteralStep | src/logknife.c:37-40 | a pattern character not followed by `*`, other than a lone `$`, succeeds iff the text is non-empty, its first character is that character or the pattern character is `.`, and the tails match |
| Regex.InnerDollarIsLiteral | src/logknife.c:36-39 | a `$` that is not the last pattern character only matches a literal `$` |
| Regex.MatchStarIff | src/logknife.c:26-32 | `matchstar(c, re, t)` holds iff some prefix of k characters all accepted by `c` leaves a suffix that `re` matches |
| Regex.StarZeroFirst | src/logknife.c:28-29 | zero repetitions are tried first: a match of the rest at the current position makes `matchstar` succeed |
| Regex.MatchSomewhereIff | src/logknife.c:45-48 | the do-while over the text succeeds iff `matchhere` succeeds at some offset 0..\|t\|, the end included |
| Regex.MatchesIff | src/logknife.c:43-48 | an anchored pattern is tried at offset 0 only; any other pattern succeeds iff `matchhere` succeeds at some offset 0..\|t\| |
| Regex.AnchorNarrows | src/logknife.c:44 | `matchre("^" + P, T)` equals `matchhere(P, T)` for every P, and implies `matchre(P, T)` when P itself does not start with `^` |
| Regex.MatchesEverything | src/logknife.c:35-47 | the patterns `""` and `.*` match every text |
| Regex.Examples | src/logknife.c:26-49 | `a*` matches "" and "aaab"; matching is case-sensitive (`error` does not match "ERROR") |
| Regex.EndAnchoredIff | src/logknife.c:36 | a pattern is end-anchored exactly when its last character is `$` |
| Regex.StarStep | src/logknife.c:26-32 | a starred element followed by the rest of a pattern matches iff it takes some run of accepted characters and the rest matches what remains |
| Regex.LitStep | src/logknife.c:38-39 | a literal element followed by the rest of a pattern takes exactly one accepted character |
| Regex.MatchHereCorrect | src/logknife.c:26-41 | `matchhere` succeeds exactly when the pattern's declarative meaning matches at the start of the text |
| Regex.MatchesSound | src/logknife.c:43-49 | whenever `matchre` succeeds, some substring (at 0 under `^`, reaching the end under `$`) matches the pattern's meaning |
| Regex.MatchesComplete | src/logknife.c:43-49 | whenever such a substring exists, `matchre` succeeds |
| Regex.MatchesCorrect | src/logknife.c:43-49 | `matchre` succeeds iff some substring matches the pattern's meaning under the anchoring rules |
| Regex.ParseAppendDollar | src/logknife.c:36 | appending `$` to a pattern not ending in `$` keeps its elements and only adds the end anchor |
| Regex.SearchSuffix | src/logknife.c:36-47 | an end-anchored pattern without `^` matches iff some suffix of the text matches its elements |
| Regex.EndAnchorIff | src/logknife.c:36-49 | for P without a leading `^` and not ending in `$` (where the appended `$` would turn the last one literal), `P$` matches T iff some match of P's elements ends exactly at the end of T |
| Filter.Keeps | src/logknife.c:216-240 | definition: the decision of `should_print` over the pattern lists; `ShouldPrint` is proved equal to it |
| Filter.TrimEol | src/logknife.c:222 | the trimming loop never lengthens the line (its shape is stated by `TrimEolShape`) |
| Filter.TrimEolShape | src/logknife.c:218-222 | the trimmed line is a prefix of the line that does not end in `\n` or `\r`, and only `\n`/`\r` were removed |
| Filter.TrimEolUnique | src/logknife.c:222 | the trimmed line is the only prefix with those properties |
| Filter.ShouldPrint | src/logknife.c:216-240 | the result is true iff the trimmed line is matched by some include (or there is none) and by no exclude |
| Filter.TerminatorsIgnored | src/logknife.c:222 | appending `\n` or `\r` to a line does not change the decision |
| Filter.ExcludeWins | src/logknife.c:234-236 | a matching exclude drops the line, even when an include matches |
| Filter.NoPatternsKeepAll | src/logknife.c:225-239 | with no include and no exclude patterns every line is kept |
| Filter.IncludeRequired | src/logknife.c:225-231 | with includes present, a line no include matches is dropped |
| Highlight.EqualsIgnoreCase | src/logknife.c:100-101 | definition: `strcasecmp(a, b) == 0` character by character; its meaning is stated by `EqualsIgnoreCaseIff` |
| Highlight.ColorOf | src/logknife.c:98-103 | definition: the colour choice as written; its meaning is stated by `ColorOfCases` |
| Highlight.Split | src/logknife.c:77-108 | definition: the cut the cursor loop makes; its meaning is stated by `TextOfSplit`, `LeftmostFirst` and `SplitWellCut` |
| Highlight.Highlighted | src/logknife.c:67-109 | definition: the text `print_highlighted` writes, the rendering of `Split`; `PrintHighlighted` is proved equal to it |
| Highlight.Render | src/logknife.c:92-105 | definition: the writes for a cut, the text before each word, then colour, word and reset, and the rest verbatim; `TextOfSplit` states that removing the escapes gives back the line |
| Highlight.EqualsIgnoreCaseIff | src/logknife.c:100-101 | the recursive comparison that stands for `strcasecmp(...) == 0` holds iff the two words are equal after ASCII lower-casing |
| Highlight.ColorOfCases | src/logknife.c:98-103 | red iff the word is `ERROR` ignoring case, yellow iff it is `WARN` or `WARNING`, cyan otherwise |
| Highlight.Find | src/logknife.c:83 | definition: `strstr(p, words[i])` as the search from offset 0; its meaning is stated by `FindFromFirst` |
| Highlight.FindFrom | src/logknife.c:83 | a position `strstr` returns lies at or after the start, with the whole word inside the text (that it is the first occurrence is `FindFromFirst`) |
| Highlight.FindFromFirst | src/logknife.c:83-84 | `strstr`: a result is an occurrence, and it is at or before every occurrence at or after the start |
| Highlight.BestAmong | src/logknife.c:79-89 | a hit of the scan over the first n words names one of them and lies within the text (that it is leftmost is `BestAmongLeftmost`) |
| Highlight.BestAmongLeftmost | src/logknife.c:79-89 | the scan over the words returns an occurrence with no earlier occurrence of any word and no occurrence at the same position by a lower-indexed word; it returns none iff no word occurs |
| Highlight.FindBest | src/logknife.c:79-89 | the inner `for` loop yields exactly the leftmost, lowest-index hit |
| Highlight.PrintHighlighted | src/logknife.c:67-109 | the text written equals the rendering of the line's cut into plain text and coloured words |
| Highlight.SplitLast | src/logknife.c:78-94 | when no word occurs in the rest, the rest is written unchanged and the cut ends |
| Highlight.SplitNext | src/logknife.c:96-107 | when a hit is found, the cut is the text before it, the word, and the cut of the text after the word |
| Highlight.HighlightStep | src/logknife.c:96-107 | one pass of the cursor loop writes the text before the hit, the colour, the word and the reset, and resumes right after the word |
| Highlight.TextOfSplit | src/logknife.c:77-107 | deleting the colour and reset escapes from the output gives back exactly the input line |
| Highlight.NoWordsVerbatim | src/logknife.c:72-75 | with no highlight words the line is written verbatim |
| Highlight.LeftmostFirst | src/logknife.c:82-107 | when word j occurs at q with no earlier or lower-indexed occurrence, the first highlighted span is word j at q and scanning resumes after it |
| Highlight.SplitWellCut | src/logknife.c:77-108 | every highlighted piece is one of the highlight words, and no highlight word occurs in any text copied verbatim |
| Follow.FileSize | src/logknife.c:201-213 | definition: `file_size` as the length of the content, or -1 when `fstat` fails |
| Follow.Shrunk | src/logknife.c:262 | definition: the truncation test, both sizes known and the new one smaller; its effect is stated by `EndOfData` |
| Follow.Transition | src/logknife.c:255-273 | definition: one loop iteration on the position and `last_size`; its meaning is stated by `EndOfData` and `LineRead` |
| Follow.Cycle | src/logknife.c:255-279 | definition: iterations until end of data; its meaning is stated by `CycleOutcome` |
| Follow.Emit | src/logknife.c:276-278 | definition: `should_print` then `print_highlighted` on one line; its meaning is stated by `LineWritten` |
| Follow.EmitAll | src/logknife.c:276-278 | definition: the output for the lines read, in order; its meaning is stated by `EmitAllAppend` and `EmitAllVerbatim` |
| Follow.LineLen | src/logknife.c:272 | `fgets` takes at most `room` characters, at least one when there is data and room, and stops after a `\n`, at the room limit or at the end of data |
| Follow.LineLenStopsAtNewline | src/logknife.c:272 | no `\n` occurs in the read line before its last character |
| Follow.Chunk | src/logknife.c:253-272 | with `buf[8192]` a read takes 1 to 8191 characters within the file |
| Follow.ChunkShape | src/logknife.c:253-273 | a read is the slice at the position, holds a `\n` only as its last character, and is a complete line (ends in `\n` or fills the buffer) unless it reaches the end of the file |
| Follow.CStr | src/logknife.c:218-221 | the string `strlen` sees is no longer than the buffer and stops at the buffer's end or at a NUL (that it is the first NUL follows with `CStrPrefix`) |
| Follow.CStrPrefix | src/logknife.c:218 | that string is a NUL-free prefix of the buffer, and the whole buffer when the buffer holds no NUL |
| Follow.Follower.constructor | src/logknife.c:249-251 | the reader starts at the end of the file with `last_size` set to the current file size or -1, and nothing written; when the size is known, position and `last_size` are equal |
| Follow.Follower.Step | src/logknife.c:255-279 | one loop iteration moves to `Transition`'s next position and `last_size`, and appends the filtered, highlighted text of the line it read; it requires `Printable` on that line, a condition under which `print_highlighted` returns, stronger than necessary |
| Follow.Follower.Poll | src/logknife.c:255-279 | iterating until end of data reaches `Cycle`'s state and appends the output of all lines read in between; it requires `Printable` on every line of the drain, a condition under which `print_highlighted` returns, stronger than necessary |
| Follow.EndOfData | src/logknife.c:256-268 | at EOF nothing is read, `last_size` becomes the current size, and the position becomes 0 iff the size is known, the old size is known and the size shrank |
| Follow.TruncationRestarts | src/logknife.c:260-272 | after a truncation was seen, the next read starts at offset 0 and returns the first line of the new content |
| Follow.UnknownSizeKeepsPosition | src/logknife.c:261-265 | when the size is unknown, the position is kept and `last_size` becomes -1 |
| Follow.LineRead | src/logknife.c:271-273 | a read advances the position by exactly the line length, returns the file slice between the two positions, and leaves `last_size` unchanged |
| Follow.LineWritten | src/logknife.c:276-278 | a read line is written highlighted when `should_print` accepts it, and nothing is written otherwise |
| Follow.EmitAllAppend | src/logknife.c:255-280 | the output of consecutive reads is the concatenation of their outputs |
| Follow.PollStep | src/logknife.c:255-279 | one iteration followed by the rest of the cycle gives the same state and output as the whole cycle |
| Follow.ChunksConcat | src/logknife.c:271-273 | the lines read from a position up to end of data concatenate to the rest of the file |
| Follow.ChunksShape | src/logknife.c:272 | every line read is line-shaped and every one except the last is complete |
| Follow.CycleOutcome | src/logknife.c:255-273 | a cycle reads every line from the position, sets `last_size` to the current size, and ends at the end of the file (or at 0 after a shrink, or in place when nothing was left) |
| Follow.CycleWithinFile | src/logknife.c:255-273 | while `fstat` succeeds, a poll starting no further than `last_size` ends within the file and no further than the new `last_size` |
| Follow.ShrinkRereads | src/logknife.c:262-265 | a poll from 0 that finds the file still below `last_size` resets to 0 again, so the next poll reads the same lines once more |
| Follow.ChunksNulFree | src/logknife.c:272 | in a file without NUL every line read is NUL-free |
| Follow.EmitAllVerbatim | src/logknife.c:276-278 | with no patterns and no highlights, NUL-free lines are written unchanged, one after another |
| Follow.PassThrough | src/logknife.c:255-279 | with no patterns and no highlights, a cycle over a NUL-free file writes exactly the unread rest of the file |

## Left out

- `main`, `parse_args`, `usage` and `push_str`: command-line plumbing with `realloc` and `exit`. The options appear as the datatype `Filter.Options`.
- The interval option, including its floor of 10 ms (src/logknife.c:174), `atoi` and `sleep_ms`: the model has no clock, and the sleep between polls has no effect on what is read or written.
- `enable_ansi_if_windows` and the `strcasecmp`/`_stricmp` macro: platform glue. The comparison is modelled as ASCII case-insensitive equality.
- `file_size`: an `fstat` call, replaced by the input `statOk`. A known size is taken to be the length of the file content.
- `fopen` failure and its error message: the model starts with an opened file.
- Real stdio (`fgetc`/`ungetc`, `fgets`, `fseek`, `clearerr`, `fflush`): the file is a string with a position and stdout an accumulated string.
- An I/O error that makes `fgets` fail after `ungetc` (the `continue` at src/logknife.c:272-273) is not modelled, since a read from in-memory content always succeeds.
- The non-terminating `for (;;)` loop: `Step` is one iteration, and `Poll` repeats it until the next end of data.
- The `malloc` failure path in `should_print` (src/logknife.c:220), which keeps the line: memory is not modelled.
- Highlight.PrintHighlighted, Highlight.Split and Highlight.Highlighted: require every highlight word to be non-empty when the line is non-empty. With an empty word `strstr` returns the cursor itself and the loop never advances (src/logknife.c:83, 107). This also excludes lines where a lower-indexed non-empty word wins at every cursor, so the precondition is slightly stronger than necessary.
- Follow.Follower.Step: the file content is an argument of each call. A different string models a file changed between polls (growth, truncation, or a copy-and-truncate rotation). Within one drain `fgets` may return bytes already held in the stdio buffer after the file has changed; that buffering is not modelled, so the content should change only between calls of `Follow.Follower.Poll`. A rotation by renaming is modelled by passing the old content again.
- Follow.Follower.Step, Follow.Follower.Poll, Follow.Emit and Follow.EmitAll: require `Printable` for every line they read or write: the line is dropped by `should_print`, is empty, or is highlighted with non-empty words only. This is a condition under which `print_highlighted` returns, and it is stronger than necessary, as for `Highlight.PrintHighlighted`: with an empty word, the C still advances wherever a lower-indexed word occurs at the cursor (the strict `<` at src/logknife.c:85).
- Integer widths: positions and sizes are unbounded integers, and the 64-bit `int64_t` sizes and the `(int)sizeof(buf)` cast (src/logknife.c:272) do not overflow for buffers of 8192 bytes.
