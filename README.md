# simple-log-viewer, modelled in Dafny

simple-log-viewer maps a log file read-only into memory, indexes its lines
by newline offset, and runs regular-expression searches over byte ranges of
the mapping. Its command-line driver splits the mapping at newlines and
resolves a tree of patterns against the lines. This project models that core
and proves properties of it:

- `range.dfy` (module `Ranges`): the half-open byte interval `Range`, its
  checked constructor and shift, and slicing a byte buffer by a range.
- `matcher.dfy` (module `Matcher`): the `Matcher` protocol. Every helper
  delegates to one primitive, `find_at`, which is a function parameter here.
  `try_find_iter` is a method with its loop, proved equal to a reference
  function `Iterate`. That function is proved to report ordered matches and
  to stop exactly as the callback asks.
- `newlines.dfy` (module `Newlines`): the newline offsets of a byte buffer.
  Both the line index and the split loop are stated in terms of them.
- `mmap.dfy` (module `Mmap`): the alignment arithmetic of `MemoryMap::new`
  on Unix and Windows, including the high/low DWORD split of the offset on
  Windows. It also covers the sequence of OS calls made, the pointer and
  length stored, the view that `Deref` exposes, and how `Drop` recovers the
  mapped region from the stored pointer. The page size, allocation
  granularity and OS answers are parameters. `src/mmap.rs` is a verbatim
  copy of `core/src/mmap.rs` apart from the test module, one line earlier
  from line 18 on. The rows
  below cite the `core` copy, and the same members model both copies.
- `log_file.dfy` (module `LogFile`):
  - `RegexConfig::default`;
  - `Searcher::new`/`pos`;
  - the line-index scan of `LogMap::new`, as a method with its loop;
  - `LogMap::new`, including its error paths;
  - `get_lines_count`;
  - `find_in_iter`, with the regex builder abstract.
- `seqs.dfy` (module `Seqs`): joining a sequence of sequences in order,
  used by both the range search and the line split.
- `line_split.dfy` (module `LineSplit`): the newline split loop of `main`,
  as a method with its loop.
- `pattern_tree.dfy` (module `PatternTree`):
  - `Cursor`, `Pattern`, `Pattern::new` and `get_patterns`;
  - the root pattern built by `main`;
  - `resolve_pattern`, as a method with its two nested loops and its
    recursion, proved equal to a reference function `Resolve`;
  - a corrected resolution, `ResolveOnce` (see Findings).

The assertion of `Range::new`, the two `checked_add(..).unwrap()`s of
`Range::offset`, slicing by a `Range`, and the regex `build().unwrap()` in
`find_in_iter` are modelled as `None`, and the I/O failures of
`MemoryMap::new` and `LogMap::new` as error variants. The panics that are not
modelled are listed under "Left out". `usize` is bounded where the source
checks for overflow (`Range::offset`). The line count is what the scan in
`LogMap::new` gives: `max(1, number of newlines)`, so a last line without a
terminator is not counted.

## Model

| member | source | states |
|---|---|---|
| Ranges.New | core/src/range.rs:11-14 | a range is built exactly when `start <= end`, with those endpoints; otherwise the constructor's assertion fails |
| Ranges.Zero | core/src/range.rs:17-22 | the zero-width range at `o` has `start == end == o`, is empty and has length 0 |
| Ranges.Offset | core/src/range.rs:35-40 | shifting adds the amount to both endpoints, and fails instead of wrapping when either sum exceeds `usize::MAX` |
| Ranges.OffsetPreservesLen | core/src/range.rs:35-45 | a successful shift keeps `start <= end`, the length and emptiness |
| Ranges.Len | core/src/range.rs:43-45 | for a valid range `start + len == end`, so the subtraction never underflows |
| Ranges.IsEmpty | core/src/range.rs:48-50 | an empty range is valid and has length 0; a valid range that is not empty has positive length |
| Ranges.EmptyIffLenZero | core/src/range.rs:43-50 | `is_empty()` holds iff `len() == 0` iff `start == end` |
| Ranges.Slice | core/src/range.rs:53-60 | indexing bytes by a range succeeds iff `start <= end <= len`, and yields `len()` bytes equal to `bytes[start..end]` |
| Ranges.SliceOfOffset | core/src/range.rs:35-60 | a range shifted by `base` selects from the whole buffer what the unshifted range selects from the buffer after `base` |
| Matcher.Find | core/src/searcher.rs:7-9 | `find` is `find_at` from offset 0 |
| Matcher.IsMatchAt | core/src/searcher.rs:56-58 | `is_match_at` is true iff `find_at` returns a match, and passes its error through |
| Matcher.IsMatch | core/src/searcher.rs:53-55 | `is_match` is `is_match_at` from 0, true iff `find` returns a match |
| Matcher.ShortestMatchAt | core/src/searcher.rs:62-64 | returns the end of `find_at`'s match, `None` without a match, and the same error; with a well-behaved matcher the end lies in `[at, len]` |
| Matcher.ShortestMatch | core/src/searcher.rs:59-61 | `shortest_match` is `shortest_match_at` from 0 and, for a well-behaved matcher, ends within the content |
| Matcher.MatchIffShortestMatch | core/src/searcher.rs:56-64 | `is_match_at` answers true exactly when `shortest_match_at` finds an end, and false exactly when it finds none |
| Matcher.Iterate | core/src/searcher.rs:27-51 | the loop only ever appends to the matches already reported; it never drops or rewrites one |
| Matcher.IterateOrdered | core/src/searcher.rs:27-51 | from any consistent loop state, the reported matches lie in the content, have strictly increasing ends, and each starts at or after the previous end; every callback but the last answered true; the outcome matches the callback's last answer |
| Matcher.TryFindIter | core/src/searcher.rs:19-52 | the loop computes `Iterate` from `last_end = 0`, `last_match = None`; it steps past zero-width matches, skips a repeated empty match at the same end, and stops on exhaustion, on no match, on the callback's answer or on an error; its matches are ordered; it makes at most `len + 1` `find_at` calls |
| Matcher.FirstCallError | core/src/searcher.rs:33 | an error from the first `find_at` aborts with that error before any callback runs |
| Matcher.IterateErrorIsMatchers | core/src/searcher.rs:31-34 | a failing run returns, unchanged, the error of one of its `find_at` calls, made at an offset within the content |
| Matcher.Infallible | core/src/searcher.rs:15 | the closure that `find_iter` wraps answers `Ok` of the user's boolean |
| Matcher.FindIter | core/src/searcher.rs:11-17 | `find_iter` reports exactly what `try_find_iter` reports with that closure, in order; it fails exactly when that run fails, with the same error, which is the error of one of the matcher's `find_at` calls |
| Newlines.NewlinePositionsCorrect | core/src/fr.rs:76-81 | the scan collects exactly the offsets of the `\n` bytes, strictly increasing |
| Newlines.NewlineCount | core/src/fr.rs:76-81 | one offset per `\n` byte |
| Newlines.NewlinePositionsStep | core/src/fr.rs:76-80 | looking at one more byte appends its offset if and only if it is `\n` |
| LogFile.DefaultConfig | core/src/fr.rs:23-41 | every flag is false except `unicode`; `size_limit = 100·2^20`, `dfa_size_limit = 1000·2^20`, `nest_limit = 250` |
| LogFile.IgnoredFlags | core/src/fr.rs:99-108 | `case_insensitive`, `case_smart`, `swap_greed` and `ignore_whitespace` do not reach the regex builder |
| LogFile.ForwardedFlags | core/src/fr.rs:99-108 | two configurations that give the builder the same options agree on `nest_limit`, `octal`, `multi_line`, `dot_matches_new_line`, `unicode`, `size_limit` and `dfa_size_limit` |
| LogFile.Forwarded | core/src/fr.rs:99-107 | the builder receives `nest_limit`, `octal`, `multi_line`, `dot_matches_new_line`, `unicode`, `size_limit` and `dfa_size_limit` from the configuration; for the default configuration these are `250`, off, off, off, on, `100·2^20` and `1000·2^20` |
| LogFile.NewSearcher | core/src/fr.rs:54-60 | a new searcher starts at position 0 over the given buffer |
| LogFile.Pos | core/src/fr.rs:58-60 | the position is 0 exactly for a searcher as `Searcher::new` builds it over its buffer |
| LogFile.LineIndexShape | core/src/fr.rs:73-81 | the index has `max(1, #newlines)` entries with keys `0..count-1`; with no newline it is `{0 -> 0}`; otherwise its values are the `\n` offsets, strictly increasing and complete, since the first newline overwrites the seeded entry |
| LogFile.TrailingTextNotIndexed | core/src/fr.rs:76-81 | an offset after the last newline is never an index value |
| LogFile.LineIndexStep | core/src/fr.rs:76-80 | a `\n` byte at offset `i` stores `line_num -> i` and any other byte changes nothing |
| LogFile.BuildLineIndex | core/src/fr.rs:73-81 | the scan's loop builds exactly `LineIndex` of the bytes |
| LogFile.LinesCount | core/src/fr.rs:89-91 | `get_lines_count` of an indexed map is `max(1, number of 0x0A bytes)` |
| LogFile.NewLogMap | core/src/fr.rs:71-88 | it fails with the metadata error, the mapping error (including a zero-length file on Unix) or the clone error; it succeeds only when all three succeed, and then holds the mapping, its bytes and their line index |
| LogFile.NewLogMapIndexesFile | core/src/fr.rs:72-81 | the bytes indexed by a successful `LogMap::new` are exactly the file's bytes |
| LogFile.FoldConcat | core/src/fr.rs:117 | the fold keeps what it has accumulated as a prefix of its result |
| LogFile.FoldConcatIsFlatten | core/src/fr.rs:117 | the fold with `[p, next].concat()` is the in-order concatenation of the parts |
| Seqs.FlattenAppend | core/src/fr.rs:117 | concatenating one more part appends its matches at the end |
| LogFile.MatchesPerRange | core/src/fr.rs:109-116 | one list of matches per input range, the matcher applied to that range's slice of the mapping; nothing when some range does not fit the mapping, where `self.map[*range]` panics |
| LogFile.FindInIter | core/src/fr.rs:93-118 | the search succeeds exactly when the pattern compiles and every range fits the mapping (otherwise the source panics); its result is the concatenation, in range order, of each range's matches in find order |
| LogFile.FindInIterAppend | core/src/fr.rs:109-117 | one more range succeeds exactly when the shorter search does and the new range fits, and then appends exactly that range's own matches |
| LogFile.FindInIterRelative | core/src/fr.rs:113-114 | every reported range comes from the slice of one input range, ends within that range's length, and so is relative to that range's start |
| LogFile.FindInIterIgnoresUnforwarded | core/src/fr.rs:99-108 | configurations that agree on the forwarded options give the same results |
| Mmap.Alignment | core/src/mmap.rs:99 | `alignment = offset mod P` is below `P` and at most `offset` |
| Mmap.AlignedOffset | core/src/mmap.rs:99-100 | `aligned_offset` is a multiple of `P`, at most `offset`, and less than `P` below it |
| Mmap.AlignedLen | core/src/mmap.rs:99-101 | `aligned_offset + aligned_len == offset + len`; it is 0 only for an aligned offset with `len = 0` |
| Mmap.PaddedRegionCovers | core/src/mmap.rs:99-101 | the padded region starts at or before the requested one, ends where it ends, and is at least as long |
| Mmap.SplitOffsetRoundTrip | core/src/mmap.rs:73-74 | `(b >> 16 >> 16)` as high DWORD and `b & 0xffffffff` as low DWORD join back to `b` |
| Mmap.New | core/src/mmap.rs:51-126 | on either platform a mapping succeeds only when the OS view call does, and then stores the caller's `len` and a pointer `alignment` bytes past the OS base; `InvalidInput` comes exactly from a zero padded length on Unix, before any call; on Windows every run that gets past `CreateFileMappingW` ends with `CloseHandle` |
| Mmap.NewUnix | core/src/mmap.rs:98-126 | a zero `aligned_len` is refused with `InvalidInput` before any call; otherwise one `mmap(aligned_len, aligned_offset)`; a failure gives the OS error; success stores `base + alignment` and the caller's `len` |
| Mmap.NewWindows | core/src/mmap.rs:51-88 | a failing `CreateFileMappingW` ends at once; otherwise `MapViewOfFile` with `aligned_len`, then `CloseHandle` whether or not the view was mapped; success stores `base + alignment` and `len` |
| Mmap.NewWindowsOffset | core/src/mmap.rs:70-76 | the two DWORDs passed to `MapViewOfFile` denote exactly `aligned_offset` |
| Mmap.Drop | core/src/mmap.rs:140-170 | `drop` calls `munmap` on Unix and `UnmapViewOfFile` on Windows, at the granularity boundary at or below the stored pointer; on Unix the released region ends where the view ends |
| Mmap.AlignedRemainder | core/src/mmap.rs:142 | for a `P`-aligned base and `alignment < P`, `(base + alignment) mod P == alignment` |
| Mmap.DropReleasesMappedRegion | core/src/mmap.rs:140-170 | for a base aligned to the granularity, `drop` unmaps at that base; on Unix its length is the `aligned_len` passed to `mmap`; Windows uses the allocation granularity in both `new` and `drop` |
| Mmap.Deref | core/src/mmap.rs:36-39 | the view is `len` bytes read from the stored pointer on |
| Mmap.Len | core/src/mmap.rs:24-27 | `len()` is the length of the view that `Deref` exposes |
| Mmap.DerefIsRequestedRange | core/src/mmap.rs:120-123 | a successful mapping shows exactly file bytes `[offset, offset + len)` |
| LineSplit.Cut | src/main.rs:27-35 | one segment per cut, segment `k` running from the previous cut (or 0) to cut `k` |
| LineSplit.CutAt | src/main.rs:29-34 | segment `k` is `chunk[p(k-1)..p(k)]`, the first one `chunk[0..p0]` |
| LineSplit.SplitLines | src/main.rs:24-36 | the loop pushes exactly `Segments(chunk)`, one slice per newline |
| LineSplit.SplitAtNewline | src/main.rs:27-34 | at a newline `i` the loop pushes `chunk[index..i]` and sets `index = i` |
| LineSplit.SplitAtOther | src/main.rs:26-27 | any other byte changes nothing |
| LineSplit.SegmentCount | src/main.rs:26-35 | the number of segments is the number of `\n` bytes |
| LineSplit.SegmentShape | src/main.rs:29-34 | the first segment holds no newline; each later one starts with the previous `\n`, because `index = i`, and holds no other |
| LineSplit.CutJoin | src/main.rs:29-34 | joined, the segments are the chunk up to the last cut |
| LineSplit.SegmentsJoin | src/main.rs:24-36 | joined, the segments are the chunk before its last newline; the bytes after it are never pushed; a chunk without a newline gives no segment |
| PatternTree.PatternNew | src/main.rs:134-141 | a new pattern has the given expression and label, no cursor and no sub-pattern |
| PatternTree.GetPatterns | src/main.rs:115-119 | the preset list is the single pattern `("xxx", "xxx")` |
| PatternTree.RootPattern | src/main.rs:70-82 | the root has label `parent`, the given sub-patterns, and one `Cursor{line: i, index: 0}` per line, in line order |
| PatternTree.RootCursorsIn | src/main.rs:74-81 | every root cursor names an existing line, and no line appears twice |
| PatternTree.Push | src/main.rs:98-108 | a sub-pattern either keeps its index or gains one cursor on the parent cursor's line; nothing else changes |
| PatternTree.Resolve | src/main.rs:94-113 | resolution keeps the node's own expression, label and index and the tree's shape; a node with no cursor is unchanged |
| PatternTree.ResolveCursors | src/main.rs:96 | the outer loop over the parent's cursors keeps the number and shape of the sub-patterns |
| PatternTree.ResolveSubs | src/main.rs:97-110 | the inner loop over the sub-patterns keeps their number and shape |
| PatternTree.ResolveSubsAt | src/main.rs:97-110 | for one parent cursor, each sub-pattern is pushed and then resolved at once, independently of the others |
| PatternTree.Appended | src/main.rs:98-108 | at most one cursor per parent cursor is appended, each naming an existing line |
| PatternTree.ResolveCursorsChild | src/main.rs:96-108 | after the outer loop each sub-pattern holds its old cursors followed by the matches on the parent cursors' lines |
| PatternTree.ResolveChildIndex | src/main.rs:96-105 | a child gains, in parent-cursor order, `Cursor{line: c.line, index: shortest_match(child.regex, lines[c.line])}` for each parent cursor `c` whose line matches; `c.index` is never consulted |
| PatternTree.ResolveFresh | src/main.rs:95 | resolving a node with an empty index, such as a new pattern, changes nothing |
| PatternTree.ResolveGrows | src/main.rs:94-112 | resolution only appends cursors below the node; it never removes or reorders cursors and never changes an expression, a label or the shape |
| PatternTree.ResolvePattern | src/main.rs:94-113 | the method with its nested loops, and the recursion into each child once per parent cursor, computes `Resolve`; it needs every cursor's line to exist |
| PatternTree.DuplicateCursors | src/main.rs:96-110 | as written, with two lines and a child that has its own child, the grandchild lists line 0 twice |
| PatternTree.Extend | src/main.rs:96-108 | giving a child all its matches at once keeps its expression, label and shape |
| PatternTree.ResolveOnce | src/main.rs:94-113 | the corrected resolution keeps each node's expression, label, index and shape |
| PatternTree.ResolveOnceSubsAt | src/main.rs:97-110 | in the corrected resolution each child is extended with all its matches, then resolved once |
| PatternTree.ResolveOnceConsistent | src/main.rs:96-110 | after the corrected resolution of a tree without cursors below its root, every child holds exactly its matches on its parent's cursors, at every depth |
| PatternTree.AppendedIncreasing | src/main.rs:96-108 | filtering ordered parent cursors keeps their lines strictly increasing |
| PatternTree.ConsistentNoDuplicates | src/main.rs:96-110 | in a consistent tree whose root lists each line once, no node lists a line twice |
| PatternTree.ResolveOnceNoDuplicates | src/main.rs:70-110 | the corrected resolution of `main`'s root is consistent and lists no line twice in any pattern |
| PatternTree.ResolveAgreesWhenShallow | src/main.rs:94-113 | when no child has sub-patterns, the code as written and the corrected resolution give the same tree |
| PatternTree.MainResolve | src/main.rs:68-83 | in the run `main` makes, the preset pattern receives each matching line once, in line order, as the corrected resolution would give |

## Left out

- The OS calls (`mmap`, `munmap`, `CreateFileMappingW`, `MapViewOfFile`,
  `CloseHandle`, `UnmapViewOfFile`, `sysconf`, `GetSystemInfo`) are foreign
  calls. Their answers, the page size, the allocation granularity and the
  returned base address are parameters. The model records which calls are
  made and with what arguments.
- The panic of `drop` when `munmap` or `UnmapViewOfFile` reports failure is
  not modelled. `Drop` returns the call it makes.
- Mmap.AlignedLen: `len + alignment` and the pointer arithmetic are on
  unbounded naturals; the `usize` overflow the source could hit there is
  not modelled.
- The regex engine (`RegexBuilder::build`, `Regex::new`, `find_iter`,
  `shortest_match`) is an external crate. It is a function parameter.
  - A pattern that fails to build makes `find_in_iter` panic; the model
    returns `None` then.
  - `Regex::new(..).unwrap()` in `resolve_pattern` is folded into the
    abstract `ShortestMatch`, which is total.
- Matcher.TryFindIter: the model requires a well-behaved `find_at`, one
  whose matches lie between `at` and the end of the content. A match that
  ends at or before `at` (a non-empty one with `end <= at`, or an empty one
  with `end < at`) would not move `last_end` forward, and the loop could run
  forever. A match past the content would end the loop at the next check,
  but the ordering properties would no longer hold.
- Matcher.TryFindIter: the `FnMut` callback's private state is modelled by
  passing it the matches already reported.
- `LogMap::get_line` is not modelled: it builds a string from raw parts
  with a made-up capacity and has no defined behaviour to state.
- `src/fr.rs` is not modelled: `resolve_lines` is an empty stub and its
  `lines` map is never filled.
- The command-line I/O in `main` is not modelled: arguments, timing,
  printing, and the `BufReader::read_line` pass. Lines are taken as given
  strings.
- LineSplit.SplitLines: the UTF-8 decoding and `parse().unwrap()` of each
  segment is not modelled. Segments stay bytes, so the panic on invalid
  UTF-8 is not captured.
- `Index<Range> for str` (char-boundary panics) and `IndexMut<Range>` are
  not modelled. `IndexMut` selects the same bytes as `Index`.
- The test module of `core/src/mmap.rs` performs real file I/O and is not
  modelled.
- The pattern tree is modelled as a value. It is owned and reached through
  a single `&mut`, so there is no aliasing to lose.

## Findings

| source | as written | input that shows it | evidently intended | confidence | as-written member | corrected member |
|---|---|---|---|---|---|---|
| src/main.rs:96-110 | `resolve_pattern(lines, sub_pattern)` runs inside the loop over the parent's cursors, and each run walks the child's whole accumulated index again | lines `["a", "b"]`, a child `x` with its own child `y`, every expression matching at 0: the grandchild ends with lines `[0, 0, 1]` | resolve each child once, after it has received the matches for all parent cursors, so that each node lists the matching lines of its parent once each | medium, not executed | PatternTree.DuplicateCursors | PatternTree.ResolveOnceNoDuplicates |
