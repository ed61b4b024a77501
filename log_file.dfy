/**
 * The log file abstraction: a mapping of the whole file, the line index
 * computed over it in one forward scan, the regex configuration record and
 * the range-wise search on top of them. The regex engine itself is a
 * parameter.
 */
module LogFile {
  import opened Wrappers
  import opened Newlines
  import opened Ranges
  import opened Seqs
  import Mmap

  /** The flags and limits a regex is configured with. */
  datatype RegexConfig = RegexConfig(
    caseInsensitive: bool,
    caseSmart: bool,
    multiLine: bool,
    dotMatchesNewLine: bool,
    swapGreed: bool,
    ignoreWhitespace: bool,
    unicode: bool,
    octal: bool,
    sizeLimit: nat,
    dfaSizeLimit: nat,
    nestLimit: nat)

  const MIB: nat := 0x10_0000

  /** `RegexConfig::default`: Unicode on, every other flag off, generous size limits. */
  function DefaultConfig(): (c: RegexConfig)
    ensures c.unicode
    ensures !c.caseInsensitive && !c.caseSmart && !c.multiLine && !c.dotMatchesNewLine
    ensures !c.swapGreed && !c.ignoreWhitespace && !c.octal
    ensures c.sizeLimit == 104_857_600 && c.dfaSizeLimit == 1_048_576_000 && c.nestLimit == 250
  {
    RegexConfig(
      caseInsensitive := false,
      caseSmart := false,
      multiLine := false,
      dotMatchesNewLine := false,
      swapGreed := false,
      ignoreWhitespace := false,
      unicode := true,
      octal := false,
      sizeLimit := 100 * MIB,
      dfaSizeLimit := 1000 * MIB,
      nestLimit := 250)
  }

  /** The settings `find_in_iter` hands to the regex builder. */
  datatype BuilderOptions = BuilderOptions(
    nestLimit: nat,
    octal: bool,
    multiLine: bool,
    dotMatchesNewLine: bool,
    unicode: bool,
    sizeLimit: nat,
    dfaSizeLimit: nat)

  /** What of a configuration reaches the builder. */
  function Forwarded(c: RegexConfig): (o: BuilderOptions)
    ensures o.nestLimit == c.nestLimit && o.octal == c.octal && o.multiLine == c.multiLine
    ensures o.dotMatchesNewLine == c.dotMatchesNewLine && o.unicode == c.unicode
    ensures o.sizeLimit == c.sizeLimit && o.dfaSizeLimit == c.dfaSizeLimit
    ensures c == DefaultConfig() ==> o == BuilderOptions(250, false, false, false, true, 104_857_600, 1_048_576_000)
  {
    BuilderOptions(c.nestLimit, c.octal, c.multiLine, c.dotMatchesNewLine, c.unicode, c.sizeLimit, c.dfaSizeLimit)
  }

  /** Case folding, smart case, greed swapping and whitespace-insensitive syntax never reach the builder. */
  lemma IgnoredFlags(c: RegexConfig, caseInsensitive: bool, caseSmart: bool, swapGreed: bool, ignoreWhitespace: bool)
    ensures Forwarded(c) == Forwarded(c.(caseInsensitive := caseInsensitive, caseSmart := caseSmart,
                                         swapGreed := swapGreed, ignoreWhitespace := ignoreWhitespace))
  {
  }

  /** Every other setting does reach it: two configurations build the same regex only if they agree on these. */
  lemma ForwardedFlags(c: RegexConfig, d: RegexConfig)
    requires Forwarded(c) == Forwarded(d)
    ensures c.nestLimit == d.nestLimit && c.octal == d.octal && c.multiLine == d.multiLine
    ensures c.dotMatchesNewLine == d.dotMatchesNewLine && c.unicode == d.unicode
    ensures c.sizeLimit == d.sizeLimit && c.dfaSizeLimit == d.dfaSizeLimit
  {
  }

  /** The (so far unused) search cursor over a buffer. */
  datatype Searcher = Searcher(pos: nat, buf: seq<Byte>)

  /** `Searcher::new`. */
  function NewSearcher(buf: seq<Byte>): (s: Searcher)
    ensures s.pos == 0 && s.buf == buf
  {
    Searcher(0, buf)
  }

  /** `Searcher::pos`. */
  function Pos(s: Searcher): (p: nat)
    ensures p == 0 <==> s == NewSearcher(s.buf)
  {
    s.pos
  }

  /**
   * The line index the scan builds: line `k` maps to the offset of the `k`-th
   * newline; with no newline at all, the seeded entry `0 -> 0` remains.
   */
  function LineIndex(bytes: seq<Byte>): (lines: map<nat, nat>)
  {
    var ps := NewlinePositions(bytes);
    if |ps| == 0 then map[0 := 0] else map k | 0 <= k < |ps| :: ps[k]
  }

  function Max(a: nat, b: nat): nat
  {
    if a < b then b else a
  }

  /** Counting and keys by scanning prefix by prefix: each newline after the first adds the next key. */
  lemma {:induction false} LineIndexKeys(bytes: seq<Byte>, i: nat)
    requires i <= |bytes|
    ensures var n := Max(1, |NewlinePositions(bytes[..i])|);
      && |LineIndex(bytes[..i])| == n
      && forall k: nat :: k in LineIndex(bytes[..i]) <==> k < n
  {
    if i == 0 {
      assert bytes[..0] == [];
      assert NewlinePositions(bytes[..0]) == [];
      assert LineIndex(bytes[..0]) == map[0 := 0];
    } else {
      LineIndexKeys(bytes, i - 1);
      LineIndexStep(bytes, i - 1);
      NewlinePositionsStep(bytes, i - 1);
    }
  }

  /**
   * The index has one entry per newline (at least one), its keys are
   * `0 .. count - 1`, and, when there is a newline, its values are the
   * strictly increasing offsets of exactly the newline bytes.
   */
  lemma LineIndexShape(bytes: seq<Byte>)
    ensures |LineIndex(bytes)| == Max(1, multiset(bytes)[NEWLINE])
    ensures forall k: nat :: k in LineIndex(bytes) <==> k < Max(1, multiset(bytes)[NEWLINE])
    ensures multiset(bytes)[NEWLINE] == 0 ==> LineIndex(bytes) == map[0 := 0]
    ensures multiset(bytes)[NEWLINE] > 0 ==>
      && (forall k :: k in LineIndex(bytes) ==> LineIndex(bytes)[k] < |bytes| && bytes[LineIndex(bytes)[k]] == NEWLINE)
      && (forall k, l :: k in LineIndex(bytes) && l in LineIndex(bytes) && k < l ==> LineIndex(bytes)[k] < LineIndex(bytes)[l])
      && (forall i :: 0 <= i < |bytes| && bytes[i] == NEWLINE ==> i in LineIndex(bytes).Values)
  {
    var ps := NewlinePositions(bytes);
    NewlineCount(bytes);
    NewlinePositionsCorrect(bytes);
    LineIndexKeys(bytes, |bytes|);
    assert bytes[..|bytes|] == bytes;
    var lines := LineIndex(bytes);
    if |ps| > 0 {
      forall i | 0 <= i < |bytes| && bytes[i] == NEWLINE ensures i in lines.Values {
        var k :| 0 <= k < |ps| && ps[k] == i;
        assert lines[k] == i;
      }
    }
  }

  /** Text after the last newline gets no entry: every indexed offset is a newline, or the seeded 0. */
  lemma TrailingTextNotIndexed(bytes: seq<Byte>, i: nat)
    requires i < |bytes| && forall j :: i <= j < |bytes| ==> bytes[j] != NEWLINE
    requires i > 0
    ensures i !in LineIndex(bytes).Values
  {
    NewlinePositionsCorrect(bytes);
  }

  /** One step of the scan: a newline byte overwrites (first time) or adds the entry for the current line. */
  lemma LineIndexStep(bytes: seq<Byte>, i: nat)
    requires i < |bytes|
    ensures var before := NewlinePositions(bytes[..i]);
      LineIndex(bytes[..i + 1])
        == if bytes[i] == NEWLINE then LineIndex(bytes[..i])[|before| := i] else LineIndex(bytes[..i])
  {
    NewlinePositionsStep(bytes, i);
  }

  /** The forward scan of `LogMap::new` that fills the line index. */
  method BuildLineIndex(bytes: seq<Byte>) returns (lines: map<nat, nat>)
    ensures lines == LineIndex(bytes)
  {
    lines := map[0 := 0];
    var lineNum: nat := 0;
    for index := 0 to |bytes|
      invariant lineNum == |NewlinePositions(bytes[..index])|
      invariant lines == LineIndex(bytes[..index])
    {
      LineIndexStep(bytes, index);
      NewlinePositionsStep(bytes, index);
      if bytes[index] == NEWLINE {
        lines := lines[lineNum := index];
        lineNum := lineNum + 1;
      }
    }
    assert bytes[..|bytes|] == bytes;
  }

  /** The log map: the mapping, the bytes it shows, and the line index over them. */
  datatype LogMap = LogMap(mapping: Mmap.MemoryMap, view: seq<Byte>, lines: map<nat, nat>)

  /** `get_lines_count`: the number of index entries, one per newline and never fewer than one. */
  function LinesCount(lm: LogMap): (n: nat)
    ensures lm.lines == LineIndex(lm.view) ==> n == Max(1, multiset(lm.view)[NEWLINE])
  {
    LineIndexShape(lm.view);
    |lm.lines|
  }

  /**
   * `LogMap::new`: reads the file length, maps the whole file, scans it and
   * duplicates the file handle. `metadata` and `clone` are the answers of
   * `file.metadata()` and `file.try_clone()`; `memory` is the address space
   * the mapping is read through.
   */
  method NewLogMap(platform: Mmap.Platform, info: Mmap.SystemInfo, fileLen: Mmap.U64, os: Mmap.OsAnswers,
                   memory: nat -> Byte, metadata: Result<(), int>, clone: Result<(), int>)
    returns (r: Result<LogMap, Mmap.IoError>)
    requires Mmap.SaneSystem(platform, info)
    ensures metadata.Err? ==> r == Err(Mmap.LastOsError(metadata.error))
    ensures metadata.Ok? && Mmap.New(platform, info, 0, fileLen, os).0.Err? ==>
      r == Err(Mmap.New(platform, info, 0, fileLen, os).0.error)
    ensures metadata.Ok? && platform == Mmap.Unix && fileLen == 0 ==> r == Err(Mmap.InvalidInput)
    ensures metadata.Ok? && Mmap.New(platform, info, 0, fileLen, os).0.Ok? && clone.Err? ==>
      r == Err(Mmap.LastOsError(clone.error))
    ensures r.Ok? <==> metadata.Ok? && Mmap.New(platform, info, 0, fileLen, os).0.Ok? && clone.Ok?
    ensures r.Ok? ==>
      && r.value.mapping == Mmap.New(platform, info, 0, fileLen, os).0.value
      && r.value.view == Mmap.Deref(r.value.mapping, memory)
      && |r.value.view| == fileLen
      && r.value.lines == LineIndex(r.value.view)
  {
    if metadata.Err? {
      return Err(Mmap.LastOsError(metadata.error));
    }
    var (mapped, _) := Mmap.New(platform, info, 0, fileLen, os);
    if mapped.Err? {
      return Err(mapped.error);
    }
    var view := Mmap.Deref(mapped.value, memory);
    var lines := BuildLineIndex(view);
    if clone.Err? {
      return Err(Mmap.LastOsError(clone.error));
    }
    r := Ok(LogMap(mapped.value, view, lines));
  }

  /** The index of a successfully opened log covers exactly the file's bytes. */
  lemma NewLogMapIndexesFile(platform: Mmap.Platform, info: Mmap.SystemInfo, os: Mmap.OsAnswers,
                             memory: nat -> Byte, file: seq<Byte>)
    requires Mmap.SaneSystem(platform, info)
    requires |file| < Mmap.U64_LIMIT
    requires Mmap.New(platform, info, 0, |file|, os).0.Ok?
    requires Mmap.MapsFile(memory, os.view.value, file, 0, |file|)
    ensures Mmap.Deref(Mmap.New(platform, info, 0, |file|, os).0.value, memory) == file
  {
    var g := Mmap.Granularity(platform, info);
    assert Mmap.AlignedOffset(0, g) == 0 && Mmap.AlignedLen(0, |file|, g) == |file|;
    Mmap.DerefIsRequestedRange(platform, info, 0, |file|, os, memory, file);
    assert file[0..|file|] == file;
  }

  /** Concatenates the parts left to right onto `acc`, as the `fold` with `[p, next].concat()` does. */
  function FoldConcat(acc: seq<Range>, parts: seq<seq<Range>>): (joined: seq<Range>)
    ensures |acc| <= |joined| && joined[..|acc|] == acc
    decreases |parts|
  {
    if parts == [] then acc else FoldConcat(acc + parts[0], parts[1..])
  }

  lemma {:induction false} FoldConcatIsFlatten(acc: seq<Range>, parts: seq<seq<Range>>)
    ensures FoldConcat(acc, parts) == acc + Flatten(parts)
    decreases |parts|
  {
    if parts != [] {
      FoldConcatIsFlatten(acc + parts[0], parts[1..]);
    }
  }


  /**
   * A regex builder: given a pattern and the forwarded options, either a
   * compiled regex, seen as the function listing its matches in a haystack in
   * `find_iter` order, or `None` when the pattern does not compile.
   */
  type RegexBuilder = (string, BuilderOptions) -> Option<seq<Byte> -> seq<Range>>


  /** Every range can be sliced out of the mapped bytes; indexing by any other range panics. */
  predicate RangesInside(view: seq<Byte>, ranges: seq<Range>)
  {
    forall i :: 0 <= i < |ranges| ==> Slice(view, ranges[i]).Some?
  }

  /**
   * The matches found in each range's slice, one list per range; `None` when
   * some range cannot be sliced out of `view`, where `self.map[*range]` panics.
   */
  function MatchesPerRange(view: seq<Byte>, ranges: seq<Range>, matches: seq<Byte> -> seq<Range>)
    : (parts: Option<seq<seq<Range>>>)
    ensures parts.Some? <==> forall i :: 0 <= i < |ranges| ==> ranges[i].start <= ranges[i].end <= |view|
    ensures parts.Some? ==> |parts.value| == |ranges|
    ensures parts.Some? ==>
      forall i :: 0 <= i < |ranges| ==> parts.value[i] == matches(view[ranges[i].start..ranges[i].end])
  {
    if RangesInside(view, ranges)
    then Some(seq(|ranges|, i requires 0 <= i < |ranges| => matches(Slice(view, ranges[i]).value)))
    else None
  }

  /**
   * `LogMap::find_in_iter`: builds the regex and collects the matches of every
   * range's slice. `None` stands for its two panics: a pattern that does not
   * compile, and a range that does not fit the mapping.
   */
  function FindInIter(lm: LogMap, ranges: seq<Range>, pattern: string, config: RegexConfig, build: RegexBuilder)
    : (found: Option<seq<Range>>)
    ensures found.Some? <==> build(pattern, Forwarded(config)).Some? && RangesInside(lm.view, ranges)
    ensures found.Some? ==>
      found.value == Flatten(MatchesPerRange(lm.view, ranges, build(pattern, Forwarded(config)).value).value)
  {
    match build(pattern, Forwarded(config))
    case None => None
    case Some(matches) =>
      match MatchesPerRange(lm.view, ranges, matches)
      case None => None
      case Some(parts) =>
        FoldConcatIsFlatten([], parts);
        Some(FoldConcat([], parts))
  }

  /** Results keep input-range order: one more range appends exactly that range's matches. */
  lemma FindInIterAppend(lm: LogMap, ranges: seq<Range>, r: Range, pattern: string, config: RegexConfig, build: RegexBuilder)
    ensures FindInIter(lm, ranges + [r], pattern, config, build).Some?
        <==> FindInIter(lm, ranges, pattern, config, build).Some? && Slice(lm.view, r).Some?
    ensures FindInIter(lm, ranges + [r], pattern, config, build).Some? ==>
      FindInIter(lm, ranges + [r], pattern, config, build).value
        == FindInIter(lm, ranges, pattern, config, build).value
           + build(pattern, Forwarded(config)).value(Slice(lm.view, r).value)
  {
    var all := ranges + [r];
    assert RangesInside(lm.view, all) <==> RangesInside(lm.view, ranges) && Slice(lm.view, r).Some? by {
      assert all[|ranges|] == r;
      assert forall i :: 0 <= i < |ranges| ==> all[i] == ranges[i];
    }
    if FindInIter(lm, all, pattern, config, build).Some? {
      var matches := build(pattern, Forwarded(config)).value;
      var parts := MatchesPerRange(lm.view, ranges, matches).value;
      var last := matches(Slice(lm.view, r).value);
      assert MatchesPerRange(lm.view, all, matches).value == parts + [last];
      FlattenAppend(parts, last);
    }
  }

  /**
   * The results are positions inside each range's own slice, not in the file:
   * with a regex that only reports matches inside its haystack, every result
   * comes from the slice of some range `i`, ends within that range's length,
   * and so, shifted by the range's start, lies inside the range.
   */
  lemma FindInIterRelative(lm: LogMap, ranges: seq<Range>, pattern: string, config: RegexConfig, build: RegexBuilder)
    requires FindInIter(lm, ranges, pattern, config, build).Some?
    requires forall h: seq<Byte>, m :: m in build(pattern, Forwarded(config)).value(h) ==> m.start <= m.end <= |h|
    ensures forall m :: m in FindInIter(lm, ranges, pattern, config, build).value ==>
      exists i :: 0 <= i < |ranges|
        && m in build(pattern, Forwarded(config)).value(Slice(lm.view, ranges[i]).value)
        && m.end <= Len(ranges[i])
        && ranges[i].start + m.end <= ranges[i].end
  {
    var matches := build(pattern, Forwarded(config)).value;
    var parts := MatchesPerRange(lm.view, ranges, matches).value;
    forall m | m in FindInIter(lm, ranges, pattern, config, build).value
      ensures exists i :: (0 <= i < |ranges|
                           && m in matches(Slice(lm.view, ranges[i]).value)
                           && m.end <= Len(ranges[i])
                           && ranges[i].start + m.end <= ranges[i].end)
    {
      FlattenMember(parts, m);
      var i :| 0 <= i < |parts| && m in parts[i];
      assert parts[i] == matches(Slice(lm.view, ranges[i]).value);
      assert |Slice(lm.view, ranges[i]).value| == Len(ranges[i]);
    }
  }

  /** Only the forwarded settings matter: configurations that agree on them find the same ranges. */
  lemma FindInIterIgnoresUnforwarded(lm: LogMap, ranges: seq<Range>, pattern: string, c: RegexConfig, d: RegexConfig, build: RegexBuilder)
    requires Forwarded(c) == Forwarded(d)
    ensures FindInIter(lm, ranges, pattern, c, build) == FindInIter(lm, ranges, pattern, d, build)
  {
  }
}
