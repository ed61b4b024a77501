/**
 * The newline split loop of the command-line tool, which cuts the mapped
 * file into line segments. As written it starts each segment after the
 * first at the previous newline itself, and never pushes the bytes after
 * the last newline.
 */
module LineSplit {
  import opened Newlines
  import opened Seqs

  /** Where segment `k` starts: 0 for the first, else the previous cut, since `index = i`. */
  function SegmentStart(ps: seq<nat>, k: nat): nat
    requires k < |ps|
  {
    if k == 0 then 0 else ps[k - 1]
  }

  /** Non-decreasing offsets inside `chunk`, so that consecutive ones delimit slices. */
  ghost predicate Cuts(chunk: seq<Byte>, ps: seq<nat>)
  {
    && (forall k :: 0 <= k < |ps| ==> ps[k] < |chunk|)
    && (forall k, l :: 0 <= k < l < |ps| ==> ps[k] <= ps[l])
  }

  /** The segments between consecutive cuts, the first one starting at 0. */
  function Cut(chunk: seq<Byte>, ps: seq<nat>): (segments: seq<seq<Byte>>)
    requires Cuts(chunk, ps)
    ensures |segments| == |ps|
    decreases |ps|
  {
    if ps == [] then []
    else
      var n := |ps|;
      assert Cuts(chunk, ps[..n - 1]);
      Cut(chunk, ps[..n - 1]) + [chunk[SegmentStart(ps, n - 1)..ps[n - 1]]]
  }

  /** Segment `k` runs from the previous cut (or 0) to cut `k`. */
  lemma {:induction false} CutAt(chunk: seq<Byte>, ps: seq<nat>, k: nat)
    requires Cuts(chunk, ps) && k < |ps|
    ensures Cut(chunk, ps)[k] == chunk[SegmentStart(ps, k)..ps[k]]
    decreases |ps|
  {
    var n := |ps|;
    if k < n - 1 {
      assert Cuts(chunk, ps[..n - 1]);
      CutAt(chunk, ps[..n - 1], k);
    }
  }

  lemma PrefixNewlinesAreCuts(chunk: seq<Byte>, i: nat)
    requires i <= |chunk|
    ensures Cuts(chunk, NewlinePositions(chunk[..i]))
  {
    NewlinePositionsCorrect(chunk[..i]);
  }

  /** The segments the split loop produces from a whole chunk. */
  function Segments(chunk: seq<Byte>): seq<seq<Byte>>
  {
    PrefixNewlinesAreCuts(chunk, |chunk|);
    assert chunk[..|chunk|] == chunk;
    Cut(chunk, NewlinePositions(chunk))
  }

  /** Unfolds `Segments` to the cut at every newline offset. */
  lemma SegmentsAreCuts(chunk: seq<Byte>)
    ensures Cuts(chunk, NewlinePositions(chunk))
    ensures Segments(chunk) == Cut(chunk, NewlinePositions(chunk))
  {
    PrefixNewlinesAreCuts(chunk, |chunk|);
    assert chunk[..|chunk|] == chunk;
  }

  /** One segment is pushed per newline byte. */
  lemma SegmentCount(chunk: seq<Byte>)
    ensures |Segments(chunk)| == multiset(chunk)[NEWLINE]
  {
    SegmentsAreCuts(chunk);
    NewlineCount(chunk);
  }

  /** Between newline `k - 1` (or the start) and newline `k` there is none. */
  lemma NoNewlineBefore(chunk: seq<Byte>, k: nat, p: nat)
    requires k < |NewlinePositions(chunk)|
    requires p < NewlinePositions(chunk)[k]
    requires k > 0 ==> NewlinePositions(chunk)[k - 1] < p
    ensures p < |chunk| && chunk[p] != NEWLINE
  {
    var ps := NewlinePositions(chunk);
    NewlinePositionsCorrect(chunk);
    forall m | 0 <= m < |ps| ensures ps[m] != p {
      if m < k {
        assert ps[m] <= ps[k - 1];
      } else if m > k {
        assert ps[k] < ps[m];
      }
    }
    assert chunk[p] == NEWLINE ==> p in ps;
  }

  /**
   * Because `index` is set to the newline itself, every segment after the
   * first starts with that newline and holds no other; the first holds none.
   */
  lemma SegmentShape(chunk: seq<Byte>, k: nat)
    requires k < |Segments(chunk)|
    ensures k == 0 ==> NEWLINE !in Segments(chunk)[k]
    ensures k > 0 ==> |Segments(chunk)[k]| > 0 && Segments(chunk)[k][0] == NEWLINE
    ensures forall j :: 0 < j < |Segments(chunk)[k]| ==> Segments(chunk)[k][j] != NEWLINE
  {
    var ps := NewlinePositions(chunk);
    SegmentsAreCuts(chunk);
    CutAt(chunk, ps, k);
    var lo := SegmentStart(ps, k);
    var seg := Segments(chunk)[k];
    assert seg == chunk[lo..ps[k]];
    forall j | 0 <= j < |seg| && (k == 0 || j > 0)
      ensures seg[j] != NEWLINE
    {
      NoNewlineBefore(chunk, k, lo + j);
    }
    if k > 0 {
      NewlinePositionsCorrect(chunk);
      assert ps[k - 1] < ps[k];
    }
  }

  /** The segments of the cuts, joined again, are the chunk up to the last cut. */
  lemma {:induction false} CutJoin(chunk: seq<Byte>, ps: seq<nat>)
    requires Cuts(chunk, ps) && |ps| > 0
    ensures Flatten(Cut(chunk, ps)) == chunk[..ps[|ps| - 1]]
    decreases |ps|
  {
    var n := |ps|;
    var init := ps[..n - 1];
    assert Cuts(chunk, init);
    var segments := Cut(chunk, ps);
    assert segments == Cut(chunk, init) + [segments[n - 1]];
    FlattenAppend(Cut(chunk, init), segments[n - 1]);
    if n > 1 {
      CutJoin(chunk, init);
      assert chunk[..ps[n - 2]] + chunk[ps[n - 2]..ps[n - 1]] == chunk[..ps[n - 1]];
    }
  }

  /**
   * Joined again, the segments give the chunk up to (not including) its last
   * newline: the bytes from the last newline on are never pushed, and a
   * chunk without a newline yields no segment at all.
   */
  lemma SegmentsJoin(chunk: seq<Byte>)
    ensures NEWLINE !in chunk <==> Segments(chunk) == []
    ensures Segments(chunk) != [] ==>
      var n := |Flatten(Segments(chunk))|;
      && n < |chunk|
      && Flatten(Segments(chunk)) == chunk[..n]
      && chunk[n] == NEWLINE
      && (forall j :: n < j < |chunk| ==> chunk[j] != NEWLINE)
  {
    var ps := NewlinePositions(chunk);
    SegmentsAreCuts(chunk);
    NewlinePositionsCorrect(chunk);
    if NEWLINE in chunk {
      var i :| 0 <= i < |chunk| && chunk[i] == NEWLINE;
      assert i in ps;
    }
    if ps != [] {
      CutJoin(chunk, ps);
      var last := ps[|ps| - 1];
      assert chunk[last] in chunk;
      forall j | last < j < |chunk| ensures chunk[j] != NEWLINE {
        assert chunk[j] == NEWLINE ==> j in ps;
      }
    }
  }

  /** What the split loop has built after looking at the first `i` bytes. */
  ghost predicate SplitState(chunk: seq<Byte>, i: nat, index: nat, lines: seq<seq<Byte>>)
  {
    && i <= |chunk|
    && Cuts(chunk, NewlinePositions(chunk[..i]))
    && lines == Cut(chunk, NewlinePositions(chunk[..i]))
    && index == (if lines == [] then 0 else NewlinePositions(chunk[..i])[|lines| - 1])
  }

  /** Looking at a newline byte `i`: push `chunk[index..i]` and move `index` to it. */
  lemma SplitAtNewline(chunk: seq<Byte>, i: nat, index: nat, lines: seq<seq<Byte>>)
    requires i < |chunk| && SplitState(chunk, i, index, lines) && chunk[i] == NEWLINE
    ensures index <= i && SplitState(chunk, i + 1, i, lines + [chunk[index..i]])
  {
    var ps := NewlinePositions(chunk[..i]);
    NewlinePositionsStep(chunk, i);
    PrefixNewlinesAreCuts(chunk, i + 1);
    assert NewlinePositions(chunk[..i + 1]) == ps + [i];
    assert Cuts(chunk, ps + [i]);
    if ps != [] {
      assert (ps + [i])[|ps| - 1] <= (ps + [i])[|ps|];
    }
    assert index <= i;
    assert (ps + [i])[..|ps|] == ps;
    assert SegmentStart(ps + [i], |ps|) == index;
    assert Cut(chunk, ps + [i]) == Cut(chunk, ps) + [chunk[index..i]];
  }

  /** Looking at any other byte changes nothing. */
  lemma SplitAtOther(chunk: seq<Byte>, i: nat, index: nat, lines: seq<seq<Byte>>)
    requires i < |chunk| && SplitState(chunk, i, index, lines) && chunk[i] != NEWLINE
    ensures SplitState(chunk, i + 1, index, lines)
  {
    NewlinePositionsStep(chunk, i);
    var ps := NewlinePositions(chunk[..i]);
    assert ps + [] == ps;
    assert NewlinePositions(chunk[..i + 1]) == ps;
  }

  /** The newline split loop in `main`: push `chunk[index..i]` at every newline `i`, then set `index = i`. */
  method SplitLines(chunk: seq<Byte>) returns (lines: seq<seq<Byte>>)
    ensures lines == Segments(chunk)
  {
    lines := [];
    var index: nat := 0;
    PrefixNewlinesAreCuts(chunk, 0);
    for i := 0 to |chunk|
      invariant SplitState(chunk, i, index, lines)
    {
      if chunk[i] == NEWLINE {
        SplitAtNewline(chunk, i, index, lines);
        lines := lines + [chunk[index..i]];
        index := i;
      } else {
        SplitAtOther(chunk, i, index, lines);
      }
    }
    assert chunk[..|chunk|] == chunk;
  }
}
