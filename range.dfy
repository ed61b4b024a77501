/**
 * The half-open byte interval `[start, end)` used to address slices of a
 * byte buffer without copying. Fields are `usize` in the source, so both
 * endpoints are bounded by USIZE_MAX; a panic is modelled as `None`.
 */
module Ranges {
  import opened Wrappers
  import opened Newlines

  const USIZE_MAX: nat := 0xFFFF_FFFF_FFFF_FFFF

  type Usize = x: int | 0 <= x <= USIZE_MAX

  datatype Range = Range(start: Usize, end: Usize)

  /** The invariant every public way of building a Range keeps. */
  predicate Valid(r: Range)
  {
    r.start <= r.end
  }

  /** `Range::new`: asserts `start <= end` and panics otherwise. */
  function New(start: Usize, end: Usize): (r: Option<Range>)
    ensures r.Some? <==> start <= end
    ensures r.Some? ==> Valid(r.value) && r.value.start == start && r.value.end == end
  {
    if start <= end then Some(Range(start, end)) else None
  }

  /** `Range::zero`: the empty range sitting at `offset`. */
  function Zero(offset: Usize): (r: Range)
    ensures Valid(r) && IsEmpty(r) && Len(r) == 0
    ensures r.start == offset && r.end == offset
  {
    Range(offset, offset)
  }

  /** `Range::offset`: shifts both endpoints by `amount`; `checked_add(..).unwrap()` panics on overflow. */
  function Offset(r: Range, amount: Usize): (o: Option<Range>)
    ensures o.None? <==> r.start + amount > USIZE_MAX || r.end + amount > USIZE_MAX
    ensures o.Some? ==> o.value.start == r.start + amount && o.value.end == r.end + amount
  {
    if r.start + amount <= USIZE_MAX && r.end + amount <= USIZE_MAX then
      Some(Range(r.start + amount, r.end + amount))
    else
      None
  }

  /** `Range::len`: `end - start`, which cannot underflow on a valid range. */
  function Len(r: Range): (n: Usize)
    requires Valid(r)
    ensures r.start + n == r.end
  {
    r.end - r.start
  }

  /** `Range::is_empty`. */
  function IsEmpty(r: Range): (b: bool)
    ensures b ==> Valid(r) && Len(r) == 0
    ensures !b && Valid(r) ==> Len(r) > 0
  {
    r.start == r.end
  }

  /** `Index<Range> for [u8]`: `&bytes[start..end]`, which panics when `end` is past the slice or `start > end`. */
  function Slice(bytes: seq<Byte>, r: Range): (s: Option<seq<Byte>>)
    ensures s.Some? <==> r.start <= r.end <= |bytes|
    ensures s.Some? ==> |s.value| == Len(r)
    ensures s.Some? ==> forall i :: 0 <= i < |s.value| ==> s.value[i] == bytes[r.start + i]
  {
    if r.start <= r.end <= |bytes| then Some(bytes[r.start..r.end]) else None
  }

  /** On a valid range, being empty, having length zero and equal endpoints agree. */
  lemma EmptyIffLenZero(r: Range)
    requires Valid(r)
    ensures IsEmpty(r) <==> Len(r) == 0
    ensures IsEmpty(r) <==> r.start == r.end
  {
  }

  /** A successful shift keeps the invariant and the length. */
  lemma OffsetPreservesLen(r: Range, amount: Usize)
    requires Valid(r)
    requires Offset(r, amount).Some?
    ensures Valid(Offset(r, amount).value)
    ensures Len(Offset(r, amount).value) == Len(r)
    ensures IsEmpty(Offset(r, amount).value) == IsEmpty(r)
  {
  }

  /** Shifting a slice's range by the slice's own base addresses the same bytes in the whole buffer. */
  lemma {:induction false} SliceOfOffset(bytes: seq<Byte>, base: Usize, r: Range)
    requires Valid(r) && base + r.end <= |bytes| && base + r.end <= USIZE_MAX
    ensures Offset(r, base).Some?
    ensures Slice(bytes, Offset(r, base).value).Some?
    ensures Slice(bytes[base..], r).Some?
    ensures Slice(bytes, Offset(r, base).value).value == Slice(bytes[base..], r).value
  {
    var whole, part := Slice(bytes, Offset(r, base).value).value, Slice(bytes[base..], r).value;
    assert |whole| == |part|;
    forall i | 0 <= i < |whole| ensures whole[i] == part[i] {
      assert part[i] == bytes[base..][r.start + i];
    }
  }
}
