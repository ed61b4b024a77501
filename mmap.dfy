/**
 * The read-only memory mapping of a file. The operating-system calls are not
 * modelled; what is modelled is the arithmetic around them: which region is
 * asked of the OS at creation, what pointer and length the mapping keeps, and
 * which region is handed back at release. Both platform backends share this
 * arithmetic; they differ in the granularity they align to and the calls they
 * make.
 */
module Mmap {
  import opened Wrappers
  import opened Newlines

  const U64_LIMIT: nat := 0x1_0000_0000_0000_0000

  type U64 = x: int | 0 <= x < U64_LIMIT

  /** The Win32 `DWORD`. */
  type DWord = bv32

  datatype Platform = Unix | Windows

  /** What the OS reports about itself: `sysconf(_SC_PAGESIZE)` and `GetSystemInfo().dwAllocationGranularity`. */
  datatype SystemInfo = SystemInfo(pageSize: nat, allocationGranularity: nat)

  /** The platform's alignment unit; both `new` and `drop` take it from here. */
  function Granularity(platform: Platform, info: SystemInfo): nat
  {
    match platform
    case Unix => info.pageSize
    case Windows => info.allocationGranularity
  }

  ghost predicate SaneSystem(platform: Platform, info: SystemInfo)
  {
    Granularity(platform, info) > 0
  }

  datatype IoError =
    | InvalidInput        // "memory map must have a non-zero length"
    | LastOsError(code: int)

  /** The calls the mapping makes into the OS, with the arguments that matter. */
  datatype SysCall =
    | MmapCall(length: nat, fileOffset: nat)
    | Munmap(addr: nat, length: nat)
    | CreateFileMapping
    | MapViewOfFile(offsetHigh: DWord, offsetLow: DWord, length: nat)
    | CloseHandle
    | UnmapViewOfFile(addr: nat)

  /**
   * How the OS answers: `mapping` is `CreateFileMappingW` (Windows only),
   * `view` is `mmap` or `MapViewOfFile`, giving the base address of the
   * mapped region or the OS error code.
   */
  datatype OsAnswers = OsAnswers(mapping: Result<(), int>, view: Result<nat, int>)

  /** The stored state: the pointer handed to readers and the caller's length. */
  datatype MemoryMap = MemoryMap(ptr: nat, len: nat)

  lemma MulAtLeast(d: int, g: nat)
    requires d >= 1 && g > 0
    ensures d * g >= g
  {
    assert d * g == (d - 1) * g + g;
  }

  /** Euclidean division is unique: a quotient and remainder that rebuild `x` are `x / g` and `x % g`. */
  lemma DivModUnique(x: nat, q: nat, r: nat, g: nat)
    requires g > 0 && r < g && x == q * g + r
    ensures x % g == r && x / g == q
  {
    var q', r' := x / g, x % g;
    assert q' * g + r' == q * g + r;
    if q' > q {
      assert (q' - q) * g == r - r';
      MulAtLeast(q' - q, g);
    } else if q > q' {
      assert (q - q') * g == r' - r;
      MulAtLeast(q - q', g);
    }
  }

  /** How far `offset` lies past the last alignment boundary. */
  function Alignment(offset: U64, g: nat): (a: nat)
    requires g > 0
    ensures a < g && a <= offset
  {
    offset % g
  }

  /** The boundary at or below `offset` that the OS is asked to map from. */
  function AlignedOffset(offset: U64, g: nat): (o: U64)
    requires g > 0
    ensures o <= offset && offset - o < g
    ensures o % g == 0
  {
    DivModUnique(offset - offset % g, offset / g, 0, g);
    offset - Alignment(offset, g)
  }

  /** The length of the padded region, which reaches back to the aligned offset. */
  function AlignedLen(offset: U64, len: nat, g: nat): (n: nat)
    requires g > 0
    ensures AlignedOffset(offset, g) + n == offset + len
    ensures n == 0 <==> offset % g == 0 && len == 0
  {
    len + Alignment(offset, g)
  }

  /** The padded region starts no later and ends exactly where the requested one does. */
  lemma PaddedRegionCovers(offset: U64, len: nat, g: nat)
    requires g > 0
    ensures AlignedOffset(offset, g) <= offset
    ensures AlignedOffset(offset, g) + AlignedLen(offset, len, g) == offset + len
    ensures AlignedLen(offset, len, g) >= len
  {
  }

  /** `(aligned_offset >> 16 >> 16) as DWORD` and `(aligned_offset & 0xffffffff) as DWORD`. */
  function SplitOffset(b: bv64): (r: (DWord, DWord))
  {
    ((b >> 16 >> 16) as DWord, (b & 0xffff_ffff) as DWord)
  }

  /** The `u64` value as the bits the Win32 call is built from. */
  function Bits(x: U64): bv64
  {
    x as bv64
  }

  /** The 64-bit offset that a high and a low DWORD stand for. */
  function Join(high: DWord, low: DWord): bv64
  {
    ((high as bv64) << 32) | (low as bv64)
  }

  /** The two DWORDs handed to `MapViewOfFile` put back together give the 64-bit offset. */
  lemma SplitOffsetRoundTrip(b: bv64)
    ensures Join(SplitOffset(b).0, SplitOffset(b).1) == b
  {
  }

  /**
   * `MemoryMap::new(file, offset, len)` on either platform: the mapping it
   * returns and the OS calls it makes, in order.
   */
  function New(platform: Platform, info: SystemInfo, offset: U64, len: nat, os: OsAnswers)
    : (r: (Result<MemoryMap, IoError>, seq<SysCall>))
    requires SaneSystem(platform, info)
    ensures r.0.Ok? ==> os.view.Ok? && r.0.value.len == len
    ensures r.0.Ok? ==> r.0.value.ptr - os.view.value == Alignment(offset, Granularity(platform, info))
    ensures r.0 == Err(InvalidInput) <==> platform == Unix && AlignedLen(offset, len, Granularity(platform, info)) == 0
    ensures r.0 == Err(InvalidInput) ==> r.1 == []
    ensures platform == Windows && |r.1| > 1 ==> r.1[|r.1| - 1] == CloseHandle
  {
    var g := Granularity(platform, info);
    var alignment := Alignment(offset, g);
    var alignedOffset := AlignedOffset(offset, g);
    var alignedLen := AlignedLen(offset, len, g);
    match platform
    case Unix =>
      if alignedLen == 0 then (Err(InvalidInput), [])
      else
        var calls := [MmapCall(alignedLen, alignedOffset)];
        (match os.view
         case Err(code) => (Err(LastOsError(code)), calls)
         case Ok(base) => (Ok(MemoryMap(base + alignment, len)), calls))
    case Windows =>
      match os.mapping
      case Err(code) => (Err(LastOsError(code)), [CreateFileMapping])
      case Ok(_) =>
        var (high, low) := SplitOffset(Bits(alignedOffset));
        var calls := [CreateFileMapping, MapViewOfFile(high, low, alignedLen), CloseHandle];
        match os.view
        case Err(code) => (Err(LastOsError(code)), calls)
        case Ok(base) => (Ok(MemoryMap(base + alignment, len)), calls)
  }

  /** The Unix backend: a zero padded length is refused before any call, otherwise one `mmap` of the padded region. */
  lemma NewUnix(info: SystemInfo, offset: U64, len: nat, os: OsAnswers)
    requires SaneSystem(Unix, info)
    ensures var g := Granularity(Unix, info);
      var (r, calls) := New(Unix, info, offset, len, os);
      && (AlignedLen(offset, len, g) == 0 ==> r == Err(InvalidInput) && calls == [])
      && (AlignedLen(offset, len, g) != 0 ==> calls == [MmapCall(AlignedLen(offset, len, g), AlignedOffset(offset, g))])
      && (AlignedLen(offset, len, g) != 0 && os.view.Err? ==> r == Err(LastOsError(os.view.error)))
      && (AlignedLen(offset, len, g) != 0 && os.view.Ok? ==>
            r == Ok(MemoryMap(os.view.value + Alignment(offset, g), len)))
  {
  }

  /** The Windows backend: the handle from `CreateFileMappingW` is closed whether or not the view is mapped. */
  lemma NewWindows(info: SystemInfo, offset: U64, len: nat, os: OsAnswers)
    requires SaneSystem(Windows, info)
    ensures var g := Granularity(Windows, info);
      var (r, calls) := New(Windows, info, offset, len, os);
      && (os.mapping.Err? ==> r == Err(LastOsError(os.mapping.error)) && calls == [CreateFileMapping])
      && (os.mapping.Ok? ==> |calls| == 3 && calls[0] == CreateFileMapping && calls[2] == CloseHandle)
      && (os.mapping.Ok? ==> calls[1].MapViewOfFile? && calls[1].length == AlignedLen(offset, len, g))
      && (os.mapping.Ok? && os.view.Err? ==> r == Err(LastOsError(os.view.error)))
      && (os.mapping.Ok? && os.view.Ok? ==> r == Ok(MemoryMap(os.view.value + Alignment(offset, g), len)))
  {
  }

  /** The high and low DWORDs `MapViewOfFile` receives denote exactly the aligned offset. */
  lemma NewWindowsOffset(info: SystemInfo, offset: U64, len: nat, os: OsAnswers)
    requires SaneSystem(Windows, info)
    requires os.mapping.Ok?
    ensures var c := New(Windows, info, offset, len, os).1[1];
      && c.MapViewOfFile?
      && Join(c.offsetHigh, c.offsetLow) == Bits(AlignedOffset(offset, Granularity(Windows, info)))
  {
    SplitOffsetRoundTrip(Bits(AlignedOffset(offset, Granularity(Windows, info))));
  }

  /** `Drop for MemoryMap`: recovers the alignment from the stored pointer and releases from there. */
  function Drop(platform: Platform, info: SystemInfo, m: MemoryMap): (call: SysCall)
    requires SaneSystem(platform, info)
    ensures call.Munmap? <==> platform == Unix
    ensures call.UnmapViewOfFile? <==> platform == Windows
    ensures call.addr % Granularity(platform, info) == 0
    ensures call.addr <= m.ptr < call.addr + Granularity(platform, info)
    ensures call.Munmap? ==> call.addr + call.length == m.ptr + m.len
  {
    var g := Granularity(platform, info);
    var alignment := m.ptr % g;
    DivModUnique(m.ptr - alignment, m.ptr / g, 0, g);
    match platform
    case Unix => Munmap(m.ptr - alignment, m.len + alignment)
    case Windows => UnmapViewOfFile(m.ptr - alignment)
  }

  /** An aligned base plus a smaller-than-granularity delta gives that delta back as the remainder. */
  lemma {:induction false} AlignedRemainder(base: nat, alignment: nat, g: nat)
    requires g > 0 && base % g == 0 && alignment < g
    ensures (base + alignment) % g == alignment
  {
    DivModUnique(base, base / g, 0, g);
    DivModUnique(base + alignment, base / g, alignment, g);
  }

  /**
   * Release targets exactly what creation mapped: when the OS hands back a
   * base aligned to the granularity, `drop` unmaps at that base and, on Unix,
   * with the padded length that was passed to `mmap`.
   */
  lemma DropReleasesMappedRegion(platform: Platform, info: SystemInfo, offset: U64, len: nat, os: OsAnswers)
    requires SaneSystem(platform, info)
    requires os.view.Ok? && os.view.value % Granularity(platform, info) == 0
    requires New(platform, info, offset, len, os).0.Ok?
    ensures var g := Granularity(platform, info);
      var m := New(platform, info, offset, len, os).0.value;
      match platform
      case Unix =>
        && New(platform, info, offset, len, os).1 == [MmapCall(AlignedLen(offset, len, g), AlignedOffset(offset, g))]
        && Drop(platform, info, m) == Munmap(os.view.value, AlignedLen(offset, len, g))
      case Windows =>
        Drop(platform, info, m) == UnmapViewOfFile(os.view.value)
  {
    var g := Granularity(platform, info);
    AlignedRemainder(os.view.value, Alignment(offset, g), g);
  }

  /** The OS maps file bytes `[alignedOffset, alignedOffset + alignedLen)` at addresses `[base, base + alignedLen)`. */
  ghost predicate MapsFile(memory: nat -> Byte, base: nat, file: seq<Byte>, alignedOffset: nat, alignedLen: nat)
  {
    && alignedOffset + alignedLen <= |file|
    && forall addr :: base <= addr < base + alignedLen ==> memory(addr) == file[alignedOffset + (addr - base)]
  }

  /** `Deref for MemoryMap`: the `len` bytes starting at the stored pointer. */
  function Deref(m: MemoryMap, memory: nat -> Byte): (view: seq<Byte>)
    ensures |view| == m.len
    ensures forall i :: 0 <= i < m.len ==> view[i] == memory(m.ptr + i)
  {
    seq(m.len, i requires 0 <= i < m.len => memory(m.ptr + i))
  }

  /** `MemoryMap::len`: the caller's length, never the padded one. */
  function Len(m: MemoryMap): (n: nat)
    ensures forall memory :: |Deref(m, memory)| == n
  {
    m.len
  }

  /** A successful mapping shows exactly the requested bytes `[offset, offset + len)` of the file. */
  lemma DerefIsRequestedRange(platform: Platform, info: SystemInfo, offset: U64, len: nat, os: OsAnswers,
                              memory: nat -> Byte, file: seq<Byte>)
    requires SaneSystem(platform, info)
    requires New(platform, info, offset, len, os).0.Ok?
    requires var g := Granularity(platform, info);
      MapsFile(memory, os.view.value, file, AlignedOffset(offset, g), AlignedLen(offset, len, g))
    ensures offset + len <= |file|
    ensures Deref(New(platform, info, offset, len, os).0.value, memory) == file[offset..offset + len]
  {
    var g := Granularity(platform, info);
    var m := New(platform, info, offset, len, os).0.value;
    var view := Deref(m, memory);
    var a := Alignment(offset, g);
    forall i | 0 <= i < len ensures view[i] == file[offset..offset + len][i] {
      var addr := m.ptr + i;
      assert addr == os.view.value + (a + i);
      assert memory(addr) == file[AlignedOffset(offset, g) + (a + i)];
    }
  }
}
