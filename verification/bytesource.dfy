/**
 * The database as a byte source: `IDBSegment` (one segment, its bytes either
 * cached or read on demand) and `IDBBufHandler` (the list of segments, the
 * lookup of the segment holding an address, and the slice of bytes that
 * feeds a frame).
 */
module ByteSource {
  import opened Common

  /**
   * `get_many_bytes(ea, size)`: the database read, an input of the model.
   * It answers `None` when the bytes cannot be read.
   */
  type Reader = (int, int) -> Option<seq<byte>>

  /** Segments at most this large are read once and cached (`threshold` default). */
  const LazyThreshold: int := 1024 * 1024 * 4

  /**
   * One segment: where it starts, how many bytes it claims, the cached bytes
   * (`self.buf`) and whether it reads on demand instead (`dolazyload`).
   */
  datatype Segment = Segment(base: int, size: int, buf: Option<seq<byte>>, lazy: bool)

  /** Python truth value of an optional byte string: present and not empty. */
  predicate Truthy(b: Option<seq<byte>>)
  {
    b.Some? && |b.value| > 0
  }

  /** Python's clamping of one slice bound against a sequence of length `n`. */
  function SliceBound(i: int, n: nat): (r: nat)
    ensures r <= n
    ensures 0 <= i ==> r == if i < n then i else n
  {
    if i < 0 then (if i + n < 0 then 0 else i + n)
    else if i < n then i else n
  }

  /** Python's `s[start:stop]` with a step of one. */
  function PySlice<T>(s: seq<T>, start: int, stop: int): (r: seq<T>)
    ensures |r| <= |s|
    ensures 0 <= start && 0 <= stop ==> |r| <= if stop - start < 0 then 0 else stop - start
    ensures 0 <= start <= stop ==> r == s[SliceBound(start, |s|)..SliceBound(stop, |s|)]
  {
    var a, b := SliceBound(start, |s|), SliceBound(stop, |s|);
    if a < b then s[a..b] else []
  }

  /**
   * `IDBSegment._init_seg`: the segment starts at `startEA`; its size is the
   * loaded chunk's size, shortened by how far the segment starts into the
   * chunk and capped at the segment's own extent.  Small non-empty segments
   * are read at once; every other one reads lazily.
   */
  function InitSegment(startEA: int, endEA: int, chunkStart: int, chunkSize: int,
                       threshold: int, read: Reader): (s: Segment)
    ensures s.base == startEA
    ensures s.size <= endEA - startEA
    ensures startEA >= chunkStart ==> s.base + s.size <= chunkStart + chunkSize
    ensures s.lazy <==> !(s.size != 0 && s.size <= threshold)
    ensures s.lazy ==> s.buf == None
    ensures !s.lazy ==> s.buf == read(startEA, s.size)
  {
    var size0 := if startEA > chunkStart then chunkSize - (startEA - chunkStart) else chunkSize;
    var size := if size0 < endEA - startEA then size0 else endEA - startEA;
    if size != 0 && size <= threshold then
      Segment(startEA, size, read(startEA, size), false)
    else
      Segment(startEA, size, None, true)
  }

  /**
   * `ea in seg`: the address lies in the segment, and the segment is in a
   * usable state (bytes cached and not lazy, or lazy with nothing cached).
   */
  predicate Contains(seg: Segment, ea: int)
  {
    ((Truthy(seg.buf) && !seg.lazy) || (!Truthy(seg.buf) && seg.lazy))
    && seg.base <= ea < seg.base + seg.size
  }

  /**
   * `seg[start:stop]`: a lazy segment reads `stop` bytes from its base and
   * slices them; a cached one slices its cache.  A failed read or a missing
   * cache gives the empty string.
   */
  function Slice(seg: Segment, start: int, stop: int, read: Reader): (r: seq<byte>)
    ensures 0 <= start && 0 <= stop ==> |r| <= if stop - start < 0 then 0 else stop - start
    ensures !seg.lazy && seg.buf.Some? && 0 <= start <= stop ==>
      r == seg.buf.value[SliceBound(start, |seg.buf.value|)..SliceBound(stop, |seg.buf.value|)]
    ensures !seg.lazy && seg.buf.None? ==> r == []
  {
    if seg.lazy then
      var b := read(seg.base, stop);
      if Truthy(b) then PySlice(b.value, start, stop) else []
    else if seg.buf.Some? then
      PySlice(seg.buf.value, start, stop)
    else
      []
  }

  /** Index of the first segment containing `ea`, as the `for ... break` loops find it. */
  function FirstContaining(segs: seq<Segment>, ea: int): (r: Option<nat>)
    ensures r.Some? ==> r.value < |segs| && Contains(segs[r.value], ea)
    ensures r.Some? ==> forall j | 0 <= j < r.value :: !Contains(segs[j], ea)
    ensures r.None? ==> forall j | 0 <= j < |segs| :: !Contains(segs[j], ea)
  {
    if segs == [] then None
    else if Contains(segs[0], ea) then Some(0)
    else
      match FirstContaining(segs[1..], ea)
      case None => None
      case Some(i) => Some(i + 1)
  }

  /** Segment `i` is the first in list order that holds `ea`. */
  predicate FirstHolder(segs: seq<Segment>, ea: int, i: int)
  {
    0 <= i < |segs| && Contains(segs[i], ea) && forall j | 0 <= j < i :: !Contains(segs[j], ea)
  }

  /** `IDBBufHandler.get_base`: the base of the first segment holding `ea`, else BADADDR. */
  function GetBase(segs: seq<Segment>, ea: int): (base: int)
    ensures (forall j | 0 <= j < |segs| :: !Contains(segs[j], ea)) ==> base == BADADDR
    ensures forall i | FirstHolder(segs, ea, i) :: base == segs[i].base
  {
    match FirstContaining(segs, ea)
    case None => BADADDR
    case Some(i) => segs[i].base
  }

  /** Number of bytes `get_buf` asks the segment for: `count` when positive and smaller. */
  function Wanted(seg: Segment, count: int): int
  {
    if count > 0 && count < seg.size then count else seg.size
  }

  /**
   * `IDBBufHandler.get_buf(ea, count)`: the bytes from `ea` onwards taken
   * from the first segment holding `ea`, at most `count` of them when
   * `count` is positive; the empty string when no segment holds `ea`.
   */
  function GetBuf(segs: seq<Segment>, ea: int, count: int, read: Reader): (r: seq<byte>)
    ensures (forall j | 0 <= j < |segs| :: !Contains(segs[j], ea)) ==> r == []
    ensures count > 0 ==> |r| <= count
    ensures forall i | FirstHolder(segs, ea, i) :: |r| <= segs[i].size
    ensures forall i | FirstHolder(segs, ea, i) && !segs[i].lazy ::
              var cache := segs[i].buf.value;
              var offs := ea - segs[i].base;
              && |r| == (if offs + Wanted(segs[i], count) < |cache| then offs + Wanted(segs[i], count) else |cache|)
                        - (if offs < |cache| then offs else |cache|)
              && forall k | 0 <= k < |r| :: r[k] == cache[offs + k]
  {
    FirstHolderIs(segs, ea);
    match FirstContaining(segs, ea)
    case None => []
    case Some(i) =>
      var seg := segs[i];
      var offs := ea - seg.base;
      var stop := offs + Wanted(seg, count);
      CachedSlice(seg, offs, stop, read);
      Slice(seg, offs, stop, read)
  }

  /** The first holder of an address is unique, and it is the one the lookup finds. */
  lemma FirstHolderIs(segs: seq<Segment>, ea: int)
    ensures forall i | FirstHolder(segs, ea, i) :: FirstContaining(segs, ea) == Some(i)
    ensures FirstContaining(segs, ea).None? ==> forall j | 0 <= j < |segs| :: !Contains(segs[j], ea)
  {
    forall i | FirstHolder(segs, ea, i)
      ensures FirstContaining(segs, ea) == Some(i)
    {
      assert Contains(segs[i], ea);
    }
  }

  /** Slicing a cached segment from `offs` to `stop`: the cache's bytes in that window, clamped to its end. */
  lemma CachedSlice(seg: Segment, offs: int, stop: int, read: Reader)
    ensures !seg.lazy && seg.buf.Some? && 0 <= offs <= stop ==>
              var cache, r := seg.buf.value, Slice(seg, offs, stop, read);
              && |r| == (if stop < |cache| then stop else |cache|) - (if offs < |cache| then offs else |cache|)
              && forall k | 0 <= k < |r| :: r[k] == cache[offs + k]
  {
  }
}
