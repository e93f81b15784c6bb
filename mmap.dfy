/**
 * Shared read-only views into a memory-mapped file: a window of `filesize`
 * bytes at `offset`, narrowed by `range`, and weak handles to it.
 */
module MappedFiles {
  import opened Wrappers
  import opened Ints
  import StorageKeys

  type ByteRange = StorageKeys.ByteRange

  /** The mapped contents of a file; a mapping fits the address space. */
  datatype Source = Source(map_data: seq<u8>) {
    predicate Valid() { |map_data| < TWO_64 }
  }

  datatype MapRef = MapRef(source: Source, offset: usize, filesize: usize) {
    /** The window lies within the mapping. */
    predicate Valid() { source.Valid() && offset + filesize <= |source.map_data| }

    function Len(): usize { filesize }

    function SourceOffset(): usize { offset }

    /** `deref`: the bytes of the window. */
    function Bytes(): (b: seq<u8>)
      requires Valid()
      ensures |b| == Len()
      ensures forall i :: 0 <= i < |b| ==> b[i] == source.map_data[SourceOffset() + i]
    {
      source.map_data[offset..offset + filesize]
    }

    /**
     * The sub-window `r` of this window. Only the end is checked; a start
     * past the end makes the length subtraction overflow, which panics.
     */
    function Range(r: ByteRange): (m: Result<MapRef, ()>)
      requires Valid()
      requires r.end <= filesize ==> r.start <= r.end
      ensures m.Ok? <==> r.end <= Len()
      ensures m.Ok? ==> m.value.Valid() && m.value.source == source
      ensures m.Ok? ==> m.value.SourceOffset() == SourceOffset() + r.start && m.value.Len() == r.end - r.start
      ensures m.Err? ==> m == Err(())
    {
      if r.end <= filesize then Ok(MapRef(source, offset + r.start, r.end - r.start)) else Err(())
    }

    /** A handle that does not keep the mapping alive. */
    function Downgrade(): (w: WeakMapRef)
      ensures w.source == source && w.offset == SourceOffset() && w.filesize == Len()
    {
      WeakMapRef(source, offset, filesize)
    }
  }

  /**
   * A weak handle; `upgrade` succeeds while some strong handle still holds
   * the mapping, which the caller states as `alive`.
   */
  datatype WeakMapRef = WeakMapRef(source: Source, offset: usize, filesize: usize) {
    function Upgrade(alive: bool): (m: Option<MapRef>)
      ensures m.Some? <==> alive
      ensures m.Some? ==> m.value.source == source && m.value.SourceOffset() == offset && m.value.Len() == filesize
    {
      if alive then Some(MapRef(source, offset, filesize)) else None
    }
  }

  /** `open`: the whole mapping of a file with the given contents, at offset 0. */
  function Open(contents: seq<u8>): (m: MapRef)
    requires |contents| < TWO_64
    ensures m.Valid() && m.SourceOffset() == 0 && m.Len() == |contents|
    ensures m.Bytes() == contents
  {
    MapRef(Source(contents), 0, |contents|)
  }

  /** The bytes of a sub-window are that slice of the window's bytes. */
  lemma RangeBytes(m: MapRef, r: ByteRange)
    requires m.Valid() && r.start <= r.end <= m.Len()
    ensures m.Range(r).Ok? && m.Range(r).value.Bytes() == m.Bytes()[r.start..r.end]
  {
    var sub := m.Range(r).value;
    assert forall i :: 0 <= i < r.end - r.start ==> sub.Bytes()[i] == m.Bytes()[r.start + i];
  }

  /** A sub-window of a sub-window is the sub-window at the summed start. */
  lemma RangeOfRange(m: MapRef, a: ByteRange, b: ByteRange)
    requires m.Valid() && a.start <= a.end <= m.Len() && b.start <= b.end <= a.end - a.start
    ensures StorageKeys.ShiftFits(b, a.start)
    ensures m.Range(a).value.Range(b) == m.Range(StorageKeys.Shift(b, a.start))
  {
  }

  /** While the mapping is alive, a weak handle gives back the same view. */
  lemma DowngradeUpgrade(m: MapRef)
    ensures m.Downgrade().Upgrade(true) == Some(m)
    ensures m.Downgrade().Upgrade(false) == None
  {
  }
}
