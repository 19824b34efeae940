/** The objects the chunk encoder drives but does not own the logic of: the
    output stream it writes to, and the LZ window, LZMA encoder and range
    encoder that produce each coding unit. Only their interfaces matter
    here; what they do inside is chosen freely within their contracts. */
module Collaborators {
  import opened Lzma2Format

  /** An I/O failure of the output stream, tagged with how many bytes the
      stream held when it failed. */
  datatype IoFault = IoFault(position: nat)

  /** The result of an operation that either completes or throws an IOException. */
  datatype Status = Done | Failed(fault: IoFault)

  /** A failed write passed on some prefix of `b`, possibly none of it. */
  predicate WrotePrefix(before: seq<Byte>, after: seq<Byte>, b: seq<Byte>)
  {
    exists k :: 0 <= k <= |b| && after == before + b[..k]
  }

  /** Appending a slice that stops at `mid` appends a prefix of the slice
      that stops at `hi`. */
  lemma SlicePrefix(a: seq<Byte>, s: seq<Byte>, lo: int, mid: int, hi: int)
    requires 0 <= lo <= mid <= hi <= |s|
    ensures WrotePrefix(a, a + s[lo..mid], s[lo..hi])
  {
    assert s[lo..hi][..mid - lo] == s[lo..mid];
  }

  /** The underlying output stream. Any operation may fail; a failing write
      may have passed on any prefix of its bytes. flush, finish and close are
      only counted. */
  class Sink {
    var bytes: seq<Byte>
    var flushes: nat
    var finishes: nat
    var closes: nat

    constructor (initial: seq<Byte>)
      ensures bytes == initial && flushes == 0 && finishes == 0 && closes == 0
    {
      bytes, flushes, finishes, closes := initial, 0, 0, 0;
    }

    method Write(b: seq<Byte>) returns (st: Status)
      modifies this
      ensures st.Done? ==> bytes == old(bytes) + b
      ensures st.Failed? ==> WrotePrefix(old(bytes), bytes, b)
      ensures flushes == old(flushes) && finishes == old(finishes) && closes == old(closes)
    {
      var ok: bool :| true;
      if ok {
        bytes := bytes + b;
        st := Done;
      } else {
        var k :| 0 <= k <= |b|;
        bytes := bytes + b[..k];
        st := Failed(IoFault(|bytes|));
      }
    }

    method Flush() returns (st: Status)
      modifies this
      ensures bytes == old(bytes) && flushes == old(flushes) + 1
      ensures finishes == old(finishes) && closes == old(closes)
    {
      flushes := flushes + 1;
      var ok: bool :| true;
      st := if ok then Done else Failed(IoFault(|bytes|));
    }

    method Finish() returns (st: Status)
      modifies this
      ensures bytes == old(bytes) && finishes == old(finishes) + 1
      ensures flushes == old(flushes) && closes == old(closes)
    {
      finishes := finishes + 1;
      var ok: bool :| true;
      st := if ok then Done else Failed(IoFault(|bytes|));
    }

    method Close() returns (st: Status)
      modifies this
      ensures bytes == old(bytes) && closes == old(closes) + 1
      ensures flushes == old(flushes) && finishes == old(finishes)
    {
      closes := closes + 1;
      var ok: bool :| true;
      st := if ok then Done else Failed(IoFault(|bytes|));
    }
  }

  /** How the LZ window is being drained: normally, towards a flush point,
      or towards the end of the stream. */
  datatype Mode = Normal | Flushing | Finishing

  /** The LZ window, the LZMA encoder and the range encoder, as the chunk
      encoder sees them. `pending` holds the bytes taken by fillWindow that
      no chunk has covered yet; the current coding unit is its first
      `unitSize` bytes (getUncompressedSize), and `coded` is the range
      encoder's buffer. */
  class Coder {
    const capacity: int
    var pending: seq<Byte>
    var unitSize: int
    var coded: seq<Byte>
    var mode: Mode
    var resets: nat

    ghost predicate Valid()
      reads this
    {
      1 <= capacity && 0 <= unitSize <= |pending| <= capacity &&
      unitSize <= UNCOMPRESSED_SIZE_MAX && |coded| <= COMPRESSED_SIZE_MAX
    }

    constructor (capacity: int)
      requires 1 <= capacity
      ensures Valid() && this.capacity == capacity
      ensures pending == [] && unitSize == 0 && coded == [] && mode == Normal && resets == 0
    {
      this.capacity := capacity;
      pending, unitSize, coded, mode, resets := [], 0, [], Normal, 0;
    }

    /** LZEncoder.fillWindow: takes some of `buf[off..off + len]`, and at
        least one byte whenever the window has room. Refilling ends a flush. */
    method FillWindow(buf: seq<Byte>, off: int, len: int) returns (used: int)
      requires Valid() && 0 <= off && 0 <= len && off + len <= |buf|
      modifies this
      ensures Valid()
      ensures 0 <= used <= len && pending == old(pending) + buf[off..off + used]
      ensures len > 0 && |old(pending)| < capacity ==> used > 0
      ensures unitSize == old(unitSize) && coded == old(coded) && resets == old(resets)
      ensures mode == if old(mode) == Flushing then Normal else old(mode)
    {
      var room := capacity - |pending|;
      used :| 0 <= used <= len && used <= room && (len > 0 && room > 0 ==> used > 0);
      pending := pending + buf[off..off + used];
      if mode == Flushing {
        mode := Normal;
      }
    }

    /** LZMAEncoder.encodeForLZMA2: encodes more of the pending bytes into
        the current unit and reports whether the unit is complete. A full
        window always completes a unit, and in flushing or finishing mode
        every pending byte is soon encoded. */
    method EncodeForLZMA2() returns (ready: bool)
      requires Valid()
      modifies this
      ensures Valid()
      ensures pending == old(pending) && coded == old(coded) && mode == old(mode) && resets == old(resets)
      ensures old(unitSize) <= unitSize
      ensures ready ==> unitSize >= 1
      ensures |pending| == capacity ==> ready
      ensures mode != Normal && |pending| > 0 ==> unitSize >= 1
    {
      var must := |pending| > 0 && (|pending| == capacity || mode != Normal);
      var size :| unitSize <= size <= |pending| && size <= UNCOMPRESSED_SIZE_MAX && (must ==> size >= 1);
      unitSize := size;
      ready :| (|pending| == capacity ==> ready) && (ready ==> unitSize >= 1);
    }

    /** RangeEncoder.finish: completes the range coder's output for the unit
        and returns its size, which fits the 64 KiB buffer. */
    method Finish() returns (compressedSize: int)
      requires Valid()
      modifies this
      ensures Valid()
      ensures 1 <= compressedSize == |coded| <= COMPRESSED_SIZE_MAX
      ensures pending == old(pending) && unitSize == old(unitSize) && mode == old(mode) && resets == old(resets)
    {
      assert |[0 as Byte]| == 1;
      var out: seq<Byte> :| 1 <= |out| <= COMPRESSED_SIZE_MAX;
      coded := out;
      compressedSize := |coded|;
    }

    /** RangeEncoder.write: passes the range coder's buffer to `out`. */
    method WriteCoded(out: Sink) returns (st: Status)
      modifies out
      ensures st.Done? ==> out.bytes == old(out.bytes) + coded
      ensures st.Failed? ==> WrotePrefix(old(out.bytes), out.bytes, coded)
      ensures out.flushes == old(out.flushes) && out.finishes == old(out.finishes) && out.closes == old(out.closes)
    {
      st := out.Write(coded);
    }

    /** LZEncoder.copyUncompressed: passes `len` bytes of the current unit,
        starting `backward` bytes before its end, to `out`. */
    method CopyUncompressed(out: Sink, backward: int, len: int) returns (st: Status)
      requires Valid() && 0 < len <= backward <= unitSize
      modifies out
      ensures st.Done? ==> out.bytes == old(out.bytes) + pending[unitSize - backward..unitSize - backward + len]
      ensures st.Failed? ==> WrotePrefix(old(out.bytes), out.bytes, pending[unitSize - backward..unitSize - backward + len])
      ensures out.flushes == old(out.flushes) && out.finishes == old(out.finishes) && out.closes == old(out.closes)
    {
      st := out.Write(pending[unitSize - backward..unitSize - backward + len]);
    }

    /** LZMAEncoder.reset: starts the model afresh. The unit keeps its
        bytes and may take in more of the pending ones (bytes the encoder
        had already read ahead), so getUncompressedSize is read again. */
    method Reset()
      requires Valid()
      modifies this
      ensures Valid()
      ensures pending == old(pending) && old(unitSize) <= unitSize && coded == old(coded) && mode == old(mode)
      ensures resets == old(resets) + 1
    {
      var size :| unitSize <= size <= |pending| && size <= UNCOMPRESSED_SIZE_MAX;
      unitSize := size;
      resets := resets + 1;
    }

    /** LZMAEncoder.resetUncompressedSize: the current unit is closed out,
        so its bytes leave the pending ones. */
    method ResetUncompressedSize()
      requires Valid()
      modifies this
      ensures Valid()
      ensures pending == old(pending)[old(unitSize)..] && unitSize == 0
      ensures coded == old(coded) && mode == old(mode) && resets == old(resets)
    {
      pending := pending[unitSize..];
      unitSize := 0;
    }

    /** RangeEncoder.reset: empties the range coder's buffer. */
    method ResetBuffer()
      requires Valid()
      modifies this
      ensures Valid()
      ensures coded == [] && pending == old(pending) && unitSize == old(unitSize)
      ensures mode == old(mode) && resets == old(resets)
    {
      coded := [];
    }

    /** LZEncoder.setFlushing and LZEncoder.setFinishing. */
    method SetMode(m: Mode)
      requires Valid()
      modifies this
      ensures Valid()
      ensures mode == m && pending == old(pending) && unitSize == old(unitSize)
      ensures coded == old(coded) && resets == old(resets)
    {
      mode := m;
    }
  }
}
