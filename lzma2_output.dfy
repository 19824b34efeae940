/** The LZMA2 chunk encoder (LZMA2OutputStream): takes bytes from callers,
    hands them to the LZ window, closes out every coding unit as a
    compressed chunk or a run of stored chunks, and ends the stream with
    the end marker. */
module Lzma2Output {
  import opened Lzma2Format
  import opened ChunkRules
  import opened Collaborators

  /** What a public operation reports: success, or the exception it throws. */
  datatype Outcome = Ok | IndexOutOfBounds | WriteAfterFinish | Io(fault: IoFault)

  /** What the sink holds after `start`, given the chunks written so far
      and whether the end marker followed them. */
  function Written(start: seq<Byte>, cs: seq<Chunk>, finished: bool): seq<Byte>
    requires AllWellFormed(cs)
  {
    start + StreamBytes(cs) + (if finished then [END_MARKER] else [])
  }

  /** The ghost history of a stream: its chunks are well formed and cover
      `emitted`, and while the sink has never failed they follow the reset
      discipline, their flags are the encoder's and the sink holds exactly
      their bytes. */
  ghost predicate History(start: seq<Byte>, cs: seq<Chunk>, emitted: seq<Byte>, flags: Flags,
                          bytes: seq<Byte>, finished: bool, intact: bool)
  {
    AllWellFormed(cs) && Explains(cs, emitted) &&
    (intact ==> Disciplined(cs) && flags == FlagsOf(cs) && bytes == Written(start, cs, finished))
  }

  /** What writeChunk passes to the sink for a unit of `size` bytes at the
      front of `window`, measured at `measured` bytes when the range coder
      finished: one compressed chunk, or a run of stored chunks. */
  function UnitWrite(f: Flags, window: seq<Byte>, measured: int, size: int, payload: seq<Byte>, props: Byte): seq<Byte>
    requires size <= |window| && UnitShape(measured, size, |payload|)
  {
    if Compresses(measured, |payload|) then ChunkBytes(CompressedChunk(f, measured, payload, props))
    else StoredRunBytes(f.dictResetNeeded, window, 0, size)
  }

  /** Closing out a coding unit extends the history by the unit's chunks. */
  lemma HistoryStep(start: seq<Byte>, cs: seq<Chunk>, emitted: seq<Byte>, f: Flags,
                    window: seq<Byte>, measured: int, size: int, payload: seq<Byte>, props: Byte,
                    before: seq<Byte>, after: seq<Byte>, intact: bool)
    requires History(start, cs, emitted, f, before, false, intact) && PropsValue(cs, props)
    requires size <= |window| && UnitShape(measured, size, |payload|)
    requires after == before + UnitWrite(f, window, measured, size, payload, props)
    ensures after == before + StreamBytes(UnitChunks(f, measured, window[..size], payload, props))
    ensures History(start, cs + UnitChunks(f, measured, window[..size], payload, props), emitted + window[..size],
                    NextFlags(f, Compresses(measured, |payload|)), after, false, intact)
    ensures PropsValue(cs + UnitChunks(f, measured, window[..size], payload, props), props)
    ensures emitted + window == (emitted + window[..size]) + window[size..]
  {
    var unit := window[..size];
    var added := UnitChunks(f, measured, unit, payload, props);
    UnitBytes(f, window, measured, size, payload, props, before, after);
    UnitStep(cs, emitted, f, measured, unit, payload, props);
    PropsValueUnit(cs, f, measured, unit, payload, props);
    if intact {
      StreamGrows(start, cs, added, before, after);
    }
    SplitAppend(emitted, window, size);
  }

  /** Writing the end marker after the chunks finishes the history. */
  lemma MarkerStep(start: seq<Byte>, cs: seq<Chunk>, emitted: seq<Byte>, flags: Flags,
                   before: seq<Byte>, after: seq<Byte>, intact: bool)
    requires History(start, cs, emitted, flags, before, false, intact)
    requires after == before + [END_MARKER]
    ensures History(start, cs, emitted, flags, after, true, intact)
  {
  }

  /** The state of writeUncompressed's loop: the first `lo` bytes of the
      unit's `size` are written, a dictionary reset (`dict0` on entry) is
      still due only before the first sub-chunk, and what the sink holds
      followed by the rest of the run is `target`. */
  ghost predicate StoredProgress(bytes: seq<Byte>, dictReset: bool, dict0: bool, window: seq<Byte>,
                                 lo: int, size: int, target: seq<Byte>)
  {
    0 <= lo <= size <= |window| && dictReset == (dict0 && lo == 0) &&
    bytes + StoredRunBytes(dictReset, window, lo, size) == target
  }

  /** One sub-chunk, written as control byte, size-1 and data, moves the
      loop on by its size and clears the dictionary reset. */
  lemma StoredProgressStep(dictReset: bool, dict0: bool, window: seq<Byte>, lo: int, size: int, n: int,
                           target: seq<Byte>, w0: seq<Byte>, w1: seq<Byte>, w2: seq<Byte>, w3: seq<Byte>)
    requires StoredProgress(w0, dictReset, dict0, window, lo, size, target) && lo < size
    requires n == if size - lo < COMPRESSED_SIZE_MAX then size - lo else COMPRESSED_SIZE_MAX
    requires w1 == w0 + [if dictReset then 0x01 else 0x02] && w2 == w1 + Be16(n - 1) && w3 == w2 + window[lo..lo + n]
    ensures StoredProgress(w3, false, dict0, window, lo + n, size, target)
  {
    StoredRunWrites(dictReset, window, lo, size, n, lo + n, w0, w1, w2, w3);
  }

  /** When the loop ends, the sink holds the whole run and no dictionary
      reset is due. */
  lemma StoredProgressDone(bytes: seq<Byte>, dictReset: bool, dict0: bool, window: seq<Byte>, size: int, target: seq<Byte>)
    requires StoredProgress(bytes, dictReset, dict0, window, size, size, target) && 1 <= size
    ensures bytes == target && !dictReset
  {
    assert StoredRunBytes(dictReset, window, size, size) == [];
  }

  class Lzma2OutputStream {
    const sink: Sink
    const coder: Coder
    const props: Byte

    var dictResetNeeded: bool
    var stateResetNeeded: bool
    var propsNeeded: bool
    var pendingSize: int
    var finished: bool
    var exception: Option<IoFault>

    /** What the sink held before this stream wrote to it. */
    ghost const start: seq<Byte>
    /** The chunks of every coding unit written completely, in order. */
    ghost var chunks: seq<Chunk>
    /** Every byte the LZ window has taken from callers. */
    ghost var accepted: seq<Byte>
    /** The prefix of `accepted` that `chunks` covers. */
    ghost var emitted: seq<Byte>
    /** No operation of the sink has failed so far. */
    ghost var intact: bool

    function CurrentFlags(): Flags
      reads this
    {
      Flags(dictResetNeeded, stateResetNeeded, propsNeeded)
    }

    /** The object invariant. While the sink has never failed, it holds
        exactly the chunks written so far, then the end marker once the
        stream is finished, and the flags are those the history calls for.
        Every properties byte among the chunks is the encoder's own. */
    ghost predicate Valid()
      reads this, sink, coder
    {
      coder.Valid() &&
      pendingSize == |coder.pending| &&
      (finished ==> pendingSize == 0) &&
      (exception.Some? ==> !intact) &&
      accepted == emitted + coder.pending &&
      History(start, chunks, emitted, CurrentFlags(), sink.bytes, finished, intact) &&
      PropsValue(chunks, props)
    }

    /** The sink's flush, finish and close have not been called. */
    twostate predicate SinkCallsUnchanged()
      reads sink
    {
      sink.flushes == old(sink.flushes) && sink.finishes == old(sink.finishes) &&
      sink.closes == old(sink.closes)
    }

    /** The chunks already written, and the bytes they cover, stay as they
        were: a call only appends to them. */
    twostate predicate WrittenGrows()
      reads this
    {
      old(chunks) <= chunks && old(emitted) <= emitted
    }

    /** The write path never enters flushing or finishing mode; filling the
        window may end a flush. */
    twostate predicate ModeKept()
      reads coder
    {
      coder.mode == old(coder.mode) || (old(coder.mode) == Flushing && coder.mode == Normal)
    }

    /** propsNeeded and dictResetNeeded are only ever cleared. */
    twostate predicate FlagsOneWay()
      reads this
    {
      (propsNeeded ==> old(propsNeeded)) && (dictResetNeeded ==> old(dictResetNeeded))
    }

    /** The constructor's part of the chunk encoder: fresh flags and the
        properties byte from lc, lp and pb. */
    constructor (sink: Sink, coder: Coder, lc: int, lp: int, pb: int)
      requires coder.Valid() && coder.pending == [] && coder.unitSize == 0
      requires 0 <= lc <= 8 && 0 <= lp <= 4 && 0 <= pb <= 4
      ensures Valid()
      ensures this.sink == sink && this.coder == coder && props == PropsByte(lc, lp, pb)
      ensures CurrentFlags() == INITIAL_FLAGS && pendingSize == 0 && !finished && exception == None
      ensures intact && chunks == [] && accepted == [] && start == sink.bytes
    {
      this.sink := sink;
      this.coder := coder;
      props := PropsByte(lc, lp, pb);
      dictResetNeeded, stateResetNeeded, propsNeeded := true, true, true;
      pendingSize, finished, exception := 0, false, None;
      start := sink.bytes;
      chunks, accepted, emitted, intact := [], [], [], true;
    }

    /** write(int): the low eight bits of `b` as a one-byte write. */
    method WriteByte(b: int) returns (r: Outcome)
      requires Valid()
      modifies this, sink, coder
      ensures Valid()
      ensures old(exception).Some? ==> r == Io(old(exception).value) && unchanged(this, sink, coder)
      ensures old(exception).None? && old(finished) ==> r == WriteAfterFinish && unchanged(this, sink, coder)
      ensures r.Ok? ==> accepted == old(accepted) + [b % 256] && exception == None && intact == old(intact)
      ensures r.Io? && old(exception).None? ==>
        exception == Some(r.fault) && !intact && WrotePrefix(old(accepted), accepted, [b % 256])
      ensures old(exception).None? && !old(finished) ==> r.Ok? || r.Io?
      ensures r != IndexOutOfBounds
      ensures pendingSize - old(pendingSize) == (|accepted| - |old(accepted)|) - (|emitted| - |old(emitted)|)
      ensures old(exception).Some? ==> exception == old(exception)
      ensures finished == old(finished) && SinkCallsUnchanged() && FlagsOneWay() && WrittenGrows() && ModeKept()
    {
      RangeRejectedIff(1, 0, 1);
      r := Write([b % 256], 0, 1);
      assert [b % 256][0..0 + 1] == [b % 256];
    }

    /** write(byte[], int, int). */
    method Write(buf: seq<Byte>, off: int, len: int) returns (r: Outcome)
      requires Valid()
      requires IsInt32(off) && IsInt32(len) && |buf| <= INT32_MAX
      modifies this, sink, coder
      ensures Valid()
      ensures RangeRejected(|buf|, off, len) ==> r == IndexOutOfBounds && unchanged(this, sink, coder)
      ensures !RangeRejected(|buf|, off, len) && old(exception).Some? ==>
        r == Io(old(exception).value) && unchanged(this, sink, coder)
      ensures !RangeRejected(|buf|, off, len) && old(exception).None? && old(finished) ==>
        r == WriteAfterFinish && unchanged(this, sink, coder)
      ensures r.Ok? ==> 0 <= off <= off + len <= |buf| && accepted == old(accepted) + buf[off..off + len]
      ensures r.Ok? ==> exception == None && intact == old(intact)
      ensures r.Io? && old(exception).None? ==>
        0 <= off <= off + len <= |buf| && exception == Some(r.fault) && !intact &&
        WrotePrefix(old(accepted), accepted, buf[off..off + len])
      ensures !RangeRejected(|buf|, off, len) && old(exception).None? && !old(finished) ==> r.Ok? || r.Io?
      ensures pendingSize - old(pendingSize) == (|accepted| - |old(accepted)|) - (|emitted| - |old(emitted)|)
      ensures old(exception).Some? ==> exception == old(exception)
      ensures finished == old(finished)
      ensures SinkCallsUnchanged() && FlagsOneWay() && WrittenGrows() && ModeKept()
    {
      if off < 0 || len < 0 || Wrap32(off + len) < 0 || Wrap32(off + len) > |buf| {
        return IndexOutOfBounds;
      }
      RangeRejectedIff(|buf|, off, len);
      if exception.Some? {
        return Io(exception.value);
      }
      if finished {
        return WriteAfterFinish;
      }
      r := FillLoop(buf, off, len);
    }

    /** The guarded part of write: feeds `buf[off..off + len]` to the
        window, closing out every coding unit the encoder completes; the
        first I/O failure is latched in `exception` and rethrown. */
    method FillLoop(buf: seq<Byte>, off: int, len: int) returns (r: Outcome)
      requires Valid() && !finished && exception == None
      requires 0 <= off && 0 <= len && off + len <= |buf|
      modifies this, sink, coder
      ensures Valid()
      ensures r.Ok? || r.Io?
      ensures r.Ok? ==> accepted == old(accepted) + buf[off..off + len] && exception == None && intact == old(intact)
      ensures r.Io? ==> exception == Some(r.fault) && !intact && WrotePrefix(old(accepted), accepted, buf[off..off + len])
      ensures pendingSize - old(pendingSize) == (|accepted| - |old(accepted)|) - (|emitted| - |old(emitted)|)
      ensures finished == old(finished)
      ensures SinkCallsUnchanged() && FlagsOneWay() && WrittenGrows() && ModeKept()
    {
      var o, n := off, len;
      while n > 0
        invariant Valid()
        invariant 0 <= n && off <= o && o + n == off + len
        invariant accepted == old(accepted) + buf[off..o]
        invariant exception == None && !finished && intact == old(intact)
        invariant pendingSize - old(pendingSize) == (|accepted| - |old(accepted)|) - (|emitted| - |old(emitted)|)
        invariant SinkCallsUnchanged() && FlagsOneWay() && WrittenGrows() && ModeKept()
        decreases n, if |coder.pending| == coder.capacity then 1 else 0
      {
        var used, st, _ := FillAndEncode(buf, o, n);
        AppendSlices(old(accepted), buf, off, o, o + used);
        o, n := o + used, n - used;
        if st.Failed? {
          SlicePrefix(old(accepted), buf, off, o, off + len);
          Latch(st.fault);
          return Io(st.fault);
        }
      }
      r := Ok;
    }

    /** The catch block of write: the fault is kept in `exception`. */
    method Latch(fault: IoFault)
      requires Valid() && exception == None && !intact
      modifies this`exception
      ensures Valid() && exception == Some(fault)
    {
      ghost var flags := CurrentFlags();
      exception := Some(fault);
      assert CurrentFlags() == flags;
    }

    /** One round of write's loop: the window takes some of
        `buf[o..o + n]`, and a coding unit the encoder completes is closed
        out. A round that takes nothing closes out a unit of a full window.
        `ready` is what encodeForLZMA2 reported: a complete unit is closed
        out, and otherwise nothing is written. The mode changes only when
        filling the window ends a flush. */
    method FillAndEncode(buf: seq<Byte>, o: int, n: int) returns (used: int, st: Status, ghost ready: bool)
      requires Valid() && !finished && exception == None
      requires 0 <= o && 0 < n && o + n <= |buf|
      modifies this, sink, coder
      ensures Valid()
      ensures 0 <= used <= n && accepted == old(accepted) + buf[o..o + used]
      ensures finished == old(finished) && exception == old(exception)
      ensures pendingSize - old(pendingSize) == used - (|emitted| - |old(emitted)|)
      ensures SinkCallsUnchanged() && FlagsOneWay() && WrittenGrows()
      ensures st.Done? ==> intact == old(intact)
      ensures st.Failed? ==> !intact
      ensures st.Done? && used == 0 ==> |old(coder.pending)| == coder.capacity && |coder.pending| < coder.capacity
      ensures !ready ==> st.Done? && chunks == old(chunks) && sink.bytes == old(sink.bytes)
      ensures ready && st.Done? ==> coder.unitSize == 0 && |emitted| > |old(emitted)|
      ensures coder.mode == if old(coder.mode) == Flushing then Normal else old(coder.mode)
    {
      ghost var a0, p0 := accepted, coder.pending;
      used := coder.FillWindow(buf, o, n);
      AppendAssoc(emitted, p0, buf[o..o + used]);
      accepted := accepted + buf[o..o + used];
      pendingSize := pendingSize + used;
      var complete := coder.EncodeForLZMA2();
      ready := complete;
      st := Done;
      if complete {
        ghost var payload, size;
        st, payload, size := WriteChunk();
      }
    }

    /** writeChunk: closes out the current coding unit. It becomes one
        compressed chunk when compressedSize + 2 is less than the unit's
        size, otherwise a run of stored chunks of the unit's bytes;
        `payload` is the range coder's output and `size` the number of
        bytes the unit's chunks cover. */
    method WriteChunk() returns (st: Status, ghost payload: seq<Byte>, ghost size: int)
      requires Valid() && coder.unitSize >= 1
      modifies this, sink, coder
      ensures Valid()
      ensures finished == old(finished) && exception == old(exception) && accepted == old(accepted)
      ensures coder.mode == old(coder.mode) && SinkCallsUnchanged() && FlagsOneWay()
      ensures 1 <= |payload| <= COMPRESSED_SIZE_MAX
      ensures st.Done? ==>
        size <= |old(coder.pending)| && UnitShape(old(coder.unitSize), size, |payload|) &&
        var unit := old(coder.pending)[..size];
        var added := UnitChunks(old(CurrentFlags()), old(coder.unitSize), unit, payload, props);
        intact == old(intact) &&
        chunks == old(chunks) + added && emitted == old(emitted) + unit &&
        sink.bytes == old(sink.bytes) + StreamBytes(added) &&
        CurrentFlags() == NextFlags(old(CurrentFlags()), Compresses(old(coder.unitSize), |payload|)) &&
        coder.pending == old(coder.pending)[size..] && coder.unitSize == 0 && coder.coded == [] &&
        coder.resets == old(coder.resets) + (if Compresses(old(coder.unitSize), |payload|) then 0 else 1) &&
        pendingSize == old(pendingSize) - size
      ensures st.Failed? ==>
        !intact && chunks == old(chunks) && emitted == old(emitted) && pendingSize == old(pendingSize)
    {
      ghost var window, f, before, measured := coder.pending, CurrentFlags(), sink.bytes, coder.unitSize;
      var uncompressedSize;
      st, uncompressedSize := WriteUnit();
      payload, size := coder.coded, uncompressedSize;
      if st.Failed? {
        intact := false;
        return;
      }
      CloseUnit(window, f, before, measured, uncompressedSize, payload);
    }

    /** The last part of writeChunk: the unit's bytes leave the window and
        the range coder's buffer is emptied. */
    method CloseUnit(ghost window: seq<Byte>, ghost f: Flags, ghost before: seq<Byte>, ghost measured: int,
                     uncompressedSize: int, ghost payload: seq<Byte>)
      requires coder.Valid() && coder.pending == window && coder.unitSize == uncompressedSize
      requires coder.coded == payload && UnitShape(measured, uncompressedSize, |payload|)
      requires pendingSize == |window| && !finished && (exception.Some? ==> !intact)
      requires accepted == emitted + window
      requires History(start, chunks, emitted, f, before, false, intact) && PropsValue(chunks, props)
      requires sink.bytes == before + UnitWrite(f, window, measured, uncompressedSize, payload, props)
      requires CurrentFlags() == NextFlags(f, Compresses(measured, |payload|))
      modifies this`pendingSize, this`chunks, this`emitted, coder
      ensures Valid()
      ensures chunks == old(chunks) + UnitChunks(f, measured, window[..uncompressedSize], payload, props)
      ensures emitted == old(emitted) + window[..uncompressedSize]
      ensures pendingSize == old(pendingSize) - uncompressedSize
      ensures coder.pending == window[uncompressedSize..] && coder.mode == old(coder.mode)
      ensures coder.unitSize == 0 && coder.coded == [] && coder.resets == old(coder.resets)
      ensures sink.bytes == before + StreamBytes(UnitChunks(f, measured, window[..uncompressedSize], payload, props))
    {
      ghost var unit := window[..uncompressedSize];
      ghost var added := UnitChunks(f, measured, unit, payload, props);
      HistoryStep(start, chunks, emitted, f, window, measured, uncompressedSize, payload, props, before, sink.bytes, intact);
      pendingSize := pendingSize - uncompressedSize;
      coder.ResetUncompressedSize();
      coder.ResetBuffer();
      chunks := chunks + added;
      emitted := emitted + unit;
      assert CurrentFlags() == NextFlags(f, Compresses(measured, |payload|));
    }

    /** The first part of writeChunk: finishes the range coder, decides by
        the size measured then, and writes the unit as a compressed chunk
        or, after the coder's reset and with the size read again, as stored
        chunks. */
    method WriteUnit() returns (st: Status, uncompressedSize: int)
      requires coder.Valid() && coder.unitSize >= 1
      modifies this`dictResetNeeded, this`stateResetNeeded, this`propsNeeded, sink, coder
      ensures coder.Valid() && coder.pending == old(coder.pending) && coder.mode == old(coder.mode)
      ensures uncompressedSize == coder.unitSize && UnitShape(old(coder.unitSize), uncompressedSize, |coder.coded|)
      ensures coder.resets == old(coder.resets) + (if Compresses(old(coder.unitSize), |coder.coded|) then 0 else 1)
      ensures SinkCallsUnchanged() && FlagsOneWay()
      ensures st.Done? ==>
        sink.bytes == old(sink.bytes) + UnitWrite(old(CurrentFlags()), coder.pending, old(coder.unitSize), uncompressedSize, coder.coded, props) &&
        CurrentFlags() == NextFlags(old(CurrentFlags()), Compresses(old(coder.unitSize), |coder.coded|))
    {
      var compressedSize := coder.Finish();
      uncompressedSize := coder.unitSize;
      if compressedSize + 2 < uncompressedSize {
        st := WriteLzma(uncompressedSize, compressedSize);
      } else {
        coder.Reset();
        uncompressedSize := coder.unitSize;
        st := WriteUncompressed(uncompressedSize, sink.bytes + StoredRunBytes(dictResetNeeded, coder.pending, 0, uncompressedSize));
      }
    }

    /** writeLZMA: one compressed chunk with the range coder's output. */
    method WriteLzma(uncompressedSize: int, compressedSize: int) returns (st: Status)
      requires 1 <= uncompressedSize <= UNCOMPRESSED_SIZE_MAX
      requires 1 <= compressedSize <= COMPRESSED_SIZE_MAX && compressedSize == |coder.coded|
      modifies this`dictResetNeeded, this`stateResetNeeded, this`propsNeeded, sink
      ensures SinkCallsUnchanged()
      ensures st.Done? ==>
        sink.bytes == old(sink.bytes) + ChunkBytes(CompressedChunk(old(CurrentFlags()), uncompressedSize, coder.coded, props)) &&
        CurrentFlags() == Flags(false, false, false)
      ensures st.Failed? ==> CurrentFlags() == old(CurrentFlags())
    {
      ghost var f := CurrentFlags();
      var base: int;
      if propsNeeded {
        if dictResetNeeded {
          base := 0x80 + (3 * 0x20);
        } else {
          base := 0x80 + (2 * 0x20);
        }
      } else {
        if stateResetNeeded {
          base := 0x80 + (1 * 0x20);
        } else {
          base := 0x80;
        }
      }
      // The size bits go to the five low bits, which `base` leaves clear.
      var control: Byte := base + (uncompressedSize - 1) / 0x1_0000;
      ghost var w0 := sink.bytes;
      st := sink.Write([control]);
      if st.Failed? {
        return;
      }
      ghost var w1 := sink.bytes;
      st := sink.Write(Be16(uncompressedSize - 1));
      if st.Failed? {
        return;
      }
      ghost var w2 := sink.bytes;
      st := sink.Write(Be16(compressedSize - 1));
      if st.Failed? {
        return;
      }
      ghost var w3 := sink.bytes;
      if propsNeeded {
        st := sink.Write([props]);
        if st.Failed? {
          return;
        }
      }
      ghost var w4 := sink.bytes;
      st := coder.WriteCoded(sink);
      if st.Failed? {
        return;
      }
      CompressedChunkWrites(f, uncompressedSize, coder.coded, props, control, w0, w1, w2, w3, w4, sink.bytes);
      propsNeeded := false;
      stateResetNeeded := false;
      dictResetNeeded := false;
    }

    /** writeUncompressed: the first `uncompressedSize` pending bytes as
        stored chunks of at most 64 KiB each; `target` is what the sink
        holds once the whole run is written. */
    method WriteUncompressed(uncompressedSize: int, ghost target: seq<Byte>) returns (st: Status)
      requires coder.Valid() && 1 <= uncompressedSize == coder.unitSize
      requires target == sink.bytes + StoredRunBytes(dictResetNeeded, coder.pending, 0, uncompressedSize)
      modifies this`dictResetNeeded, this`stateResetNeeded, sink
      ensures SinkCallsUnchanged()
      ensures st.Done? ==> sink.bytes == target && !dictResetNeeded
      ensures stateResetNeeded == (st.Done? || old(stateResetNeeded)) && (dictResetNeeded ==> old(dictResetNeeded))
    {
      ghost var window := coder.pending;
      ghost var dict0 := dictResetNeeded;
      var remaining := uncompressedSize;
      ghost var lo := 0;
      while remaining > 0
        invariant coder.Valid() && coder.pending == window && coder.unitSize == uncompressedSize
        invariant 0 <= remaining && lo == uncompressedSize - remaining
        invariant StoredProgress(sink.bytes, dictResetNeeded, dict0, window, lo, uncompressedSize, target)
        invariant stateResetNeeded == old(stateResetNeeded)
        invariant SinkCallsUnchanged()
      {
        var chunkSize := if remaining < COMPRESSED_SIZE_MAX then remaining else COMPRESSED_SIZE_MAX;
        st := WriteStoredChunk(remaining, chunkSize, window, lo, dict0, target);
        if st.Failed? {
          return;
        }
        remaining := remaining - chunkSize;
        lo := lo + chunkSize;
      }
      StoredProgressDone(sink.bytes, dictResetNeeded, dict0, window, uncompressedSize, target);
      stateResetNeeded := true;
      st := Done;
    }

    /** One round of writeUncompressed: a stored chunk of the `chunkSize`
        bytes that start `remaining` bytes before the end of the unit. */
    method WriteStoredChunk(remaining: int, chunkSize: int, ghost window: seq<Byte>, ghost lo: int,
                            ghost dict0: bool, ghost target: seq<Byte>)
      returns (st: Status)
      requires coder.Valid() && window == coder.pending && 0 < remaining <= coder.unitSize
      requires lo == coder.unitSize - remaining
      requires chunkSize == if remaining < COMPRESSED_SIZE_MAX then remaining else COMPRESSED_SIZE_MAX
      requires StoredProgress(sink.bytes, dictResetNeeded, dict0, window, lo, coder.unitSize, target)
      modifies this`dictResetNeeded, sink
      ensures SinkCallsUnchanged()
      ensures st.Done? ==>
        !dictResetNeeded && StoredProgress(sink.bytes, dictResetNeeded, dict0, window, lo + chunkSize, coder.unitSize, target)
      ensures st.Failed? ==> dictResetNeeded == old(dictResetNeeded)
    {
      ghost var w0 := sink.bytes;
      st := sink.Write([if dictResetNeeded then 0x01 else 0x02]);
      if st.Failed? {
        return;
      }
      ghost var w1 := sink.bytes;
      st := sink.Write(Be16(chunkSize - 1));
      if st.Failed? {
        return;
      }
      ghost var w2 := sink.bytes;
      st := coder.CopyUncompressed(sink, remaining, chunkSize);
      if st.Failed? {
        return;
      }
      StoredProgressStep(dictResetNeeded, dict0, window, lo, coder.unitSize, chunkSize, target, w0, w1, w2, sink.bytes);
      dictResetNeeded := false;
    }

    /** The drain loop of flush and writeEndMarker: closes out coding units
        until no byte is pending. */
    method Drain() returns (st: Status)
      requires Valid() && coder.mode != Normal
      modifies this, sink, coder
      ensures Valid()
      ensures finished == old(finished) && exception == old(exception) && accepted == old(accepted)
      ensures coder.mode == old(coder.mode) && SinkCallsUnchanged() && FlagsOneWay() && WrittenGrows()
      ensures st.Done? ==> pendingSize == 0 && intact == old(intact)
      ensures st.Failed? ==> !intact && pendingSize > 0
    {
      while pendingSize > 0
        invariant Valid()
        invariant finished == old(finished) && exception == old(exception) && accepted == old(accepted)
        invariant coder.mode == old(coder.mode) && SinkCallsUnchanged() && FlagsOneWay() && WrittenGrows()
        invariant intact == old(intact)
        decreases pendingSize
      {
        var _ := coder.EncodeForLZMA2();
        ghost var payload, size;
        st, payload, size := WriteChunk();
        if st.Failed? {
          return;
        }
      }
      st := Done;
    }

    /** writeEndMarker: drains the window in finishing mode, then writes the
        end marker once. */
    method WriteEndMarker() returns (st: Status)
      requires Valid()
      modifies this, sink, coder
      ensures Valid()
      ensures old(exception).Some? ==> st == Failed(old(exception).value) && unchanged(this, sink, coder)
      ensures old(exception).None? && old(finished) ==> st.Done? && unchanged(this, sink, coder)
      ensures st.Done? ==> finished && pendingSize == 0 && intact == old(intact) && exception == None
      ensures old(exception).None? && st.Failed? ==> !finished && !intact && exception == None
      ensures accepted == old(accepted)
      ensures SinkCallsUnchanged() && FlagsOneWay() && WrittenGrows()
    {
      if exception.Some? {
        return Failed(exception.value);
      }
      if !finished {
        st := DrainAndMark();
      } else {
        st := Done;
      }
    }

    /** The unfinished case of writeEndMarker: drains the window in
        finishing mode, then writes the end marker and becomes finished. */
    method DrainAndMark() returns (st: Status)
      requires Valid() && !finished && exception == None
      modifies this, sink, coder
      ensures Valid()
      ensures st.Done? ==> finished && pendingSize == 0 && intact == old(intact)
      ensures st.Failed? ==> !finished && !intact
      ensures exception == None && accepted == old(accepted) && coder.mode == Finishing
      ensures SinkCallsUnchanged() && FlagsOneWay() && WrittenGrows()
    {
      coder.SetMode(Finishing);
      st := Drain();
      if st.Failed? {
        return;
      }
      ghost var before, flags := sink.bytes, CurrentFlags();
      st := sink.Write([END_MARKER]);
      if st.Failed? {
        intact := false;
        assert CurrentFlags() == flags;
        return;
      }
      MarkerStep(start, chunks, emitted, flags, before, sink.bytes, intact);
      finished := true;
      assert CurrentFlags() == flags;
    }

    /** flush: drains the window in flushing mode and flushes the sink;
        the stream stays open and writable. */
    method Flush() returns (r: Outcome)
      requires Valid()
      modifies this, sink, coder
      ensures Valid()
      ensures old(exception).Some? ==> r == Io(old(exception).value) && unchanged(this, sink, coder)
      ensures r.Ok? || r.Io?
      ensures r.Ok? ==> pendingSize == 0 && intact == old(intact) && sink.flushes == old(sink.flushes) + 1
      ensures old(finished) && old(exception).None? ==> sink.bytes == old(sink.bytes) && sink.flushes == old(sink.flushes) + 1
      ensures finished == old(finished) && exception == old(exception) && accepted == old(accepted)
      ensures FlagsOneWay() && WrittenGrows()
      ensures old(exception).None? && !old(finished) ==> coder.mode == Flushing
      ensures old(finished) ==> unchanged(coder)
      ensures sink.flushes == old(sink.flushes) + (if old(exception).None? && pendingSize == 0 then 1 else 0)
      ensures sink.finishes == old(sink.finishes) && sink.closes == old(sink.closes)
    {
      if exception.Some? {
        return Io(exception.value);
      }
      if !finished {
        coder.SetMode(Flushing);
        var st := Drain();
        if st.Failed? {
          return Io(st.fault);
        }
      }
      var st := sink.Flush();
      if st.Failed? {
        ghost var flags := CurrentFlags();
        intact := false;
        assert CurrentFlags() == flags;
        return Io(st.fault);
      }
      r := Ok;
    }

    /** finish: the end marker, then the sink's finish. On success, while
        the sink has never failed, what this stream wrote parses back to its
        chunks, and they account for every byte accepted. */
    method Finish() returns (r: Outcome)
      requires Valid()
      modifies this, sink, coder
      ensures Valid()
      ensures old(exception).Some? ==> r == Io(old(exception).value) && unchanged(this, sink, coder)
      ensures r.Ok? || r.Io?
      ensures r.Ok? ==> finished && pendingSize == 0 && intact == old(intact) && sink.finishes == old(sink.finishes) + 1
      ensures old(finished) && old(exception).None? ==> sink.bytes == old(sink.bytes)
      ensures r.Ok? && intact ==>
        ParseStream(sink.bytes[|start|..]) == Some(chunks) && Explains(chunks, accepted) &&
        PropsValue(chunks, props)
      ensures exception == old(exception) && (old(finished) ==> finished)
      ensures accepted == old(accepted) && FlagsOneWay() && WrittenGrows()
      ensures sink.finishes == old(sink.finishes) + (if old(exception).None? && finished then 1 else 0)
      ensures sink.flushes == old(sink.flushes) && sink.closes == old(sink.closes)
    {
      var st := WriteEndMarker();
      if st.Failed? {
        return Io(st.fault);
      }
      st := sink.Finish();
      if st.Failed? {
        intact := false;
        return Io(st.fault);
      }
      CompleteStream();
      r := Ok;
    }

    /** close: the end marker, then the sink's close. A latched exception is
        rethrown before the sink is closed. */
    method Close() returns (r: Outcome)
      requires Valid()
      modifies this, sink, coder
      ensures Valid()
      ensures old(exception).Some? ==> r == Io(old(exception).value) && unchanged(this, sink, coder)
      ensures r.Ok? || r.Io?
      ensures r.Ok? ==> finished && pendingSize == 0 && intact == old(intact) && sink.closes == old(sink.closes) + 1
      ensures old(finished) && old(exception).None? ==> sink.bytes == old(sink.bytes)
      ensures r.Ok? && intact ==>
        ParseStream(sink.bytes[|start|..]) == Some(chunks) && Explains(chunks, accepted) &&
        PropsValue(chunks, props)
      ensures exception == old(exception) && (old(finished) ==> finished)
      ensures accepted == old(accepted) && FlagsOneWay() && WrittenGrows()
      ensures sink.closes == old(sink.closes) + (if old(exception).None? && finished then 1 else 0)
      ensures sink.flushes == old(sink.flushes) && sink.finishes == old(sink.finishes)
    {
      var st := WriteEndMarker();
      if st.Failed? {
        return Io(st.fault);
      }
      st := sink.Close();
      if st.Failed? {
        intact := false;
        return Io(st.fault);
      }
      CompleteStream();
      r := Ok;
    }

    /** A finished stream whose sink never failed is a complete LZMA2 stream
        of its chunks, which cover every accepted byte. */
    lemma CompleteStream()
      requires Valid() && finished
      ensures intact ==> ParseStream(sink.bytes[|start|..]) == Some(chunks) && Explains(chunks, accepted)
      ensures PropsValue(chunks, props)
    {
      if intact {
        assert sink.bytes[|start|..] == StreamBytes(chunks) + [END_MARKER];
        ParseStreamBytes(chunks);
        assert accepted == emitted;
      }
    }
  }
}
