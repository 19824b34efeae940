/** The rules by which the encoder turns one coding unit into chunks: the
    three reset flags, the store-vs-compress decision, the splitting of a
    stored run, and what the flags say about the chunks already written. */
module ChunkRules {
  import opened Lzma2Format

  /** dictResetNeeded, stateResetNeeded and propsNeeded. */
  datatype Flags = Flags(dictResetNeeded: bool, stateResetNeeded: bool, propsNeeded: bool)

  /** All three flags start out set. */
  const INITIAL_FLAGS: Flags := Flags(true, true, true)

  /** The reset level writeLZMA signals for the given flags. */
  function ResetLevel(f: Flags): (level: int)
    ensures 0 <= level <= 3
    ensures level >= 2 <==> f.propsNeeded
    ensures level == 3 <==> f.propsNeeded && f.dictResetNeeded
    ensures level >= 1 <==> f.propsNeeded || f.stateResetNeeded
  {
    if f.propsNeeded then (if f.dictResetNeeded then 3 else 2)
    else (if f.stateResetNeeded then 1 else 0)
  }

  /** The compressed chunk writeLZMA emits: the properties byte goes with it
      exactly when propsNeeded is set. */
  function CompressedChunk(f: Flags, uncompressedSize: int, payload: seq<Byte>, props: Byte): (c: Chunk)
    requires 1 <= uncompressedSize <= UNCOMPRESSED_SIZE_MAX && 1 <= |payload| <= COMPRESSED_SIZE_MAX
    ensures WellFormed(c) && c.Lzma?
    ensures c.uncompressedSize == uncompressedSize && c.payload == payload
    ensures c.props == if f.propsNeeded then Some(props) else None
  {
    Lzma(ResetLevel(f), uncompressedSize, if f.propsNeeded then Some(props) else None, payload)
  }

  /** The high bits of a compressed chunk's control byte by the flags. */
  function ControlBase(f: Flags): int
  {
    if f.propsNeeded && f.dictResetNeeded then 0xE0
    else if f.propsNeeded then 0xC0
    else if f.stateResetNeeded then 0xA0
    else 0x80
  }

  /** The control byte of a compressed chunk is 0xE0, 0xC0, 0xA0 or 0x80 by
      the flags, with bits 16 to 20 of `uncompressedSize - 1` in its low bits. */
  lemma CompressedControl(f: Flags, uncompressedSize: int, payload: seq<Byte>, props: Byte)
    requires 1 <= uncompressedSize <= UNCOMPRESSED_SIZE_MAX && 1 <= |payload| <= COMPRESSED_SIZE_MAX
    ensures ControlByte(CompressedChunk(f, uncompressedSize, payload, props)) == ControlBase(f) + (uncompressedSize - 1) / 0x1_0000
    ensures uncompressedSize <= 0x1_0000 ==>
      ControlByte(CompressedChunk(f, uncompressedSize, payload, props)) in {0xE0, 0xC0, 0xA0, 0x80}
  {
  }

  /** Writing the fields of a compressed chunk one after the other, as
      writeLZMA does (w0 before, w5 after), appends the chunk's bytes. */
  lemma CompressedChunkWrites(f: Flags, uncompressedSize: int, payload: seq<Byte>, props: Byte, control: Byte,
                              w0: seq<Byte>, w1: seq<Byte>, w2: seq<Byte>, w3: seq<Byte>, w4: seq<Byte>, w5: seq<Byte>)
    requires 1 <= uncompressedSize <= UNCOMPRESSED_SIZE_MAX && 1 <= |payload| <= COMPRESSED_SIZE_MAX
    requires control == ControlBase(f) + (uncompressedSize - 1) / 0x1_0000
    requires w1 == w0 + [control] && w2 == w1 + Be16(uncompressedSize - 1) && w3 == w2 + Be16(|payload| - 1)
    requires w4 == if f.propsNeeded then w3 + [props] else w3
    requires w5 == w4 + payload
    ensures w5 == w0 + ChunkBytes(CompressedChunk(f, uncompressedSize, payload, props))
  {
    var p: seq<Byte> := if f.propsNeeded then [props] else [];
    assert w4 == w3 + p by {
      if !f.propsNeeded {
        assert w3 + [] == w3;
      }
    }
    WritesChain(w0, w1, w2, w3, w4, w5, [control], Be16(uncompressedSize - 1), Be16(|payload| - 1), p, payload);
    CompressedControl(f, uncompressedSize, payload, props);
    CompressedChunkFields(f, uncompressedSize, payload, props, control, p);
  }

  lemma CompressedChunkFields(f: Flags, uncompressedSize: int, payload: seq<Byte>, props: Byte, control: Byte, p: seq<Byte>)
    requires 1 <= uncompressedSize <= UNCOMPRESSED_SIZE_MAX && 1 <= |payload| <= COMPRESSED_SIZE_MAX
    requires control == ControlByte(CompressedChunk(f, uncompressedSize, payload, props))
    requires p == if f.propsNeeded then [props] else []
    ensures ChunkBytes(CompressedChunk(f, uncompressedSize, payload, props)) ==
            [control] + Be16(uncompressedSize - 1) + Be16(|payload| - 1) + p + payload
  {
  }

  /** The sub-chunks writeUncompressed emits for a stored run: 64 KiB each
      except possibly the last, a dictionary reset only on the first. */
  function StoredChunks(dictReset: bool, data: seq<Byte>): (cs: seq<Chunk>)
    ensures AllWellFormed(cs) && forall i :: 0 <= i < |cs| ==> cs[i].Stored?
    decreases |data|
  {
    if |data| == 0 then []
    else
      var n := if |data| < COMPRESSED_SIZE_MAX then |data| else COMPRESSED_SIZE_MAX;
      [Stored(dictReset, data[..n])] + StoredChunks(false, data[n..])
  }

  /** The stored bytes of a run of chunks, in order. */
  function StoredData(cs: seq<Chunk>): seq<Byte>
  {
    if cs == [] then [] else (if cs[0].Stored? then cs[0].data else []) + StoredData(cs[1..])
  }

  /** The bytes of the stored run of `window[lo..hi]`, sub-chunk by
      sub-chunk: control byte 0x01 or 0x02, the size minus one, then at
      most 64 KiB of data. */
  function StoredRunBytes(dictReset: bool, window: seq<Byte>, lo: int, hi: int): seq<Byte>
    requires 0 <= lo <= hi <= |window|
    decreases hi - lo
  {
    if lo == hi then []
    else
      var n := if hi - lo < COMPRESSED_SIZE_MAX then hi - lo else COMPRESSED_SIZE_MAX;
      [if dictReset then 0x01 else 0x02] + Be16(n - 1) + window[lo..lo + n]
      + StoredRunBytes(false, window, lo + n, hi)
  }

  /** StoredRunBytes is the encoding of the stored chunks StoredChunks
      splits a run into. */
  lemma {:induction false} StoredRunBytesAreChunks(dictReset: bool, window: seq<Byte>, lo: int, hi: int)
    requires 0 <= lo <= hi <= |window|
    ensures StreamBytes(StoredChunks(dictReset, window[lo..hi])) == StoredRunBytes(dictReset, window, lo, hi)
    decreases hi - lo
  {
    if lo < hi {
      var n := if hi - lo < COMPRESSED_SIZE_MAX then hi - lo else COMPRESSED_SIZE_MAX;
      SliceHalves(window, lo, hi, n);
      StoredChunksUnfold(dictReset, window[lo..hi], n);
      StreamBytesCons(Stored(dictReset, window[lo..lo + n]), StoredChunks(false, window[lo + n..hi]));
      StoredRunBytesAreChunks(false, window, lo + n, hi);
      StoredRunUnfold(dictReset, window, lo, hi, n);
    }
  }

  lemma StoredChunksUnfold(dictReset: bool, data: seq<Byte>, n: int)
    requires |data| > 0 && n == if |data| < COMPRESSED_SIZE_MAX then |data| else COMPRESSED_SIZE_MAX
    ensures StoredChunks(dictReset, data) == [Stored(dictReset, data[..n])] + StoredChunks(false, data[n..])
  {
  }

  /** One round of writeUncompressed: writing the control byte, the size
      and the next `n` bytes (w0 before, w3 after) leaves the stored run of
      the bytes after them still to write. */
  lemma StoredRunWrites(dictReset: bool, window: seq<Byte>, lo: int, hi: int, n: int, next: int,
                        w0: seq<Byte>, w1: seq<Byte>, w2: seq<Byte>, w3: seq<Byte>)
    requires 0 <= lo < hi <= |window| && next == lo + n
    requires n == if hi - lo < COMPRESSED_SIZE_MAX then hi - lo else COMPRESSED_SIZE_MAX
    requires w1 == w0 + [if dictReset then 0x01 else 0x02] && w2 == w1 + Be16(n - 1) && w3 == w2 + window[lo..lo + n]
    ensures w3 + StoredRunBytes(false, window, next, hi) == w0 + StoredRunBytes(dictReset, window, lo, hi)
  {
    StoredRunUnfold(dictReset, window, lo, hi, n);
    AppendFour(w0, [if dictReset then 0x01 else 0x02], Be16(n - 1), window[lo..lo + n], StoredRunBytes(false, window, lo + n, hi));
  }

  lemma StoredRunUnfold(dictReset: bool, window: seq<Byte>, lo: int, hi: int, n: int)
    requires 0 <= lo < hi <= |window|
    requires n == if hi - lo < COMPRESSED_SIZE_MAX then hi - lo else COMPRESSED_SIZE_MAX
    ensures StoredRunBytes(dictReset, window, lo, hi) ==
            [if dictReset then 0x01 else 0x02] + Be16(n - 1) + window[lo..lo + n] + StoredRunBytes(false, window, lo + n, hi)
  {
  }

  /** Splitting a stored run: sizes in [1, 65536], all but the last 65536,
      the pieces concatenate to the run, and only the first may reset the
      dictionary. */
  lemma {:induction false} StoredChunksShape(dictReset: bool, data: seq<Byte>)
    ensures var cs := StoredChunks(dictReset, data);
      AllWellFormed(cs) && StoredData(cs) == data &&
      |cs| == (|data| + COMPRESSED_SIZE_MAX - 1) / COMPRESSED_SIZE_MAX &&
      (forall i :: 0 <= i < |cs| ==> cs[i].Stored? && (cs[i].dictReset <==> dictReset && i == 0)) &&
      (forall i :: 0 <= i < |cs| - 1 ==> |cs[i].data| == COMPRESSED_SIZE_MAX)
    decreases |data|
  {
    if |data| > 0 {
      var n := if |data| < COMPRESSED_SIZE_MAX then |data| else COMPRESSED_SIZE_MAX;
      var cs := StoredChunks(dictReset, data);
      var rest := StoredChunks(false, data[n..]);
      StoredChunksShape(false, data[n..]);
      assert cs == [Stored(dictReset, data[..n])] + rest;
      assert cs[1..] == rest;
      assert data == data[..n] + data[n..];
      forall i | 0 <= i < |cs| ensures cs[i].Stored? && (cs[i].dictReset <==> dictReset && i == 0) {
        if i > 0 { assert cs[i] == rest[i - 1]; }
      }
      forall i | 0 <= i < |cs| - 1 ensures |cs[i].data| == COMPRESSED_SIZE_MAX {
        if i > 0 { assert cs[i] == rest[i - 1]; }
      }
    }
  }

  /** Whether a coding unit is worth a compressed chunk: its header is two
      bytes longer than a stored chunk's. */
  predicate Compresses(uncompressedSize: int, compressedSize: int)
  {
    compressedSize + 2 < uncompressedSize
  }

  /** The sizes writeChunk works with: `measured` is the unit's size when
      the range coder finished it, and decides between the two forms;
      `size` is the size the chunks cover. The reset before a stored run
      may make the unit longer; a compressed chunk keeps the measured size. */
  predicate UnitShape(measured: int, size: int, compressedSize: int)
  {
    1 <= measured <= size <= UNCOMPRESSED_SIZE_MAX && 1 <= compressedSize <= COMPRESSED_SIZE_MAX &&
    (Compresses(measured, compressedSize) ==> size == measured)
  }

  /** The chunks writeChunk emits for one coding unit: the source bytes
      `unit` they cover and the range coder's output `payload`, by the
      decision on the `measured` size. */
  function UnitChunks(f: Flags, measured: int, unit: seq<Byte>, payload: seq<Byte>, props: Byte): seq<Chunk>
    requires UnitShape(measured, |unit|, |payload|)
  {
    if Compresses(measured, |payload|) then [CompressedChunk(f, measured, payload, props)]
    else StoredChunks(f.dictResetNeeded, unit)
  }

  /** Every properties byte among the chunks is `p`: a stream has one. */
  predicate PropsValue(cs: seq<Chunk>, p: Byte)
  {
    forall i :: 0 <= i < |cs| && cs[i].Lzma? && cs[i].props.Some? ==> cs[i].props.value == p
  }

  /** A coding unit's chunks carry the encoder's properties byte, if any. */
  lemma PropsValueUnit(cs: seq<Chunk>, f: Flags, measured: int, unit: seq<Byte>, payload: seq<Byte>, props: Byte)
    requires PropsValue(cs, props)
    requires UnitShape(measured, |unit|, |payload|)
    ensures PropsValue(cs + UnitChunks(f, measured, unit, payload, props), props)
  {
    var u := UnitChunks(f, measured, unit, payload, props);
    UnitChunksDecision(f, measured, unit, payload, props);
    forall i | 0 <= i < |cs + u| && (cs + u)[i].Lzma? && (cs + u)[i].props.Some?
      ensures (cs + u)[i].props.value == props
    {
      if i >= |cs| {
        assert (cs + u)[i] == u[i - |cs|];
      } else {
        assert (cs + u)[i] == cs[i];
      }
    }
  }

  /** The flags after a coding unit: a compressed chunk satisfies all three,
      a stored run clears the dictionary reset and re-arms the state reset. */
  function NextFlags(f: Flags, compressed: bool): Flags
  {
    if compressed then Flags(false, false, false)
    else Flags(false, true, f.propsNeeded)
  }

  /** The store-vs-compress decision: one compressed chunk of the measured
      size carrying exactly the coder's output when compressedSize + 2 is
      less than the measured size, otherwise stored chunks holding the
      unit's own bytes and no compressed output. */
  lemma UnitChunksDecision(f: Flags, measured: int, unit: seq<Byte>, payload: seq<Byte>, props: Byte)
    requires UnitShape(measured, |unit|, |payload|)
    ensures var cs := UnitChunks(f, measured, unit, payload, props);
      AllWellFormed(cs) && |cs| >= 1 &&
      (Compresses(measured, |payload|) <==> (exists i :: 0 <= i < |cs| && cs[i].Lzma?)) &&
      (Compresses(measured, |payload|) ==> cs == [CompressedChunk(f, measured, payload, props)]) &&
      (!Compresses(measured, |payload|) ==> (forall i :: 0 <= i < |cs| ==> cs[i].Stored?) && StoredData(cs) == unit)
  {
    var cs := UnitChunks(f, measured, unit, payload, props);
    if Compresses(measured, |payload|) {
      assert cs[0].Lzma?;
    } else {
      StoredChunksShape(f.dictResetNeeded, unit);
    }
  }

  /** The flags as a function of the chunks written so far: a dictionary
      reset is due before the first chunk, the properties until the first
      compressed chunk, and a state reset at the start and after a stored
      chunk. */
  function FlagsOf(cs: seq<Chunk>): Flags
  {
    Flags(cs == [], cs == [] || cs[|cs| - 1].Stored?, NoLzmaBefore(cs, |cs|))
  }

  predicate NoLzmaBefore(cs: seq<Chunk>, k: int)
    requires k <= |cs|
  {
    forall j :: 0 <= j < k ==> !cs[j].Lzma?
  }

  /** Emitting a coding unit with the flags FlagsOf(cs) leaves the flags
      NextFlags describes, which are again FlagsOf of the longer history. */
  lemma FlagsOfUnit(cs: seq<Chunk>, measured: int, unit: seq<Byte>, payload: seq<Byte>, props: Byte)
    requires UnitShape(measured, |unit|, |payload|)
    ensures var f := FlagsOf(cs);
      FlagsOf(cs + UnitChunks(f, measured, unit, payload, props)) == NextFlags(f, Compresses(measured, |payload|))
  {
    var f := FlagsOf(cs);
    var u := UnitChunks(f, measured, unit, payload, props);
    var all := cs + u;
    UnitChunksDecision(f, measured, unit, payload, props);
    assert all[|all| - 1] == u[|u| - 1];
    if Compresses(measured, |payload|) {
      assert all[|cs|].Lzma?;
    } else {
      forall j | 0 <= j < |all| ensures !all[j].Lzma? <==> j >= |cs| || !cs[j].Lzma? {
        if j >= |cs| { assert all[j] == u[j - |cs|]; } else { assert all[j] == cs[j]; }
      }
    }
  }

  /** Whether a chunk tells the decoder to reset its dictionary. */
  predicate SignalsDictReset(c: Chunk)
  {
    match c
    case Lzma(level, _, _, _) => level == 3
    case Stored(dictReset, _) => dictReset
  }

  /** The first chunk and no other resets the dictionary. */
  predicate DictResetFirstOnly(cs: seq<Chunk>)
  {
    forall i :: 0 <= i < |cs| ==> (SignalsDictReset(cs[i]) <==> i == 0)
  }

  /** A compressed chunk carries the properties byte exactly when it is the
      first compressed chunk. */
  predicate PropsOnFirstLzma(cs: seq<Chunk>)
  {
    forall i :: 0 <= i < |cs| && cs[i].Lzma? ==> (cs[i].props.Some? <==> NoLzmaBefore(cs, i))
  }

  /** A compressed chunk resets the coder state exactly when it is the first
      chunk, follows a stored chunk, or is the first compressed chunk. */
  predicate StateResetRule(cs: seq<Chunk>)
  {
    forall i :: 0 <= i < |cs| ==> StateResetAt(cs, i)
  }

  /** The state-reset rule for the chunk at index `i`. */
  predicate StateResetAt(cs: seq<Chunk>, i: int)
    requires 0 <= i < |cs|
  {
    cs[i].Lzma? ==> (cs[i].level >= 1 <==> i == 0 || cs[i - 1].Stored? || NoLzmaBefore(cs, i))
  }

  /** The reset discipline of a whole stream. */
  predicate Disciplined(cs: seq<Chunk>)
  {
    AllWellFormed(cs) && DictResetFirstOnly(cs) && PropsOnFirstLzma(cs) && StateResetRule(cs)
  }

  /** Emitting a coding unit by the flags of the history keeps the
      discipline. */
  lemma DisciplinedUnit(cs: seq<Chunk>, measured: int, unit: seq<Byte>, payload: seq<Byte>, props: Byte)
    requires Disciplined(cs)
    requires UnitShape(measured, |unit|, |payload|)
    ensures Disciplined(cs + UnitChunks(FlagsOf(cs), measured, unit, payload, props))
  {
    var u := UnitChunks(FlagsOf(cs), measured, unit, payload, props);
    UnitChunksDecision(FlagsOf(cs), measured, unit, payload, props);
    StreamBytesAppend(cs, u);
    if Compresses(measured, |payload|) {
      DisciplinedCompressed(cs, CompressedChunk(FlagsOf(cs), measured, payload, props));
    } else {
      StoredChunksShape(FlagsOf(cs).dictResetNeeded, unit);
      DisciplinedStored(cs, u);
    }
  }

  lemma DisciplinedCompressed(cs: seq<Chunk>, c: Chunk)
    requires Disciplined(cs) && WellFormed(c) && c.Lzma?
    requires c.level == ResetLevel(FlagsOf(cs)) && (c.props.Some? <==> FlagsOf(cs).propsNeeded)
    ensures Disciplined(cs + [c])
  {
    var all := cs + [c];
    var n := |cs|;
    assert forall i :: 0 <= i < n ==> all[i] == cs[i];
    assert all[n] == c;
    forall i | 0 <= i <= n ensures NoLzmaBefore(all, i) == NoLzmaBefore(cs, i) {
      assert forall j :: 0 <= j < i ==> all[j] == cs[j];
    }
    assert AllWellFormed(all);
    DictResetCompressed(cs, c);
    PropsCompressed(cs, c);
    StateResetCompressed(cs, c);
  }

  lemma DictResetCompressed(cs: seq<Chunk>, c: Chunk)
    requires DictResetFirstOnly(cs) && c.Lzma? && c.level == ResetLevel(FlagsOf(cs))
    ensures DictResetFirstOnly(cs + [c])
  {
    var all := cs + [c];
    forall i | 0 <= i < |all| ensures SignalsDictReset(all[i]) <==> i == 0 {
      if i < |cs| { assert all[i] == cs[i]; }
    }
  }

  lemma PropsCompressed(cs: seq<Chunk>, c: Chunk)
    requires PropsOnFirstLzma(cs) && c.Lzma? && (c.props.Some? <==> FlagsOf(cs).propsNeeded)
    requires forall i :: 0 <= i <= |cs| ==> NoLzmaBefore(cs + [c], i) == NoLzmaBefore(cs, i)
    ensures PropsOnFirstLzma(cs + [c])
  {
    var all := cs + [c];
    forall i | 0 <= i < |all| && all[i].Lzma? ensures all[i].props.Some? <==> NoLzmaBefore(all, i) {
      if i < |cs| { assert all[i] == cs[i]; }
    }
  }

  lemma StateResetCompressed(cs: seq<Chunk>, c: Chunk)
    requires StateResetRule(cs) && c.Lzma? && c.level == ResetLevel(FlagsOf(cs))
    requires forall i :: 0 <= i <= |cs| ==> NoLzmaBefore(cs + [c], i) == NoLzmaBefore(cs, i)
    ensures StateResetRule(cs + [c])
  {
    var all := cs + [c];
    forall i | 0 <= i < |all| ensures StateResetAt(all, i) {
      if i < |cs| {
        StateResetOld(cs, c, i);
      } else {
        StateResetNew(cs, c);
      }
    }
  }

  /** The rule at an index of the old history survives the append. */
  lemma StateResetOld(cs: seq<Chunk>, c: Chunk, i: int)
    requires StateResetRule(cs) && 0 <= i < |cs|
    requires NoLzmaBefore(cs + [c], i) == NoLzmaBefore(cs, i)
    ensures StateResetAt(cs + [c], i)
  {
    var all := cs + [c];
    assert all[i] == cs[i];
    assert StateResetAt(cs, i);
    if i > 0 {
      assert all[i - 1] == cs[i - 1];
    }
  }

  /** The appended chunk obeys the rule because its level is ResetLevel. */
  lemma StateResetNew(cs: seq<Chunk>, c: Chunk)
    requires c.Lzma? && c.level == ResetLevel(FlagsOf(cs))
    requires NoLzmaBefore(cs + [c], |cs|) == NoLzmaBefore(cs, |cs|)
    ensures StateResetAt(cs + [c], |cs|)
  {
    var all := cs + [c];
    assert all[|cs|] == c;
    if |cs| > 0 {
      assert all[|cs| - 1] == cs[|cs| - 1];
    }
  }

  lemma DisciplinedStored(cs: seq<Chunk>, u: seq<Chunk>)
    requires Disciplined(cs) && AllWellFormed(u)
    requires forall i :: 0 <= i < |u| ==> u[i].Stored? && (u[i].dictReset <==> cs == [] && i == 0)
    ensures Disciplined(cs + u)
  {
    var all := cs + u;
    forall i | 0 <= i < |all| ensures all[i] == if i < |cs| then cs[i] else u[i - |cs|] {
    }
    assert AllWellFormed(all);
    assert DictResetFirstOnly(all);
    forall i | 0 <= i < |all| && all[i].Lzma? ensures i < |cs| && all[i] == cs[i] {
    }
    forall i | 0 <= i < |cs| ensures NoLzmaBefore(all, i) == NoLzmaBefore(cs, i) {
    }
    assert PropsOnFirstLzma(all);
    assert StateResetRule(all) by {
      forall i | 0 <= i < |all| ensures StateResetAt(all, i) {
        if all[i].Lzma? {
          assert StateResetAt(cs, i);
          assert i > 0 ==> all[i - 1] == cs[i - 1];
        }
      }
    }
  }

  /** `cs` accounts for the source bytes `src` in order: a compressed chunk
      covers as many bytes as its uncompressed size, a stored chunk covers
      exactly the bytes it holds. */
  predicate Explains(cs: seq<Chunk>, src: seq<Byte>)
    decreases |cs|
  {
    if cs == [] then src == []
    else
      match cs[0]
      case Lzma(_, u, _, _) => 0 <= u <= |src| && Explains(cs[1..], src[u..])
      case Stored(_, data) => data <= src && Explains(cs[1..], src[|data|..])
  }

  lemma {:induction false} ExplainsAppend(a: seq<Chunk>, x: seq<Byte>, b: seq<Chunk>, y: seq<Byte>)
    requires Explains(a, x) && Explains(b, y)
    ensures Explains(a + b, x + y)
    decreases |a|
  {
    if a == [] {
      assert a + b == b && x + y == y;
    } else {
      assert (a + b)[0] == a[0] && (a + b)[1..] == a[1..] + b;
      var k := if a[0].Lzma? then a[0].uncompressedSize else |a[0].data|;
      ExplainsAppend(a[1..], x[k..], b, y);
      assert (x + y)[k..] == x[k..] + y;
      if a[0].Stored? {
        assert a[0].data <= x + y;
      }
    }
  }

  lemma {:induction false} StoredChunksExplain(dictReset: bool, data: seq<Byte>)
    ensures Explains(StoredChunks(dictReset, data), data)
    decreases |data|
  {
    if |data| > 0 {
      var n := if |data| < COMPRESSED_SIZE_MAX then |data| else COMPRESSED_SIZE_MAX;
      var cs := StoredChunks(dictReset, data);
      StoredChunksExplain(false, data[n..]);
      assert cs[0] == Stored(dictReset, data[..n]);
      assert cs[1..] == StoredChunks(false, data[n..]);
    }
  }

  /** Every coding unit's chunks account for exactly the unit's bytes. */
  lemma UnitChunksExplain(f: Flags, measured: int, unit: seq<Byte>, payload: seq<Byte>, props: Byte)
    requires UnitShape(measured, |unit|, |payload|)
    ensures Explains(UnitChunks(f, measured, unit, payload, props), unit)
  {
    if Compresses(measured, |payload|) {
      var cs := UnitChunks(f, measured, unit, payload, props);
      assert cs[1..] == [];
    } else {
      StoredChunksExplain(f.dictResetNeeded, unit);
    }
  }

  /** Logging one coding unit: the longer history still covers the
      source bytes in order and its bytes extend the old ones; when the
      flags were those of the history, the discipline holds of the longer
      one and the new flags are again those of the history. */
  lemma UnitStep(cs: seq<Chunk>, src: seq<Byte>, f: Flags, measured: int, unit: seq<Byte>, payload: seq<Byte>, props: Byte)
    requires AllWellFormed(cs) && Explains(cs, src)
    requires UnitShape(measured, |unit|, |payload|)
    ensures var added := UnitChunks(f, measured, unit, payload, props);
      AllWellFormed(added) && AllWellFormed(cs + added) && Explains(cs + added, src + unit) &&
      StreamBytes(cs + added) == StreamBytes(cs) + StreamBytes(added)
    ensures var added := UnitChunks(f, measured, unit, payload, props);
      Disciplined(cs) && f == FlagsOf(cs) ==>
        Disciplined(cs + added) && FlagsOf(cs + added) == NextFlags(f, Compresses(measured, |payload|))
  {
    var added := UnitChunks(f, measured, unit, payload, props);
    UnitChunksDecision(f, measured, unit, payload, props);
    UnitChunksExplain(f, measured, unit, payload, props);
    ExplainsAppend(cs, src, added, unit);
    StreamBytesAppend(cs, added);
    if Disciplined(cs) && f == FlagsOf(cs) {
      DisciplinedUnit(cs, measured, unit, payload, props);
      FlagsOfUnit(cs, measured, unit, payload, props);
    }
  }

  /** What writeChunk writes for one coding unit, the first `size` bytes
      of `window`, is the encoding of the unit's chunks. */
  lemma UnitBytes(f: Flags, window: seq<Byte>, measured: int, size: int, payload: seq<Byte>, props: Byte,
                  before: seq<Byte>, after: seq<Byte>)
    requires size <= |window| && UnitShape(measured, size, |payload|)
    requires Compresses(measured, |payload|) ==> after == before + ChunkBytes(CompressedChunk(f, measured, payload, props))
    requires !Compresses(measured, |payload|) ==> after == before + StoredRunBytes(f.dictResetNeeded, window, 0, size)
    ensures after == before + StreamBytes(UnitChunks(f, measured, window[..size], payload, props))
  {
    var added := UnitChunks(f, measured, window[..size], payload, props);
    if Compresses(measured, |payload|) {
      var c := CompressedChunk(f, measured, payload, props);
      assert added == [c] + [];
      StreamBytesCons(c, []);
      assert ChunkBytes(c) + [] == ChunkBytes(c);
    } else {
      StoredRunBytesAreChunks(f.dictResetNeeded, window, 0, size);
      assert window[0..size] == window[..size];
    }
  }
}
