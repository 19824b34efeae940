# LZMA2 chunk encoder

A Dafny model of the chunk-framing layer of the XZ for Java LZMA2 encoder,
`LZMA2OutputStream`. The encoder takes bytes from callers and hands them to
the LZ window. Each coding unit the LZMA encoder completes becomes one
LZMA2 chunk, or several. A unit is written as a compressed chunk when its
compressed size plus 2 is less than its uncompressed size (the compressed
chunk's header is two bytes longer); otherwise it becomes a run of stored
chunks of at most 64 KiB each. `finish` and `close` end the stream with the end marker `0x00`.

The model has four modules:

- `Lzma2Format` (`lzma2_format.dfy`) holds the wire format. It has the
  `Chunk` datatype, the byte-exact encoding of a chunk (`ChunkBytes`) and
  of a stream (`StreamBytes`), and a parser (`ParseChunk`, `ParseStream`)
  that reads the encoding back. It also has two pure helpers of the class:
  `getExtraSizeBefore` and the properties-byte formula. Java's `int` range
  check at the head of `write` is written out with 32-bit wrap-around.
- `ChunkRules` (`chunk_rules.dfy`) holds the encoder's rules as functions
  of the three reset flags:
  - the store-vs-compress decision;
  - the control byte;
  - the splitting of a stored run;
  - the flags that follow a unit.

  It also states the reset discipline of a whole stream:
  - a dictionary reset only on the first chunk;
  - the properties byte only on the first compressed chunk;
  - a state reset exactly at the first chunk, after a stored chunk, and on
    the first compressed chunk.

  It proves that the flags written after any history are a function of
  that history (`FlagsOf`).
- `Collaborators` (`collaborators.dfy`) holds the objects the encoder
  drives:
  - the output stream (`Sink`): any of its operations may fail, and a
    failed write may have passed on any prefix of its bytes;
  - the LZ window, LZMA encoder and range encoder, as one `Coder` class.
    Its behaviour is chosen freely within its contract.
- `Lzma2Output` (`lzma2_output.dfy`) holds the class
  `Lzma2OutputStream`. It has the source's fields and methods, and a ghost
  history: the chunks written so far, the bytes accepted, and whether
  every sink operation so far has succeeded (`intact`).
  - The object invariant `Valid()` ties the fields to that history.
  - While the sink has never failed, the sink's bytes after the stream
    started are exactly the chunks' encoding. They are followed by `0x00`
    once the stream is finished.
  - While the sink has never failed, the flags are `FlagsOf` the chunks,
    and the chunks obey the reset discipline.
  - The chunks always cover, in order, the bytes taken from callers.
    `pendingSize` is the number of bytes taken but not yet covered.
  - Every properties byte among the chunks is the stream's own `props`.

## Model

| member | source | states |
|---|---|---|
| Lzma2Format.ExtraSizeBefore | src/org/tukaani/xz/LZMA2OutputStream.java:38-41 | the extra space is never negative and makes the dictionary span at least one 64 KiB chunk; when it is non-zero, it makes the dictionary span exactly 64 KiB |
| Lzma2Format.PropsByte | src/org/tukaani/xz/LZMA2OutputStream.java:68 | for lc ≤ 8, lp ≤ 4, pb ≤ 4, `(pb*5+lp)*9+lc` is below 225, and lc, lp and pb can be read back from it (`% 9`, `/ 9 % 5`, `/ 45`) |
| Lzma2Format.Be16 | src/org/tukaani/xz/LZMA2OutputStream.java:141-142 | writeShort writes two bytes whose big-endian value is the argument modulo 2^16 |
| Lzma2Format.ControlByte | src/org/tukaani/xz/LZMA2OutputStream.java:124-139 | a chunk's first byte is never the end marker; it is ≥ 0x80 exactly for compressed chunks, whose reset level and size bits 16-20 can be read back from it; a stored chunk's first byte is 0x01 exactly when it resets the dictionary and 0x02 otherwise |
| Lzma2Format.RangeRejectedIff | src/org/tukaani/xz/LZMA2OutputStream.java:78-79 | evaluated in Java int arithmetic, the bounds test rejects exactly those off/len that do not address a sub-range of the buffer, including an off+len that overflows |
| Lzma2Format.Wrap32 | src/org/tukaani/xz/LZMA2OutputStream.java:78 | the sum `off + len` as a Java int: in the 32-bit range and congruent to the true sum modulo 2^32 |
| Lzma2Format.ParseChunkBytes | src/org/tukaani/xz/LZMA2OutputStream.java:138-159 | whatever follows it, the encoding of any well-formed chunk parses back to exactly that chunk and its length; both sizes, the reset level and the props byte are recovered from the header |
| Lzma2Format.ParseChunk | src/org/tukaani/xz/LZMA2OutputStream.java:138-159 | a chunk the parser reads is well formed, and the bytes it consumed are that chunk's encoding |
| Lzma2Format.ParseStream | src/org/tukaani/xz/LZMA2OutputStream.java:179 | a stream the parser accepts is the encoding of its chunks followed by one end marker |
| Lzma2Format.ParseStreamBytes | src/org/tukaani/xz/LZMA2OutputStream.java:176-179 | any run of well-formed chunks, followed by the end marker, parses back to exactly that run |
| ChunkRules.ResetLevel | src/org/tukaani/xz/LZMA2OutputStream.java:126-136 | the reset level is ≥ 2 exactly when propsNeeded, is 3 exactly when propsNeeded and dictResetNeeded, and is ≥ 1 exactly when propsNeeded or stateResetNeeded |
| ChunkRules.CompressedChunk | src/org/tukaani/xz/LZMA2OutputStream.java:122-147 | writeLZMA's chunk is well formed, carries the given sizes and payload, and carries the props byte exactly when propsNeeded |
| ChunkRules.CompressedControl | src/org/tukaani/xz/LZMA2OutputStream.java:124-138 | the control byte is 0xE0, 0xC0, 0xA0 or 0x80 by the flags, plus bits 16-20 of uncompressedSize-1; for a unit of at most 64 KiB it is one of those four values |
| ChunkRules.CompressedChunkWrites | src/org/tukaani/xz/LZMA2OutputStream.java:138-147 | the control byte, the two BE16 size-1 fields, the props byte only when propsNeeded, and the payload, written one after the other, append exactly the compressed chunk's encoding |
| ChunkRules.StoredChunks | src/org/tukaani/xz/LZMA2OutputStream.java:155-162 | the stored sub-chunks of a run are well formed and all stored |
| ChunkRules.StoredChunksShape | src/org/tukaani/xz/LZMA2OutputStream.java:155-162 | a run of n bytes becomes ⌈n/65536⌉ stored chunks with sizes in [1, 65536], all but the last exactly 65536; their data concatenate to the run; only the first may reset the dictionary, and it does exactly when dictResetNeeded was set on entry |
| ChunkRules.StoredRunBytesAreChunks | src/org/tukaani/xz/LZMA2OutputStream.java:155-162 | the bytes writeUncompressed writes, `[0x01 or 0x02][BE16 size-1][data]` per piece, are the encoding of those stored chunks |
| ChunkRules.StoredRunWrites | src/org/tukaani/xz/LZMA2OutputStream.java:156-161 | one round of the sub-chunk loop appends its control byte, size and data, and leaves the stored run of the remaining bytes, without a dictionary reset, still to write |
| ChunkRules.UnitChunksDecision | src/org/tukaani/xz/LZMA2OutputStream.java:104-115 | a unit yields a compressed chunk exactly when compressedSize + 2 is less than the size measured when the range coder finished, and then exactly one chunk of that size with the coder's output; otherwise it yields only stored chunks, which hold the unit's own bytes as re-read after the reset, and the compressed output is dropped |
| ChunkRules.FlagsOfUnit | src/org/tukaani/xz/LZMA2OutputStream.java:149-151 | the flags after a unit are a function of the chunks written so far: after a compressed chunk all three are clear; after a stored run dictResetNeeded is clear, stateResetNeeded is set and propsNeeded is unchanged (lines 161, 164) |
| ChunkRules.DisciplinedUnit | src/org/tukaani/xz/LZMA2OutputStream.java:30-32 | a unit emitted with the flags of the history keeps the stream's reset discipline: a dictionary reset (0x01 or level 3) only on the first chunk, the props byte only on the first compressed chunk, and a state reset exactly at the start, after a stored chunk, or on the first compressed chunk |
| ChunkRules.UnitChunksExplain | src/org/tukaani/xz/LZMA2OutputStream.java:104-117 | a unit's chunks cover exactly the unit's bytes |
| ChunkRules.UnitStep | src/org/tukaani/xz/LZMA2OutputStream.java:103-120 | appending a unit's chunks to a history keeps it well formed and covering the source bytes in order; when the flags were those of the history, the reset discipline still holds and the new flags are again those of the history |
| ChunkRules.PropsValueUnit | src/org/tukaani/xz/LZMA2OutputStream.java:145 | the chunks of a unit carry no properties byte other than the stream's own, so a history whose properties bytes are all `props` stays so |
| ChunkRules.UnitBytes | src/org/tukaani/xz/LZMA2OutputStream.java:109-115 | what writeChunk writes for a unit, on either branch, is the encoding of the unit's chunks |
| Lzma2Output.HistoryStep | src/org/tukaani/xz/LZMA2OutputStream.java:103-120 | closing out a unit extends the ghost history by its chunks and keeps every part of the object invariant's history, including that every properties byte is the stream's own |
| Lzma2Output.Lzma2OutputStream.constructor | src/org/tukaani/xz/LZMA2OutputStream.java:29-36 | all three flags start set, nothing is pending, the stream is neither finished nor faulted, and props is the formula of line 68 |
| Lzma2Output.Lzma2OutputStream.WriteByte | src/org/tukaani/xz/LZMA2OutputStream.java:71-75 | write(int) is a one-byte write of the low eight bits of its argument: never a bounds error; a latched exception is rethrown and a finished stream refused, each with no state change; otherwise it accepts that byte, or latches the I/O fault having accepted at most it; pendingSize rises by the bytes accepted and falls by the bytes the new chunks cover; earlier chunks stay a prefix; the encoder is never put into flushing or finishing mode, and only leaves flushing mode |
| Lzma2Output.Lzma2OutputStream.Write | src/org/tukaani/xz/LZMA2OutputStream.java:77-101 | checks in order: a bad range fails with no state change, then a latched exception is rethrown with no state change, then a finished stream fails with no state change. Otherwise it succeeds having accepted exactly `buf[off..off+len]`, or it latches the I/O fault, having accepted only a prefix. pendingSize rises by the bytes accepted and falls by the bytes the new chunks cover; the chunks written before, and the bytes they cover, stay a prefix; write never calls setFlushing or setFinishing, so the encoder's mode stays, except that refilling the window ends a flush |
| Lzma2Output.Lzma2OutputStream.FillLoop | src/org/tukaani/xz/LZMA2OutputStream.java:87-100 | the fill loop consumes the whole range or stops at the first I/O failure, which it stores in `exception`; the encoder's mode stays, except that refilling the window ends a flush |
| Lzma2Output.Lzma2OutputStream.Latch | src/org/tukaani/xz/LZMA2OutputStream.java:97-98 | the catch block stores the fault in `exception` and keeps the object invariant |
| Lzma2Output.Lzma2OutputStream.FillAndEncode | src/org/tukaani/xz/LZMA2OutputStream.java:89-95 | one round: the window takes `used` bytes and pendingSize rises by them; when encodeForLZMA2 reports the unit complete it is closed out (the covered bytes grow and the unit is emptied, unless the sink fails), and otherwise neither the chunks nor the sink change; a round that takes nothing closes out the unit of a full window; the mode changes only from flushing to normal, by fillWindow |
| Lzma2Output.Lzma2OutputStream.WriteChunk | src/org/tukaani/xz/LZMA2OutputStream.java:103-120 | on success, the unit's chunks are appended to the history and their encoding to the sink; the flags become NextFlags; the covered bytes, which may be more than the measured size after the reset of a stored run, leave the window and pendingSize falls by their number; the encoder's unit size and the range coder's buffer are emptied, and the encoder was reset exactly when the unit was stored. On failure, history and pendingSize are unchanged |
| Lzma2Output.Lzma2OutputStream.WriteUnit | src/org/tukaani/xz/LZMA2OutputStream.java:104-115 | the range coder is finished; the +2 rule is applied to the size measured then; a compressed chunk carries that size, while a stored run covers the size re-read after the reset, which is no smaller; the LZMA encoder is reset exactly once on the stored path and not at all on the compressed one |
| Lzma2Output.Lzma2OutputStream.CloseUnit | src/org/tukaani/xz/LZMA2OutputStream.java:116-119 | pendingSize falls by the unit's size, the unit leaves the window, the encoder's unit size is back to 0, and the range coder's buffer is emptied |
| Lzma2Output.Lzma2OutputStream.WriteLzma | src/org/tukaani/xz/LZMA2OutputStream.java:122-152 | on success, the sink gains exactly the compressed chunk for the old flags and all three flags are cleared; on failure the flags are unchanged |
| Lzma2Output.Lzma2OutputStream.WriteUncompressed | src/org/tukaani/xz/LZMA2OutputStream.java:154-165 | on success, the sink gains exactly the stored run of the unit's bytes and dictResetNeeded is clear; stateResetNeeded is set exactly on success and otherwise unchanged; dictResetNeeded is never set |
| Lzma2Output.StoredProgressStep | src/org/tukaani/xz/LZMA2OutputStream.java:156-161 | control byte, size-1 and the data of one sub-chunk move the stored loop's progress on by that sub-chunk's size, with the dictionary reset cleared |
| Lzma2Output.StoredProgressDone | src/org/tukaani/xz/LZMA2OutputStream.java:155-162 | when the stored loop has covered the whole unit, the sink holds the whole run and no dictionary reset is due |
| Lzma2Output.Lzma2OutputStream.WriteStoredChunk | src/org/tukaani/xz/LZMA2OutputStream.java:156-161 | one stored sub-chunk of at most 64 KiB: control byte from dictResetNeeded, then size-1, then the bytes copied from the window; afterwards dictResetNeeded is clear and the loop's progress has moved on by the sub-chunk's size |
| Lzma2Output.Lzma2OutputStream.Drain | src/org/tukaani/xz/LZMA2OutputStream.java:174-177 | the drain loop (also lines 191-194) closes out units until pendingSize is 0; when the sink fails, bytes are still pending |
| Lzma2Output.Lzma2OutputStream.WriteEndMarker | src/org/tukaani/xz/LZMA2OutputStream.java:167-182 | a latched exception is rethrown with no state change; a finished stream is left unchanged, so the end marker is never written twice; otherwise the stream is drained, one 0x00 is written as the last byte, and the stream becomes finished; it never latches, and earlier chunks stay a prefix |
| Lzma2Output.Lzma2OutputStream.DrainAndMark | src/org/tukaani/xz/LZMA2OutputStream.java:171-181 | on an unfinished stream: the encoder is left in finishing mode and drained; on success nothing is pending and the stream is finished; on failure it is not; no exception is latched and earlier chunks stay a prefix |
| Lzma2Output.MarkerStep | src/org/tukaani/xz/LZMA2OutputStream.java:179-180 | the end marker after the chunks turns the history of an open stream into that of a finished one |
| Lzma2Output.Lzma2OutputStream.Flush | src/org/tukaani/xz/LZMA2OutputStream.java:184-198 | a latched exception is rethrown with no state change; flush never writes the end marker and never sets finished; on success nothing is pending; on an unfinished stream the encoder is left in flushing mode, and a finished stream leaves the encoder untouched and writes nothing; the sink is flushed exactly once, and only when no exception was latched and the drain succeeded; it never latches, and earlier chunks stay a prefix |
| Lzma2Output.Lzma2OutputStream.Finish | src/org/tukaani/xz/LZMA2OutputStream.java:200-203 | the end marker, then the sink's finish, which is called exactly once, and only when no exception was latched and the stream is finished; it never latches, and a finished stream stays finished, so no second end marker follows; success keeps the sink's record of no failure, and then, while the sink has never failed, the bytes written parse back to the stream's chunks, these cover every byte accepted, and every properties byte among them is the stream's own; earlier chunks stay a prefix |
| Lzma2Output.Lzma2OutputStream.Close | src/org/tukaani/xz/LZMA2OutputStream.java:205-208 | as finish, with the sink's close, including the parse-back of the output on success: it never latches, success keeps the sink's record of no failure, and a finished stream stays finished; the sink is closed exactly once, and only when no exception was latched and the end marker is written, so a failure before it leaves the sink open |
| Lzma2Output.Lzma2OutputStream.CompleteStream | src/org/tukaani/xz/LZMA2OutputStream.java:179-180 | a finished stream whose sink never failed is a complete LZMA2 stream of its chunks, and these cover every byte accepted; every properties byte among them is the stream's own |

## Left out

- getMemoryUsage (lines 43-50) is not modelled. It only forwards to `LZMAEncoder.getMemoryUsage`, which is not part of this model.
- The constructor does not model the wiring of the collaborators (lines 52-66): `DataOutputStream`, the range encoder, `LZMAEncoder.getInstance` and the preset dictionary. It takes a sink, a coder and lc/lp/pb.
- The match finding, range coding and window mechanics of `LZEncoder`, `LZMAEncoder` and `RangeEncoder` are not modelled. `Coder` is an interface whose methods choose their results freely within their contracts.
  - The `Coder` contract assumes the following of those classes:
    - `encodeForLZMA2` always completes a unit when the window is full (`Coder.EncodeForLZMA2`);
    - in flushing or finishing mode, a non-empty window always yields a non-empty unit, which is what makes the drain loops end;
    - `fillWindow` takes at least one byte whenever the window has room and bytes are offered (`Coder.FillWindow`);
    - `fillWindow` turns flushing mode back into normal mode and leaves the other modes as they are (`Coder.FillWindow`); it has no precondition on the mode, since after a failed `finish` the stream is still writable;
    - the range coder's output for a unit is 1 to 65536 bytes (`Coder.Finish`);
    - a unit is at most 2 MiB, and never more than the bytes pending (`Coder.Valid`).
  - `lzma.reset()` may keep the unit's size or make it larger, up to the pending bytes and the 2 MiB bound (`Coder.Reset`), so the size re-read at line 113 is at least the size read at line 105. The +2 test uses the first size; the stored run and the `pendingSize` decrement use the second.
- `outData` is not modelled separately. Each field goes straight to the sink, and a failing two-byte `writeShort` may have passed on its first byte (`WrotePrefix`). The sink's own `flush`, `finish` and `close` are only counted.
- Exception objects are not modelled. An I/O fault is a value, `IoFault`, and a latched exception is `Some(fault)`.
- The ranges of lc, lp and pb are checked by `LZMA2Options`. Here they are a precondition of `PropsByte`. The dictionary size is checked there too; `ExtraSizeBefore` is defined for every `int`, so it needs no bound.
- `control |= (uncompressedSize - 1) >>> 16` (line 138) is modelled as an addition. The base control byte leaves the five low bits clear, so the two agree.
- Lzma2Output.Lzma2OutputStream.Flush follows the code: it does not store a fault in `exception`. The same goes for WriteEndMarker, Finish and Close. Only `write` latches one (lines 97-99).
- Lzma2Output.Lzma2OutputStream.Close follows the code: with a latched exception it throws before the sink's close.
- Lzma2Output.Lzma2OutputStream.Valid states the sink's exact contents only while `intact`, that is, only while no sink operation has failed. After a failed flush, finish or close, the stream is not faulted and stays usable, but the model no longer says what the sink holds. After any failed sink operation, the flags may also differ from `FlagsOf(chunks)`, and the reset discipline is no longer stated. For example, a stored run that fails in its second 64 KiB sub-chunk has already cleared `dictResetNeeded` (line 161), while `chunks` records no part of that unit.
- Integer widths: only `off + len` in `write` is evaluated with 32-bit wrap-around. `pendingSize` and the sizes are bounded by the window and by the 2 MiB unit size, so they cannot overflow.
