/** The LZMA2 chunk format as the encoder writes it: bytes, the two size
    ceilings, the chunk kinds and their byte-exact encoding, and a parser
    that reads the encoding back. */
module Lzma2Format {

  /** An octet on the wire. */
  type Byte = x: int | 0 <= x < 256

  datatype Option<T> = None | Some(value: T)

  /** Largest payload of one chunk (COMPRESSED_SIZE_MAX = 64 << 10). */
  const COMPRESSED_SIZE_MAX: int := 0x1_0000

  /** Uncompressed sizes of a compressed chunk are stored in 21 bits
      (5 bits in the control byte plus a 16-bit field). */
  const UNCOMPRESSED_SIZE_MAX: int := 0x20_0000

  /** The control byte that terminates an LZMA2 stream. */
  const END_MARKER: Byte := 0x00

  /** The value of a big-endian 16-bit field. */
  function Be16Value(hi: int, lo: int): int { hi * 256 + lo }

  /** Java's DataOutputStream.writeShort: the low 16 bits of `v`, high byte first. */
  function Be16(v: int): (r: seq<Byte>)
    ensures |r| == 2 && Be16Value(r[0], r[1]) == v % 0x1_0000
  {
    [(v % 0x1_0000) / 256, v % 256]
  }

  /** A chunk as a decoder sees it. For a compressed chunk `level` is the
      reset level (0 none, 1 state, 2 state and properties, 3 dictionary,
      state and properties) and `props` is present exactly for levels 2 and 3. */
  datatype Chunk =
    | Lzma(level: int, uncompressedSize: int, props: Option<Byte>, payload: seq<Byte>)
    | Stored(dictReset: bool, data: seq<Byte>)

  predicate WellFormed(c: Chunk)
  {
    match c
    case Lzma(level, u, props, payload) =>
      0 <= level <= 3 && 1 <= u <= UNCOMPRESSED_SIZE_MAX &&
      1 <= |payload| <= COMPRESSED_SIZE_MAX && (props.Some? <==> level >= 2)
    case Stored(_, data) => 1 <= |data| <= COMPRESSED_SIZE_MAX
  }

  predicate AllWellFormed(cs: seq<Chunk>)
  {
    forall i :: 0 <= i < |cs| ==> WellFormed(cs[i])
  }

  /** The first byte of a chunk. For a compressed chunk the bits above 16 of
      `uncompressedSize - 1` are OR-ed into the five low bits, which the
      base value 0x80 + level * 0x20 leaves clear, so the OR is a sum. */
  function ControlByte(c: Chunk): (r: Byte)
    requires WellFormed(c)
    ensures r != END_MARKER
    ensures c.Lzma? <==> r >= 0x80
    ensures c.Lzma? ==> (r - 0x80) / 0x20 == c.level && r % 0x20 == (c.uncompressedSize - 1) / 0x1_0000
    ensures c.Stored? ==> (r == 0x01 <==> c.dictReset) && (r == 0x02 <==> !c.dictReset)
  {
    match c
    case Lzma(level, u, _, _) => 0x80 + level * 0x20 + (u - 1) / 0x1_0000
    case Stored(dictReset, _) => if dictReset then 0x01 else 0x02
  }

  /** The bytes of one chunk: control byte, big-endian `size - 1` fields,
      the properties byte when present, then the payload. */
  function ChunkBytes(c: Chunk): seq<Byte>
    requires WellFormed(c)
  {
    match c
    case Lzma(_, u, props, payload) =>
      [ControlByte(c)] + Be16(u - 1) + Be16(|payload| - 1)
      + (if props.Some? then [props.value] else []) + payload
    case Stored(_, data) =>
      [ControlByte(c)] + Be16(|data| - 1) + data
  }

  /** Concatenation regroups freely; used to line up bytes written one
      field at a time with the definition of a chunk. */
  lemma AppendAssoc(a: seq<Byte>, b: seq<Byte>, c: seq<Byte>)
    ensures a + (b + c) == (a + b) + c
  {
  }

  /** The two halves of a slice are slices themselves. */
  lemma SliceHalves(s: seq<Byte>, lo: int, hi: int, n: int)
    requires 0 <= lo <= lo + n <= hi <= |s|
    ensures s[lo..hi][..n] == s[lo..lo + n] && s[lo..hi][n..] == s[lo + n..hi]
  {
  }

  /** A stream that held `start` and then the bytes of `cs` holds the
      bytes of `cs + more` once the bytes of `more` follow. */
  lemma StreamGrows(start: seq<Byte>, cs: seq<Chunk>, more: seq<Chunk>, before: seq<Byte>, after: seq<Byte>)
    requires AllWellFormed(cs) && AllWellFormed(more)
    requires before == start + StreamBytes(cs) && after == before + StreamBytes(more)
    ensures AllWellFormed(cs + more) && after == start + StreamBytes(cs + more)
  {
    StreamBytesAppend(cs, more);
    AppendAssoc(start, StreamBytes(cs), StreamBytes(more));
  }

  /** Splitting `p` at `k` moves its first `k` bytes to the end of `a`. */
  lemma SplitAppend(a: seq<Byte>, p: seq<Byte>, k: int)
    requires 0 <= k <= |p|
    ensures a + p == (a + p[..k]) + p[k..]
  {
    assert p == p[..k] + p[k..];
    AppendAssoc(a, p[..k], p[k..]);
  }

  /** Appending two adjacent slices appends the slice they make up. */
  lemma AppendSlices(a: seq<Byte>, s: seq<Byte>, lo: int, mid: int, hi: int)
    requires 0 <= lo <= mid <= hi <= |s|
    ensures (a + s[lo..mid]) + s[mid..hi] == a + s[lo..hi]
  {
    assert s[lo..hi] == s[lo..mid] + s[mid..hi];
    AppendAssoc(a, s[lo..mid], s[mid..hi]);
  }

  /** Appending four fields at once appends them one after the other. */
  lemma AppendFour(out: seq<Byte>, a: seq<Byte>, b: seq<Byte>, c: seq<Byte>, d: seq<Byte>)
    ensures out + (a + b + c + d) == out + a + b + c + d
  {
    AppendAssoc(out, a + b + c, d);
    AppendAssoc(out, a + b, c);
    AppendAssoc(out, a, b);
  }

  /** Appending five fields at once appends them one after the other. */
  lemma AppendFields(out: seq<Byte>, a: seq<Byte>, b: seq<Byte>, c: seq<Byte>, d: seq<Byte>, e: seq<Byte>)
    ensures out + (a + b + c + d + e) == out + a + b + c + d + e
  {
    AppendAssoc(out, a + b + c + d, e);
    AppendAssoc(out, a + b + c, d);
    AppendAssoc(out, a + b, c);
    AppendAssoc(out, a, b);
  }

  /** Five writes one after the other (w0 before, w5 after) append the
      five fields at once. */
  lemma WritesChain(w0: seq<Byte>, w1: seq<Byte>, w2: seq<Byte>, w3: seq<Byte>, w4: seq<Byte>, w5: seq<Byte>,
                    a: seq<Byte>, b: seq<Byte>, c: seq<Byte>, d: seq<Byte>, e: seq<Byte>)
    requires w1 == w0 + a && w2 == w1 + b && w3 == w2 + c && w4 == w3 + d && w5 == w4 + e
    ensures w5 == w0 + (a + b + c + d + e)
  {
    AppendFields(w0, a, b, c, d, e);
  }

  /** The bytes of a run of chunks, without the end marker. */
  function StreamBytes(cs: seq<Chunk>): seq<Byte>
    requires AllWellFormed(cs)
  {
    if cs == [] then [] else ChunkBytes(cs[0]) + StreamBytes(cs[1..])
  }

  lemma {:induction false} StreamBytesAppend(a: seq<Chunk>, b: seq<Chunk>)
    requires AllWellFormed(a) && AllWellFormed(b)
    ensures AllWellFormed(a + b)
    ensures StreamBytes(a + b) == StreamBytes(a) + StreamBytes(b)
  {
    if a == [] {
      assert a + b == b;
    } else {
      var ab := a + b;
      assert ab[0] == a[0] && ab[1..] == a[1..] + b;
      StreamBytesAppend(a[1..], b);
      assert AllWellFormed(ab);
      AppendAssoc(ChunkBytes(a[0]), StreamBytes(a[1..]), StreamBytes(b));
    }
  }

  /** Reads one chunk from the front of `s`: the chunk and the number of
      bytes it occupies, or None when `s` does not start with a chunk. */
  function ParseChunk(s: seq<Byte>): (r: Option<(Chunk, nat)>)
    ensures r.Some? ==> 0 < r.value.1 <= |s| && WellFormed(r.value.0)
    ensures r.Some? ==> s[..r.value.1] == ChunkBytes(r.value.0)
  {
    if |s| < 3 then None
    else if s[0] == 0x01 || s[0] == 0x02 then ParseStored(s)
    else if s[0] >= 0x80 && |s| >= 5 then ParseLzma(s)
    else None
  }

  function ParseStored(s: seq<Byte>): (r: Option<(Chunk, nat)>)
    requires |s| >= 3 && (s[0] == 0x01 || s[0] == 0x02)
    ensures r.Some? ==> 0 < r.value.1 <= |s| && WellFormed(r.value.0)
    ensures r.Some? ==> s[..r.value.1] == ChunkBytes(r.value.0)
  {
    var size := Be16Value(s[1], s[2]) + 1;
    if |s| < 3 + size then None
    else
      var c := Stored(s[0] == 0x01, s[3..3 + size]);
      Be16At(size - 1, s, 1);
      StoredParsed(s, c, 3 + size);
      Some((c, 3 + size))
  }

  function ParseLzma(s: seq<Byte>): (r: Option<(Chunk, nat)>)
    requires |s| >= 5 && s[0] >= 0x80
    ensures r.Some? ==> 0 < r.value.1 <= |s| && WellFormed(r.value.0)
    ensures r.Some? ==> s[..r.value.1] == ChunkBytes(r.value.0)
  {
    var level := (s[0] - 0x80) / 0x20;
    var u := (s[0] as int % 0x20) * 0x1_0000 + Be16Value(s[1], s[2]) + 1;
    var size := Be16Value(s[3], s[4]) + 1;
    var header := if level >= 2 then 6 else 5;
    if |s| < header + size then None
    else
      var c := Lzma(level, u, if level >= 2 then Some(s[5]) else None, s[header..header + size]);
      LzmaHeaderFields(s[0], s[1], s[2], u);
      LzmaControlOf(c, s[0]);
      Be16At(u - 1, s, 1);
      Be16At(size - 1, s, 3);
      assert (if c.props.Some? then [c.props.value] else []) == s[5..header];
      LzmaParsed(s, c, header, header + size);
      Some((c, header + size))
  }

  /** Two bytes are the writeShort encoding of `v` when their big-endian
      value is `v` modulo 2^16. */
  lemma Be16Of(v: int, hi: Byte, lo: Byte)
    requires Be16Value(hi, lo) == v % 0x1_0000
    ensures Be16(v) == [hi, lo]
  {
  }

  /** Two bytes at `i` are the writeShort encoding of `v`. */
  lemma Be16At(v: int, s: seq<Byte>, i: int)
    requires 0 <= i && i + 2 <= |s| && Be16Value(s[i], s[i + 1]) == v % 0x1_0000
    ensures Be16(v) == s[i..i + 2]
  {
    Be16Of(v, s[i], s[i + 1]);
    assert s[i..i + 2] == [s[i], s[i + 1]];
  }

  /** A header whose fields are those of `c`, followed by its payload, is
      the encoding of `c`. */
  lemma LzmaParsed(s: seq<Byte>, c: Chunk, h: int, e: int)
    requires WellFormed(c) && c.Lzma? && 5 <= h <= 6 && h <= e <= |s|
    requires ControlByte(c) == s[0] && Be16(c.uncompressedSize - 1) == s[1..3] && Be16(|c.payload| - 1) == s[3..5]
    requires (if c.props.Some? then [c.props.value] else []) == s[5..h] && c.payload == s[h..e]
    ensures s[..e] == ChunkBytes(c)
  {
    SliceFields(s, h, e);
    LzmaFields(c);
  }

  /** A stored-chunk header whose fields are those of `c`, followed by its
      data, is the encoding of `c`. */
  lemma StoredParsed(s: seq<Byte>, c: Chunk, e: int)
    requires WellFormed(c) && c.Stored? && 3 <= e <= |s|
    requires ControlByte(c) == s[0] && Be16(|c.data| - 1) == s[1..3] && c.data == s[3..e]
    ensures s[..e] == ChunkBytes(c)
  {
    StoredSlices(s, e);
    StoredFields(c);
  }

  lemma StoredFields(c: Chunk)
    requires WellFormed(c) && c.Stored?
    ensures ChunkBytes(c) == [ControlByte(c)] + Be16(|c.data| - 1) + c.data
  {
  }

  /** A stored-chunk header splits into its control byte and size field. */
  lemma StoredSlices(s: seq<Byte>, e: int)
    requires 3 <= e <= |s|
    ensures s[..e] == [s[0]] + s[1..3] + s[3..e]
  {
    assert s[..e] == s[..3] + s[3..e];
    assert s[..3] == [s[0]] + s[1..3];
  }

  /** Positions in the encoding of a stored chunk followed by `rest`. */
  lemma StoredFieldsAt(b: seq<Byte>, x: Byte, p: seq<Byte>, t: seq<Byte>, rest: seq<Byte>)
    requires |p| == 2 && b == [x] + p + t + rest
    ensures |b| == 3 + |t| + |rest| && b[0] == x && b[1] == p[0] && b[2] == p[1] && b[3..3 + |t|] == t
  {
    assert b[3..3 + |t|] == t;
  }

  /** A byte string whose header fields are those of the stored chunk `c`
      parses as `c`. */
  lemma ReadStored(s: seq<Byte>, c: Chunk)
    requires WellFormed(c) && c.Stored? && |s| >= 3 + |c.data|
    requires s[0] == ControlByte(c) && Be16Value(s[1], s[2]) + 1 == |c.data| && s[3..3 + |c.data|] == c.data
    ensures ParseChunk(s) == Some((c, 3 + |c.data|))
  {
    assert Stored(s[0] == 0x01, s[3..3 + |c.data|]) == c;
  }

  /** A byte string whose header fields are those of the compressed chunk
      `c` parses as `c`. */
  lemma ReadLzma(s: seq<Byte>, c: Chunk, h: int)
    requires WellFormed(c) && c.Lzma? && h == (if c.level >= 2 then 6 else 5) && |s| >= h + |c.payload|
    requires s[0] == ControlByte(c) && Be16Value(s[1], s[2]) == (c.uncompressedSize - 1) % 0x1_0000
    requires Be16Value(s[3], s[4]) + 1 == |c.payload|
    requires (c.level >= 2 ==> s[5] == c.props.value) && s[h..h + |c.payload|] == c.payload
    ensures ParseChunk(s) == Some((c, h + |c.payload|))
  {
    LzmaSizeField(c.uncompressedSize, s[0], s[1], s[2]);
    assert (s[0] - 0x80) / 0x20 == c.level;
    assert (if c.level >= 2 then Some(s[5]) else None) == c.props;
    ReadLzmaFields(s, c, h);
  }

  /** ParseLzma on a string whose decoded header fields are those of `c`. */
  lemma ReadLzmaFields(s: seq<Byte>, c: Chunk, h: int)
    requires WellFormed(c) && c.Lzma? && |s| >= 5 && s[0] >= 0x80
    requires (s[0] - 0x80) / 0x20 == c.level
    requires (s[0] as int % 0x20) * 0x1_0000 + Be16Value(s[1], s[2]) + 1 == c.uncompressedSize
    requires h == (if c.level >= 2 then 6 else 5) && |s| >= h + |c.payload| && Be16Value(s[3], s[4]) + 1 == |c.payload|
    requires (if c.level >= 2 then Some(s[5]) else None) == c.props && s[h..h + |c.payload|] == c.payload
    ensures ParseLzma(s) == Some((c, h + |c.payload|))
  {
  }

  lemma LzmaControlOf(c: Chunk, b0: Byte)
    requires c.Lzma? && WellFormed(c) && b0 >= 0x80
    requires c.level == (b0 - 0x80) / 0x20 && (c.uncompressedSize - 1) / 0x1_0000 == b0 % 0x20
    ensures ControlByte(c) == b0
  {
  }

  /** The arithmetic behind reading a compressed chunk's control byte and
      uncompressed-size field. */
  lemma LzmaHeaderFields(b0: Byte, b1: Byte, b2: Byte, u: int)
    requires b0 >= 0x80 && u == (b0 as int % 0x20) * 0x1_0000 + Be16Value(b1, b2) + 1
    ensures 1 <= u <= UNCOMPRESSED_SIZE_MAX
    ensures (u - 1) / 0x1_0000 == b0 % 0x20 && (u - 1) % 0x1_0000 == Be16Value(b1, b2)
    ensures 0x80 + ((b0 as int - 0x80) / 0x20) * 0x20 + (u - 1) / 0x1_0000 == b0
  {
  }

  /** Reading a chunk back from its own encoding, whatever follows it. */
  lemma ParseChunkBytes(c: Chunk, rest: seq<Byte>)
    requires WellFormed(c)
    ensures ParseChunk(ChunkBytes(c) + rest) == Some((c, |ChunkBytes(c)|))
  {
    if c.Lzma? {
      ParseLzmaBytes(c, rest);
    } else {
      ParseStoredBytes(c, rest);
    }
  }

  lemma ParseStoredBytes(c: Chunk, rest: seq<Byte>)
    requires WellFormed(c) && c.Stored?
    ensures ParseChunk(ChunkBytes(c) + rest) == Some((c, |ChunkBytes(c)|))
  {
    StoredHeaderOf(c, rest);
    ReadStored(ChunkBytes(c) + rest, c);
  }

  /** The header fields of a stored chunk's encoding, whatever follows it. */
  lemma StoredHeaderOf(c: Chunk, rest: seq<Byte>)
    requires WellFormed(c) && c.Stored?
    ensures var s := ChunkBytes(c) + rest;
      |ChunkBytes(c)| == 3 + |c.data| && |s| >= 3 + |c.data| && s[0] == ControlByte(c) &&
      Be16Value(s[1], s[2]) + 1 == |c.data| && s[3..3 + |c.data|] == c.data
  {
    var x, p := ControlByte(c), Be16(|c.data| - 1);
    Be16Small(|c.data| - 1);
    StoredFields(c);
    StoredFieldsAt(ChunkBytes(c) + rest, x, p, c.data, rest);
  }

  /** A 16-bit field holds a value below 2^16 exactly. */
  lemma Be16Small(v: int)
    requires 0 <= v < 0x1_0000
    ensures Be16Value(Be16(v)[0], Be16(v)[1]) == v
  {
  }

  lemma ParseLzmaBytes(c: Chunk, rest: seq<Byte>)
    requires WellFormed(c) && c.Lzma?
    ensures ParseChunk(ChunkBytes(c) + rest) == Some((c, |ChunkBytes(c)|))
  {
    var h := if c.level >= 2 then 6 else 5;
    LzmaHeaderOf(c, rest, h);
    ReadLzma(ChunkBytes(c) + rest, c, h);
  }

  /** The header fields of a compressed chunk's encoding, whatever follows it. */
  lemma LzmaHeaderOf(c: Chunk, rest: seq<Byte>, h: int)
    requires WellFormed(c) && c.Lzma? && h == (if c.level >= 2 then 6 else 5)
    ensures var s := ChunkBytes(c) + rest;
      |ChunkBytes(c)| == h + |c.payload| && |s| >= h + |c.payload| &&
      s[0] == ControlByte(c) && Be16Value(s[1], s[2]) == (c.uncompressedSize - 1) % 0x1_0000 &&
      Be16Value(s[3], s[4]) + 1 == |c.payload| &&
      (c.level >= 2 ==> s[5] == c.props.value) && s[h..h + |c.payload|] == c.payload
  {
    var x, p, q := ControlByte(c), Be16(c.uncompressedSize - 1), Be16(|c.payload| - 1);
    var r: seq<Byte> := if c.props.Some? then [c.props.value] else [];
    assert |r| == h - 5;
    Be16Small(|c.payload| - 1);
    LzmaFields(c);
    FieldsAt(ChunkBytes(c) + rest, x, p, q, r, c.payload, rest);
  }

  /** The fields of a compressed chunk's encoding, in order. */
  lemma LzmaFields(c: Chunk)
    requires WellFormed(c) && c.Lzma?
    ensures ChunkBytes(c) == [ControlByte(c)] + Be16(c.uncompressedSize - 1) + Be16(|c.payload| - 1)
                             + (if c.props.Some? then [c.props.value] else []) + c.payload
  {
  }

  /** Positions in a header of a control byte, two 16-bit fields and an
      optional byte, followed by a payload and then `rest`. */
  lemma FieldsAt(b: seq<Byte>, x: Byte, p: seq<Byte>, q: seq<Byte>, r: seq<Byte>, t: seq<Byte>, rest: seq<Byte>)
    requires |p| == 2 && |q| == 2 && |r| <= 1 && b == [x] + p + q + r + t + rest
    ensures |b| == 5 + |r| + |t| + |rest| && b[0] == x && b[1] == p[0] && b[2] == p[1] && b[3] == q[0] && b[4] == q[1]
    ensures (|r| == 1 ==> b[5] == r[0]) && b[5 + |r|..5 + |r| + |t|] == t
  {
    assert b[5 + |r|..5 + |r| + |t|] == t;
  }

  /** A parsed header splits into its fields: the control byte, two 16-bit
      fields, the optional properties byte and the payload. */
  lemma SliceFields(s: seq<Byte>, h: int, e: int)
    requires 5 <= h <= 6 && h <= e <= |s|
    ensures s[..e] == [s[0]] + s[1..3] + s[3..5] + s[5..h] + s[h..e]
  {
    assert s[..e] == s[..h] + s[h..e];
    assert s[..h] == s[..5] + s[5..h];
    assert s[..5] == [s[0]] + s[1..3] + s[3..5];
  }

  lemma LzmaSizeField(u: int, b0: Byte, b1: Byte, b2: Byte)
    requires 1 <= u <= UNCOMPRESSED_SIZE_MAX
    requires b0 % 0x20 == (u - 1) / 0x1_0000 && Be16Value(b1, b2) == (u - 1) % 0x1_0000
    ensures (b0 as int % 0x20) * 0x1_0000 + Be16Value(b1, b2) + 1 == u
  {
  }

  /** Reads a whole LZMA2 stream: chunks up to the end marker, which must
      be the last byte. */
  function ParseStream(s: seq<Byte>): (r: Option<seq<Chunk>>)
    ensures r.Some? ==> AllWellFormed(r.value) && s == StreamBytes(r.value) + [END_MARKER]
    decreases |s|
  {
    if |s| == 0 then None
    else if s[0] == END_MARKER then
      if |s| == 1 then Some([]) else None
    else
      match ParseChunk(s)
      case None => None
      case Some((c, n)) =>
        match ParseStream(s[n..])
        case None => None
        case Some(cs) =>
          StreamCons(s, c, n, cs);
          Some([c] + cs)
  }

  /** A chunk at the front of `s` and a parsed stream after it make up a
      parsed stream. */
  lemma StreamCons(s: seq<Byte>, c: Chunk, n: int, cs: seq<Chunk>)
    requires WellFormed(c) && AllWellFormed(cs) && 0 < n <= |s|
    requires s[..n] == ChunkBytes(c) && s[n..] == StreamBytes(cs) + [END_MARKER]
    ensures AllWellFormed([c] + cs) && s == StreamBytes([c] + cs) + [END_MARKER]
  {
    StreamBytesCons(c, cs);
    assert s == s[..n] + s[n..];
    AppendAssoc(ChunkBytes(c), StreamBytes(cs), [END_MARKER]);
  }

  /** The bytes of a chunk followed by a run of chunks. */
  lemma StreamBytesCons(c: Chunk, cs: seq<Chunk>)
    requires WellFormed(c) && AllWellFormed(cs)
    ensures AllWellFormed([c] + cs) && StreamBytes([c] + cs) == ChunkBytes(c) + StreamBytes(cs)
  {
    assert ([c] + cs)[0] == c && ([c] + cs)[1..] == cs;
    assert forall i :: 0 <= i < |[c] + cs| ==> ([c] + cs)[i] == if i == 0 then c else cs[i - 1];
  }


  /** A run of well-formed chunks followed by the end marker parses back
      to exactly that run. */
  lemma {:induction false} ParseStreamBytes(cs: seq<Chunk>)
    requires AllWellFormed(cs)
    ensures ParseStream(StreamBytes(cs) + [END_MARKER]) == Some(cs)
  {
    if cs != [] {
      var tail := StreamBytes(cs[1..]) + [END_MARKER];
      assert StreamBytes(cs) + [END_MARKER] == ChunkBytes(cs[0]) + tail;
      ParseChunkBytes(cs[0], tail);
      assert (ChunkBytes(cs[0]) + tail)[0] == ControlByte(cs[0]);
      assert (ChunkBytes(cs[0]) + tail)[|ChunkBytes(cs[0])|..] == tail;
      ParseStreamBytes(cs[1..]);
      assert [cs[0]] + cs[1..] == cs;
    }
  }

  /** getExtraSizeBefore: the least extra window space that lets a window
      of `dictSize` bytes hold one full 64 KiB chunk of history. */
  function ExtraSizeBefore(dictSize: int): (r: int)
    ensures r >= 0 && dictSize + r >= COMPRESSED_SIZE_MAX
    ensures r > 0 ==> dictSize + r == COMPRESSED_SIZE_MAX
  {
    if COMPRESSED_SIZE_MAX > dictSize then COMPRESSED_SIZE_MAX - dictSize else 0
  }

  /** The LZMA properties byte `(pb * 5 + lp) * 9 + lc`; for the parameter
      ranges LZMA2Options admits it fits a byte and determines lc, lp, pb. */
  function PropsByte(lc: int, lp: int, pb: int): (r: Byte)
    requires 0 <= lc <= 8 && 0 <= lp <= 4 && 0 <= pb <= 4
    ensures r < 225
    ensures r % 9 == lc && (r / 9) % 5 == lp && r / 45 == pb
  {
    var r := (pb * 5 + lp) * 9 + lc;
    assert r / 9 == pb * 5 + lp;
    r
  }

  const INT32_MIN: int := -0x8000_0000
  const INT32_MAX: int := 0x7FFF_FFFF

  predicate IsInt32(x: int) { INT32_MIN <= x <= INT32_MAX }

  /** Java's 32-bit two's-complement wrap-around of an int sum. */
  function Wrap32(x: int): (r: int)
    ensures IsInt32(r) && (r - x) % 0x1_0000_0000 == 0
  {
    (x - INT32_MIN) % 0x1_0000_0000 + INT32_MIN
  }

  /** The range test at the head of write(byte[], int, int), in Java int
      arithmetic: `off + len < 0` catches an overflowing sum. */
  predicate RangeRejected(bufLength: int, off: int, len: int)
  {
    off < 0 || len < 0 || Wrap32(off + len) < 0 || Wrap32(off + len) > bufLength
  }

  /** The test rejects exactly the ranges that do not lie inside the buffer. */
  lemma RangeRejectedIff(bufLength: int, off: int, len: int)
    requires IsInt32(off) && IsInt32(len) && 0 <= bufLength <= INT32_MAX
    ensures RangeRejected(bufLength, off, len) <==> !(0 <= off && 0 <= len && off + len <= bufLength)
  {
    if 0 <= off && 0 <= len {
      if off + len <= INT32_MAX {
        assert Wrap32(off + len) == off + len;
      } else {
        assert Wrap32(off + len) == off + len - 0x1_0000_0000;
      }
    }
  }
}
