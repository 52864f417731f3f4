/** The chunk loop of decode_png, and why the framing of the data does not matter. */
module PngChunks {
  import opened Bytes
  import opened Common
  import opened PngRows

  datatype Ihdr = Ihdr(width: nat, height: nat, depth: byte, ctype: byte, interlace: byte)

  datatype Color = Color(r: byte, g: byte, b: byte)

  // What the loop has gathered. An absent tRNS and an empty one count alike, so alpha is [] for
  // both.
  datatype Parsed = Parsed(ihdr: Option<Ihdr>, palette: Option<seq<Color>>, alpha: seq<nat>, idat: seq<byte>)

  const NOTHING := Parsed(None, None, [], [])

  const IHDR: seq<byte> := [73, 72, 68, 82]
  const PLTE: seq<byte> := [80, 76, 84, 69]
  const TRNS: seq<byte> := [116, 82, 78, 83]
  const IDAT: seq<byte> := [73, 68, 65, 84]
  const IEND: seq<byte> := [73, 69, 78, 68]

  // raw[a:b] in Python: out-of-range bounds are cut back to the end.
  function Slice(raw: seq<byte>, a: nat, b: nat): seq<byte>
    requires a <= b
  {
    raw[Min(a, |raw|)..Min(b, |raw|)]
  }

  // struct.unpack(">IIBBBBB", data)
  function ReadIhdr(data: seq<byte>): Ihdr
    requires |data| == 13
  {
    Ihdr(BigEndian(data[..4]), BigEndian(data[4..8]), data[8], data[9], data[12])
  }

  // list(zip(data[0::3], data[1::3], data[2::3]))
  function Triples(data: seq<byte>): seq<Color> {
    if |data| < 3 then [] else [Color(data[0], data[1], data[2])] + Triples(data[3..])
  }

  // struct.unpack(">nH", data) with n = len(data) // 2
  function Pairs(data: seq<byte>): seq<nat> {
    if |data| < 2 then [] else [BigEndian(data[..2])] + Pairs(data[2..])
  }

  // Where the entries lie: three bytes each, red first, and two bytes each, high byte first.
  lemma {:induction false} TriplesAt(data: seq<byte>, i: nat)
    ensures |Triples(data)| == |data| / 3
    ensures 3 * i + 2 < |data| ==> Triples(data)[i] == Color(data[3 * i], data[3 * i + 1], data[3 * i + 2])
    decreases |data|
  {
    if |data| >= 3 { TriplesAt(data[3..], if i == 0 then 0 else i - 1); }
  }

  lemma {:induction false} PairsAt(data: seq<byte>, i: nat)
    ensures |Pairs(data)| == |data| / 2
    ensures 2 * i + 1 < |data| ==> Pairs(data)[i] == 256 * (data[2 * i] as int) + data[2 * i + 1]
    decreases |data|
  {
    if |data| >= 2 {
      if i == 0 {
        PairsAt(data[2..], 0);
        PairValue(data[0], data[1]);
        assert data[..2] == [data[0], data[1]];
      } else {
        PairsAt(data[2..], i - 1);
      }
    }
  }

  lemma PairValue(a: byte, b: byte)
    ensures BigEndian([a, b]) == 256 * (a as int) + b
  {
    assert [a, b] == [a] + [b] && Pow256(1) == 256;
    BigEndianParts([a], [b]);
    BigEndianParts([], [a]);
  }

  // The bytes of a palette, and of 16-bit transparency values (sections 4.1.2 and 4.2.9 of RFC 2083).
  function PaletteBytes(colors: seq<Color>): seq<byte> {
    if colors == [] then [] else [colors[0].r, colors[0].g, colors[0].b] + PaletteBytes(colors[1..])
  }

  function ValueBytes(values: seq<nat>): seq<byte> {
    if values == [] then [] else ToBigEndian(values[0], 2) + ValueBytes(values[1..])
  }

  // Both read back; up to two stray bytes at the end of a palette are ignored.
  lemma {:induction false} PaletteReadsBack(colors: seq<Color>, stray: seq<byte>)
    requires |stray| < 3
    ensures Triples(PaletteBytes(colors) + stray) == colors
    decreases |colors|
  {
    if colors == [] {
      assert PaletteBytes(colors) + stray == stray;
    } else {
      var d := PaletteBytes(colors) + stray;
      assert d[3..] == PaletteBytes(colors[1..]) + stray;
      PaletteReadsBack(colors[1..], stray);
    }
  }

  lemma {:induction false} ValuesReadBack(values: seq<nat>)
    requires forall i :: 0 <= i < |values| ==> values[i] < 0x1_0000
    ensures Pairs(ValueBytes(values)) == values && |ValueBytes(values)| == 2 * |values|
    decreases |values|
  {
    if values != [] {
      var d := ValueBytes(values);
      assert d[..2] == ToBigEndian(values[0], 2) && d[2..] == ValueBytes(values[1..]);
      BigEndianRoundTrip(values[0], 2);
      ValuesReadBack(values[1..]);
    }
  }

  // One pass through the if-chain, for any tag but IEND.
  function Apply(st: Parsed, tag: seq<byte>, data: seq<byte>): Result<Parsed> {
    if tag == IHDR then
      if |data| == 13 then Ok(st.(ihdr := Some(ReadIhdr(data)))) else Err(BadHeader)
    else if tag == PLTE then Ok(st.(palette := Some(Triples(data))))
    else if tag == TRNS then
      if st.ihdr.Some? && st.ihdr.value.ctype == 3 then Ok(st.(alpha := data))
      else if |data| % 2 == 0 then Ok(st.(alpha := Pairs(data))) else Err(OddAlpha)
    else if tag == IDAT then Ok(st.(idat := st.idat + data))
    else Ok(st)
  }

  // The chunk at pos; a chunk cut off by the end of the file has short parts.
  datatype Framed = Framed(length: nat, tag: seq<byte>, data: seq<byte>)

  // struct.unpack(">I", ...) on four bytes.
  function Word(a: byte, b: byte, c: byte, d: byte): nat {
    ((a * 256 + b) * 256 + c) * 256 + d
  }

  lemma WordIsBigEndian(s: seq<byte>)
    requires |s| == 4
    ensures BigEndian(s) == Word(s[0], s[1], s[2], s[3])
  {
    assert s[..1][..0] == [] && BigEndian(s[..1]) == Word(0, 0, 0, s[0]);
    assert s[..2][..1] == s[..1] && BigEndian(s[..2]) == Word(0, 0, s[0], s[1]);
    assert s[..3][..2] == s[..2] && BigEndian(s[..3]) == Word(0, s[0], s[1], s[2]);
  }

  function ReadChunk(raw: seq<byte>, pos: nat): Framed
    requires pos + 4 <= |raw|
  {
    var length := Word(raw[pos], raw[pos + 1], raw[pos + 2], raw[pos + 3]);
    Framed(length, Slice(raw, pos + 4, pos + 8), Slice(raw, pos + 8, pos + 8 + length))
  }

  // What a turn reads at a position: struct.unpack fails on fewer than four bytes.
  type Reader = nat -> Option<Framed>

  function ReaderOf(raw: seq<byte>): Reader {
    (pos: nat) => if pos + 4 <= |raw| then Some(ReadChunk(raw, pos)) else None
  }

  // What a turn does with a chunk's tag and data.
  type Handler<!S> = (S, seq<byte>, seq<byte>) -> Result<S>

  // The loop from position pos to the end, with any reader and handler. Every turn moves pos by
  // at least 12.
  function ParseWith<S>(handle: Handler<S>, read: Reader, end: nat, pos: nat, st: S): Result<S>
    decreases end - pos
  {
    if pos >= end then Ok(st)
    else
      match read(pos)
      case None => Err(ShortLength)
      case Some(c) =>
        if c.tag == IEND then Ok(st)
        else
          match handle(st, c.tag, c.data)
          case Err(e) => Err(e)
          case Ok(st') => ParseWith(handle, read, end, pos + 12 + c.length, st')
  }

  function Parse(raw: seq<byte>, pos: nat, st: Parsed): Result<Parsed> {
    ParseWith(Apply, ReaderOf(raw), |raw|, pos, st)
  }

  method ParseChunks(raw: seq<byte>) returns (r: Result<Parsed>)
    ensures r == Parse(raw, 8, NOTHING)
  {
    var pos, st := 8, NOTHING;
    while pos < |raw|
      invariant Parse(raw, 8, NOTHING) == Parse(raw, pos, st)
      decreases |raw| - pos
    {
      if pos + 4 > |raw| { return Err(ShortLength); }
      var c := ReadChunk(raw, pos);
      pos := pos + 12 + c.length;
      if c.tag == IEND { break; }
      var next := Apply(st, c.tag, c.data);
      if next.Err? { return Err(next.error); }
      st := next.value;
    }
    return Ok(st);
  }

  // ----- A file as a list of chunks -----

  datatype Chunk = Chunk(tag: seq<byte>, data: seq<byte>, crc: seq<byte>)

  // Section 3.2 of RFC 2083.
  predicate WellFormed(c: Chunk) {
    |c.tag| == 4 && |c.crc| == 4 && |c.data| < 0x1_0000_0000
  }

  ghost predicate AllWellFormed(cs: seq<Chunk>) {
    forall i :: 0 <= i < |cs| ==> WellFormed(cs[i])
  }

  function ChunkBytes(c: Chunk): seq<byte> {
    ToBigEndian(|c.data|, 4) + c.tag + c.data + c.crc
  }

  function Serialized(cs: seq<Chunk>): seq<byte> {
    if cs == [] then [] else ChunkBytes(cs[0]) + Serialized(cs[1..])
  }

  // The effect of a list of chunks, up to the first IEND.
  function FoldWith<S>(handle: Handler<S>, cs: seq<Chunk>, st: S): Result<S> {
    if cs == [] || cs[0].tag == IEND then Ok(st)
    else
      match handle(st, cs[0].tag, cs[0].data)
      case Err(e) => Err(e)
      case Ok(st') => FoldWith(handle, cs[1..], st')
  }

  function Fold(cs: seq<Chunk>, st: Parsed): Result<Parsed> {
    FoldWith(Apply, cs, st)
  }

  // A chunk followed by other data, and where its parts lie.
  lemma ChunkParts(c: Chunk, post: seq<byte>)
    requires WellFormed(c)
    ensures var s, n := ChunkBytes(c) + post, 12 + |c.data|;
            && |s| == n + |post| && s[n..] == post
            && BigEndian(s[..4]) == |c.data| && s[4..8] == c.tag && s[8..8 + |c.data|] == c.data
  {
    PowersOf256();
    BigEndianRoundTrip(|c.data|, 4);
    var s := ChunkBytes(c) + post;
    assert s[..4] == ToBigEndian(|c.data|, 4);
  }

  lemma ChunkAhead(raw: seq<byte>, pos: nat, c: Chunk, post: seq<byte>)
    requires WellFormed(c) && pos <= |raw| && raw[pos..] == ChunkBytes(c) + post
    ensures var n := 12 + |c.data|;
            && pos + n <= |raw| && raw[pos + n..] == post
            && ReadChunk(raw, pos) == Framed(|c.data|, c.tag, c.data)
  {
    ChunkParts(c, post);
    var s := raw[pos..];
    WordIsBigEndian(s[..4]);
    assert raw[pos + 4..pos + 8] == s[4..8];
    assert raw[pos + 8..pos + 8 + |c.data|] == s[8..8 + |c.data|];
  }

  // Reading at pos gives the chunk c.
  ghost predicate Reads(read: Reader, pos: nat, c: Chunk) {
    read(pos) == Some(Framed(|c.data|, c.tag, c.data))
  }

  // Reading from pos gives the chunks cs one after the other, up to IEND or to the end.
  ghost predicate LaidOut(read: Reader, end: nat, pos: nat, cs: seq<Chunk>)
    decreases |cs|
  {
    if cs == [] then pos >= end
    else
      && pos < end && Reads(read, pos, cs[0])
      && (cs[0].tag == IEND || LaidOut(read, end, pos + 12 + |cs[0].data|, cs[1..]))
  }

  // Some chunk is IEND.
  predicate Ends(cs: seq<Chunk>) {
    cs != [] && (cs[0].tag == IEND || Ends(cs[1..]))
  }

  lemma {:induction false} SerializedIsLaidOut(raw: seq<byte>, read: Reader, pos: nat, cs: seq<Chunk>,
          trail: seq<byte>)
    requires AllWellFormed(cs) && pos <= |raw| && raw[pos..] == Serialized(cs) + trail
    requires read == ReaderOf(raw) && (trail == [] || Ends(cs))
    ensures LaidOut(read, |raw|, pos, cs)
    decreases |cs|
  {
    if cs == [] {
      assert raw[pos..] == [];
    } else {
      FirstIsLaidOut(raw, read, pos, cs, trail);
      if cs[0].tag != IEND {
        var next := pos + 12 + |cs[0].data|;
        SerializedIsLaidOut(raw, read, next, cs[1..], trail);
        LaidOutFrom(read, |raw|, pos, cs, next);
      }
    }
  }

  lemma LaidOutFrom(read: Reader, end: nat, pos: nat, cs: seq<Chunk>, next: nat)
    requires cs != [] && pos < end && Reads(read, pos, cs[0])
    requires next == pos + 12 + |cs[0].data| && LaidOut(read, end, next, cs[1..])
    ensures LaidOut(read, end, pos, cs)
  {
  }

  lemma FirstIsLaidOut(raw: seq<byte>, read: Reader, pos: nat, cs: seq<Chunk>, trail: seq<byte>)
    requires cs != [] && WellFormed(cs[0]) && pos <= |raw| && raw[pos..] == Serialized(cs) + trail
    requires read == ReaderOf(raw)
    ensures Reads(read, pos, cs[0])
    ensures var next := pos + 12 + |cs[0].data|; next <= |raw| && raw[next..] == Serialized(cs[1..]) + trail
  {
    var more := Serialized(cs[1..]);
    assert ChunkBytes(cs[0]) + more + trail == ChunkBytes(cs[0]) + (more + trail);
    ChunkAhead(raw, pos, cs[0], more + trail);
  }

  // The byte-level loop does to a file what FoldWith does to its chunks, wherever they start.
  lemma {:induction false} ParseLaidOut<S>(handle: Handler<S>, read: Reader, end: nat, pos: nat, cs: seq<Chunk>, st: S)
    requires LaidOut(read, end, pos, cs)
    ensures ParseWith(handle, read, end, pos, st) == FoldWith(handle, cs, st)
    decreases |cs|
  {
    if cs != [] && cs[0].tag != IEND {
      var next := handle(st, cs[0].tag, cs[0].data);
      if next.Ok? { ParseLaidOut(handle, read, end, pos + 12 + |cs[0].data|, cs[1..], next.value); }
    }
  }

  // So parsing a file is folding its chunks, and any bytes may come after IEND.
  lemma ParseSerialized(pre: seq<byte>, cs: seq<Chunk>, trail: seq<byte>, st: Parsed)
    requires AllWellFormed(cs) && (trail == [] || Ends(cs))
    ensures Parse(pre + Serialized(cs) + trail, |pre|, st) == Fold(cs, st)
  {
    var raw := pre + Serialized(cs) + trail;
    assert raw[|pre|..] == Serialized(cs) + trail;
    SerializedIsLaidOut(raw, ReaderOf(raw), |pre|, cs, trail);
    ParseLaidOut(Apply, ReaderOf(raw), |raw|, |pre|, cs, st);
  }

  // ----- Framing -----

  predicate IsControl(c: Chunk) {
    c.tag == IHDR || c.tag == PLTE || c.tag == TRNS
  }

  // The header, palette and transparency chunks before IEND, in order, without checksums.
  function Control(cs: seq<Chunk>): seq<Chunk> {
    if cs == [] || cs[0].tag == IEND then []
    else if IsControl(cs[0]) then [cs[0].(crc := [])] + Control(cs[1..])
    else Control(cs[1..])
  }

  // The data of all IDAT chunks before IEND, in order.
  function Data(cs: seq<Chunk>): seq<byte> {
    if cs == [] || cs[0].tag == IEND then []
    else if cs[0].tag == IDAT then cs[0].data + Data(cs[1..])
    else Data(cs[1..])
  }

  // Control chunks do not look at the data gathered so far.
  function WithData(r: Result<Parsed>, data: seq<byte>): Result<Parsed> {
    match r
    case Err(e) => Err(e)
    case Ok(st) => Ok(st.(idat := st.idat + data))
  }

  lemma {:induction false} ControlAddsData(cs: seq<Chunk>, st: Parsed, data: seq<byte>)
    ensures Fold(Control(cs), st.(idat := st.idat + data)) == WithData(Fold(Control(cs), st), data)
    decreases |cs|
  {
    if cs == [] || cs[0].tag == IEND {
    } else if IsControl(cs[0]) {
      var next := Apply(st, cs[0].tag, cs[0].data);
      assert Control(cs)[1..] == Control(cs[1..]);
      if next.Ok? { ControlAddsData(cs[1..], next.value, data); }
    } else {
      ControlAddsData(cs[1..], st, data);
    }
  }

  // The outcome of the loop depends only on the control chunks and on the joined IDAT data: how
  // the data is cut into IDAT chunks, where they stand, chunks with other tags, checksums and
  // everything after IEND make no difference.
  lemma {:induction false} FramingIrrelevant(cs: seq<Chunk>, st: Parsed)
    ensures Fold(cs, st) == WithData(Fold(Control(cs), st), Data(cs))
    decreases |cs|
  {
    if cs == [] || cs[0].tag == IEND {
      assert st.idat + [] == st.idat;
    } else if IsControl(cs[0]) {
      var next := Apply(st, cs[0].tag, cs[0].data);
      assert Control(cs)[1..] == Control(cs[1..]);
      if next.Ok? { FramingIrrelevant(cs[1..], next.value); }
    } else if cs[0].tag == IDAT {
      var d := cs[0].data;
      FramingIrrelevant(cs[1..], st.(idat := st.idat + d));
      ControlAddsData(cs[1..], st, d);
      JoinData(Fold(Control(cs[1..]), st), d, Data(cs[1..]));
    } else {
      FramingIrrelevant(cs[1..], st);
    }
  }

  lemma JoinData(r: Result<Parsed>, a: seq<byte>, b: seq<byte>)
    ensures WithData(WithData(r, a), b) == WithData(r, a + b)
  {
    if r.Ok? {
      assert r.value.idat + a + b == r.value.idat + (a + b);
    }
  }

  // Two files with the same control chunks and the same joined data parse alike, whatever bytes
  // come after their IEND chunks.
  lemma SameContentParsesAlike(pre: seq<byte>, cs: seq<Chunk>, trail: seq<byte>, pre': seq<byte>, ds: seq<Chunk>,
          trail': seq<byte>)
    requires |pre| == |pre'| == 8 && AllWellFormed(cs) && AllWellFormed(ds)
    requires (trail == [] || Ends(cs)) && (trail' == [] || Ends(ds))
    requires Control(cs) == Control(ds) && Data(cs) == Data(ds)
    ensures Parse(pre + Serialized(cs) + trail, 8, NOTHING) == Parse(pre' + Serialized(ds) + trail', 8, NOTHING)
  {
    ParseSerialized(pre, cs, trail, NOTHING);
    ParseSerialized(pre', ds, trail', NOTHING);
    FramingIrrelevant(cs, NOTHING);
    FramingIrrelevant(ds, NOTHING);
  }
}
