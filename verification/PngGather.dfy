/** What the chunk loop of decode_png gathers, said of the chunks themselves: the fields that each
    kind of chunk sets, the files it rejects, and what it makes of a file that is cut off. */
module PngGather {
  import opened Bytes
  import opened Common
  import opened PngRows
  import opened PngChunks

  // ----- Tags and header -----

  function Ascii(text: string): seq<byte>
    requires forall i :: 0 <= i < |text| ==> text[i] < 128 as char
  {
    seq(|text|, i requires 0 <= i < |text| => text[i] as int)
  }

  lemma TagNames()
    ensures IHDR == Ascii("IHDR") && PLTE == Ascii("PLTE") && TRNS == Ascii("tRNS")
    ensures IDAT == Ascii("IDAT") && IEND == Ascii("IEND")
  {
  }

  lemma TagsDiffer()
    ensures IHDR != IEND && PLTE != IEND && TRNS != IEND && IDAT != IEND
    ensures PLTE != IHDR && TRNS != IHDR && IDAT != IHDR && TRNS != PLTE && IDAT != PLTE && IDAT != TRNS
  {
    assert IHDR[1] == 72 && IEND[1] == 69 && IDAT[1] == 68 && PLTE[0] == 80 && TRNS[0] == 116;
  }

  // struct.pack(">I", n) accepts n.
  predicate Packs(n: nat) {
    n < 0x1_0000_0000
  }

  // struct.pack(">IIBBBBB", ...): section 4.1.1 of RFC 2083, with compression and filter method 0.
  function HeaderData(hd: Ihdr): seq<byte> {
    ToBigEndian(hd.width, 4) + ToBigEndian(hd.height, 4) + [hd.depth, hd.ctype, 0, 0, hd.interlace]
  }

  lemma HeaderReadsBack(hd: Ihdr)
    requires Packs(hd.width) && Packs(hd.height)
    ensures |HeaderData(hd)| == 13 && ReadIhdr(HeaderData(hd)) == hd
  {
    var d := HeaderData(hd);
    PowersOf256();
    BigEndianRoundTrip(hd.width, 4);
    BigEndianRoundTrip(hd.height, 4);
    assert d[..4] == ToBigEndian(hd.width, 4) && d[4..8] == ToBigEndian(hd.height, 4);
  }

  // Where the fields lie in any 13 bytes.
  lemma HeaderFields(d: seq<byte>)
    requires |d| == 13
    ensures var hd := ReadIhdr(d);
            && hd.width == Word(d[0], d[1], d[2], d[3]) && hd.height == Word(d[4], d[5], d[6], d[7])
            && hd.depth == d[8] && hd.ctype == d[9] && hd.interlace == d[12]
  {
    WordIsBigEndian(d[..4]);
    WordIsBigEndian(d[4..8]);
  }

  // ----- The state after any list of chunks -----

  // No chunk is IEND.
  ghost predicate Open(cs: seq<Chunk>) {
    forall i :: 0 <= i < |cs| ==> cs[i].tag != IEND
  }

  // The data of the last chunk with the given tag.
  function LastData(cs: seq<Chunk>, tag: seq<byte>): Option<seq<byte>> {
    if cs == [] then None
    else if cs[|cs| - 1].tag == tag then Some(cs[|cs| - 1].data)
    else LastData(cs[..|cs| - 1], tag)
  }

  // The last IHDR so far says that colors are palette indices.
  predicate PaletteType(cs: seq<Chunk>) {
    match LastData(cs, IHDR)
    case None => false
    case Some(d) => |d| == 13 && d[9] == 3
  }

  // struct.unpack takes c after the chunks cs: IHDR has 13 bytes, and tRNS is a list of bytes for
  // a palette and of pairs of bytes otherwise.
  predicate Acceptable(cs: seq<Chunk>, c: Chunk) {
    && (c.tag == IHDR ==> |c.data| == 13)
    && (c.tag == TRNS && !PaletteType(cs) ==> |c.data| % 2 == 0)
  }

  ghost predicate AllAcceptable(cs: seq<Chunk>) {
    forall i :: 0 <= i < |cs| ==> Acceptable(cs[..i], cs[i])
  }

  function HeaderOf(cs: seq<Chunk>): Option<Ihdr> {
    match LastData(cs, IHDR)
    case None => None
    case Some(d) => if |d| == 13 then Some(ReadIhdr(d)) else None
  }

  function PaletteOf(cs: seq<Chunk>): Option<seq<Color>> {
    match LastData(cs, PLTE)
    case None => None
    case Some(d) => Some(Triples(d))
  }

  // The values of the last tRNS, as the IHDR before it has them read.
  function AlphaOf(cs: seq<Chunk>): seq<nat> {
    if cs == [] then []
    else
      var before, c := cs[..|cs| - 1], cs[|cs| - 1];
      if c.tag != TRNS then AlphaOf(before)
      else if PaletteType(before) then c.data
      else Pairs(c.data)
  }

  function Gathered(cs: seq<Chunk>): Parsed {
    Parsed(HeaderOf(cs), PaletteOf(cs), AlphaOf(cs), Data(cs))
  }

  lemma {:induction false} FoldThen<S>(handle: Handler<S>, cs: seq<Chunk>, ds: seq<Chunk>, st: S)
    requires Open(cs)
    ensures var r := FoldWith(handle, cs, st);
            FoldWith(handle, cs + ds, st)
            == if r.Err? then r else FoldWith(handle, ds, r.value)
    decreases |cs|
  {
    if cs == [] {
      assert cs + ds == ds;
    } else {
      assert (cs + ds)[1..] == cs[1..] + ds;
      var next := handle(st, cs[0].tag, cs[0].data);
      if next.Ok? { FoldThen(handle, cs[1..], ds, next.value); }
    }
  }

  lemma FoldOne<S>(handle: Handler<S>, c: Chunk, st: S)
    requires c.tag != IEND
    ensures FoldWith(handle, [c], st) == handle(st, c.tag, c.data)
  {
    assert [c][1..] == [];
  }

  lemma {:induction false} DataThen(cs: seq<Chunk>, c: Chunk)
    requires Open(cs) && c.tag != IEND
    ensures Data(cs + [c]) == Data(cs) + if c.tag == IDAT then c.data else []
    decreases |cs|
  {
    if cs == [] {
      assert cs + [c] == [c] && [c][1..] == [];
    } else {
      assert (cs + [c])[1..] == cs[1..] + [c];
      DataThen(cs[1..], c);
    }
  }

  lemma LastThen(cs: seq<Chunk>, c: Chunk, tag: seq<byte>)
    ensures LastData(cs + [c], tag) == if c.tag == tag then Some(c.data) else LastData(cs, tag)
  {
    assert (cs + [c])[..|cs|] == cs;
  }

  lemma AlphaThen(cs: seq<Chunk>, c: Chunk)
    ensures AlphaOf(cs + [c])
         == if c.tag != TRNS then AlphaOf(cs) else if PaletteType(cs) then c.data else Pairs(c.data)
  {
    assert (cs + [c])[..|cs|] == cs;
  }

  // The color type in force, as the loop looks it up.
  lemma TypeInForce(cs: seq<Chunk>, st: Parsed)
    requires st.ihdr == HeaderOf(cs)
    ensures st.ihdr.Some? && st.ihdr.value.ctype == 3 <==> PaletteType(cs)
  {
  }

  lemma ApplyGathers(cs: seq<Chunk>, c: Chunk)
    requires Open(cs) && c.tag != IEND
    ensures Apply(Gathered(cs), c.tag, c.data)
         == if Acceptable(cs, c) then Ok(Gathered(cs + [c]))
            else Err(if c.tag == IHDR then BadHeader else OddAlpha)
  {
    TagsDiffer();
    TypeInForce(cs, Gathered(cs));
    LastThen(cs, c, IHDR);
    LastThen(cs, c, PLTE);
    AlphaThen(cs, c);
    DataThen(cs, c);
    assert c.tag != IDAT ==> Data(cs) + [] == Data(cs);
  }

  lemma AcceptableBefore(cs: seq<Chunk>, n: nat)
    requires AllAcceptable(cs) && n <= |cs|
    ensures AllAcceptable(cs[..n])
  {
    forall i | 0 <= i < n
      ensures Acceptable(cs[..n][..i], cs[..n][i])
    {
      assert cs[..n][..i] == cs[..i];
    }
  }

  // A list of chunks that are all acceptable sets the header and the palette to those of its last
  // IHDR and PLTE, the transparency to that of its last tRNS and the data to all IDATs joined.
  lemma {:induction false} Gathers(cs: seq<Chunk>)
    requires Open(cs) && AllAcceptable(cs)
    ensures Fold(cs, NOTHING) == Ok(Gathered(cs))
    decreases |cs|
  {
    if cs != [] {
      var n := |cs| - 1;
      AcceptableBefore(cs, n);
      Gathers(cs[..n]);
      assert cs == cs[..n] + [cs[n]];
      FoldThen(Apply, cs[..n], [cs[n]], NOTHING);
      FoldOne(Apply, cs[n], Gathered(cs[..n]));
      ApplyGathers(cs[..n], cs[n]);
    }
  }

  // The first chunk that is not acceptable is the error, whatever comes after it.
  lemma GatherFails(cs: seq<Chunk>, c: Chunk, ds: seq<Chunk>)
    requires Open(cs) && AllAcceptable(cs) && c.tag != IEND && !Acceptable(cs, c)
    ensures Fold(cs + ([c] + ds), NOTHING) == Err(if c.tag == IHDR then BadHeader else OddAlpha)
  {
    Gathers(cs);
    FoldThen(Apply, cs, [c] + ds, NOTHING);
    FoldThen(Apply, [c], ds, Gathered(cs));
    FoldOne(Apply, c, Gathered(cs));
    ApplyGathers(cs, c);
  }

  // The whole file: chunks without IEND, an IEND, and anything at all.
  lemma FileGathers(pre: seq<byte>, cs: seq<Chunk>, end: Chunk, trail: seq<byte>)
    requires AllWellFormed(cs) && WellFormed(end) && Open(cs) && end.tag == IEND && AllAcceptable(cs)
    ensures Parse(pre + Serialized(cs + [end]) + trail, |pre|, NOTHING) == Ok(Gathered(cs))
  {
    EndsLast(cs, end);
    ParseSerialized(pre, cs + [end], trail, NOTHING);
    FoldThen(Apply, cs, [end], NOTHING);
    Gathers(cs);
  }

  lemma {:induction false} EndsLast(cs: seq<Chunk>, end: Chunk)
    requires end.tag == IEND
    ensures Ends(cs + [end])
    decreases |cs|
  {
    if cs != [] {
      assert (cs + [end])[1..] == cs[1..] + [end];
      EndsLast(cs[1..], end);
    }
  }

  // ----- Files as section 4.1 of RFC 2083 has them -----

  // The bytes of tRNS: a byte for each palette entry, or two for each of the other values.
  function AlphaBytes(ctype: byte, values: seq<nat>): seq<byte>
    requires AlphaFits(ctype, values)
  {
    if ctype == 3 then seq(|values|, i requires 0 <= i < |values| => values[i]) else ValueBytes(values)
  }

  predicate AlphaFits(ctype: byte, values: seq<nat>) {
    forall i :: 0 <= i < |values| ==> values[i] < if ctype == 3 then 256 else 0x1_0000
  }

  // The control chunks of an image: a header, then a palette and transparency where there are any.
  function ControlOf(hd: Ihdr, palette: Option<seq<Color>>, alpha: Option<seq<nat>>): seq<Chunk>
    requires alpha.Some? ==> AlphaFits(hd.ctype, alpha.value)
  {
    [Chunk(IHDR, HeaderData(hd), [])]
    + (if palette.Some? then [Chunk(PLTE, PaletteBytes(palette.value), [])] else [])
    + (if alpha.Some? then [Chunk(TRNS, AlphaBytes(hd.ctype, alpha.value), [])] else [])
  }

  lemma AlphaReadsBack(ctype: byte, values: seq<nat>)
    requires AlphaFits(ctype, values)
    ensures ctype == 3 ==> AlphaBytes(ctype, values) == values
    ensures ctype != 3 ==> Pairs(AlphaBytes(ctype, values)) == values && |AlphaBytes(ctype, values)| % 2 == 0
  {
    if ctype != 3 { ValuesReadBack(values); }
  }

  // What the three chunks set, one after the other.
  lemma HeaderSets(hd: Ihdr, st: Parsed)
    requires Packs(hd.width) && Packs(hd.height)
    ensures Fold([Chunk(IHDR, HeaderData(hd), [])], st) == Ok(st.(ihdr := Some(hd)))
  {
    TagsDiffer();
    HeaderReadsBack(hd);
    FoldOne(Apply, Chunk(IHDR, HeaderData(hd), []), st);
  }

  lemma PaletteSets(colors: seq<Color>, st: Parsed)
    ensures Fold([Chunk(PLTE, PaletteBytes(colors), [])], st) == Ok(st.(palette := Some(colors)))
  {
    TagsDiffer();
    PaletteReadsBack(colors, []);
    assert PaletteBytes(colors) + [] == PaletteBytes(colors);
    FoldOne(Apply, Chunk(PLTE, PaletteBytes(colors), []), st);
  }

  lemma AlphaSets(hd: Ihdr, values: seq<nat>, st: Parsed)
    requires AlphaFits(hd.ctype, values) && st.ihdr == Some(hd)
    ensures Fold([Chunk(TRNS, AlphaBytes(hd.ctype, values), [])], st) == Ok(st.(alpha := values))
  {
    TagsDiffer();
    AlphaReadsBack(hd.ctype, values);
    FoldOne(Apply, Chunk(TRNS, AlphaBytes(hd.ctype, values), []), st);
  }

  lemma ControlSets(hd: Ihdr, palette: Option<seq<Color>>, alpha: Option<seq<nat>>)
    requires Packs(hd.width) && Packs(hd.height) && (alpha.Some? ==> AlphaFits(hd.ctype, alpha.value))
    ensures Fold(ControlOf(hd, palette, alpha), NOTHING)
         == Ok(Parsed(Some(hd), palette, if alpha.Some? then alpha.value else [], []))
  {
    TagsDiffer();
    var a, b, c := [Chunk(IHDR, HeaderData(hd), [])],
        if palette.Some? then [Chunk(PLTE, PaletteBytes(palette.value), [])] else [],
        if alpha.Some? then [Chunk(TRNS, AlphaBytes(hd.ctype, alpha.value), [])] else [];
    var st := NOTHING.(ihdr := Some(hd));
    HeaderSets(hd, NOTHING);
    if palette.Some? { PaletteSets(palette.value, st); }
    if alpha.Some? { AlphaSets(hd, alpha.value, st.(palette := palette)); }
    FoldThen(Apply, a, b, NOTHING);
    FoldThen(Apply, a + b, c, NOTHING);
  }

  // An image's file gives back its header, palette and transparency values and its joined data,
  // however the data is cut and whatever other chunks there are.
  lemma ImageGathers(pre: seq<byte>, cs: seq<Chunk>, trail: seq<byte>, hd: Ihdr, palette: Option<seq<Color>>,
          alpha: Option<seq<nat>>)
    requires |pre| == 8 && AllWellFormed(cs) && (trail == [] || Ends(cs))
    requires Packs(hd.width) && Packs(hd.height) && (alpha.Some? ==> AlphaFits(hd.ctype, alpha.value))
    requires Control(cs) == ControlOf(hd, palette, alpha)
    ensures Parse(pre + Serialized(cs) + trail, 8, NOTHING)
         == Ok(Parsed(Some(hd), palette, if alpha.Some? then alpha.value else [], Data(cs)))
  {
    ParseSerialized(pre, cs, trail, NOTHING);
    FramingIrrelevant(cs, NOTHING);
    ControlSets(hd, palette, alpha);
    assert [] + Data(cs) == Data(cs);
  }

  // ----- Files that are cut off -----

  // Reading from pos gives the chunks cs one after the other.
  ghost predicate StartsWith(read: Reader, end: nat, pos: nat, cs: seq<Chunk>)
    decreases |cs|
  {
    cs == [] ||
    (pos < end && Reads(read, pos, cs[0]) && StartsWith(read, end, pos + 12 + |cs[0].data|, cs[1..]))
  }

  lemma ChunkLength(c: Chunk)
    requires WellFormed(c)
    ensures |ChunkBytes(c)| == 12 + |c.data|
  {
  }

  lemma {:induction false} SerializedStarts(raw: seq<byte>, read: Reader, pos: nat, cs: seq<Chunk>, trail: seq<byte>)
    requires AllWellFormed(cs) && pos <= |raw| && raw[pos..] == Serialized(cs) + trail && read == ReaderOf(raw)
    ensures StartsWith(read, |raw|, pos, cs)
    decreases |cs|
  {
    if cs != [] {
      FirstIsLaidOut(raw, read, pos, cs, trail);
      var next := pos + 12 + |cs[0].data|;
      SerializedStarts(raw, read, next, cs[1..], trail);
      StartsFrom(read, |raw|, pos, cs, next);
    }
  }

  lemma StartsFrom(read: Reader, end: nat, pos: nat, cs: seq<Chunk>, next: nat)
    requires cs != [] && pos < end && Reads(read, pos, cs[0])
    requires next == pos + 12 + |cs[0].data| && StartsWith(read, end, next, cs[1..])
    ensures StartsWith(read, end, pos, cs)
  {
  }

  // The loop goes past the chunks cs and on with what they gathered.
  lemma {:induction false} ParsePast<S>(handle: Handler<S>, read: Reader, end: nat, pos: nat, cs: seq<Chunk>, st: S)
    requires AllWellFormed(cs) && Open(cs) && StartsWith(read, end, pos, cs)
    ensures var r := FoldWith(handle, cs, st);
            ParseWith(handle, read, end, pos, st)
            == if r.Err? then r else ParseWith(handle, read, end, pos + |Serialized(cs)|, r.value)
    decreases |cs|
  {
    if cs != [] {
      ChunkLength(cs[0]);
      var next := handle(st, cs[0].tag, cs[0].data);
      if next.Ok? { ParsePast(handle, read, end, pos + 12 + |cs[0].data|, cs[1..], next.value); }
    }
  }

  // What the loop makes of the first k bytes of a chunk at the end of the file: fewer than four are
  // no length, without the whole tag nothing happens, else the data that is there counts.
  function RemainderWith<S>(handle: Handler<S>, c: Chunk, k: nat, st: S): Result<S> {
    if k == 0 then Ok(st)
    else if k < 4 then Err(ShortLength)
    else if k < 8 || c.tag == IEND then Ok(st)
    else handle(st, c.tag, c.data[..Min(k - 8, |c.data|)])
  }

  function Remainder(c: Chunk, k: nat, st: Parsed): Result<Parsed> {
    RemainderWith(Apply, c, k, st)
  }

  // A handler does nothing about a tag that is cut off.
  ghost predicate SkipsShort<S(!new)>(handle: Handler<S>) {
    forall st, tag, data :: |tag| < 4 ==> handle(st, tag, data) == Ok(st)
  }

  lemma ApplySkipsShort()
    ensures SkipsShort(Apply)
  {
    assert |IHDR| == |PLTE| == |TRNS| == |IDAT| == 4;
  }

  lemma CutTag(raw: seq<byte>, pos: nat, c: Chunk, k: nat)
    requires WellFormed(c) && pos <= |raw| && 4 <= k < 8 && raw[pos..] == ChunkBytes(c)[..k]
    ensures var f := ReadChunk(raw, pos); |f.tag| < 4 && |raw| < pos + 12 + f.length
  {
  }

  lemma CutData(raw: seq<byte>, pos: nat, c: Chunk, k: nat)
    requires WellFormed(c) && pos <= |raw| && 8 <= k < 12 + |c.data| && raw[pos..] == ChunkBytes(c)[..k]
    ensures ReadChunk(raw, pos) == Framed(|c.data|, c.tag, c.data[..Min(k - 8, |c.data|)])
  {
    var s, m := raw[pos..], Min(k - 8, |c.data|);
    CutParts(c, k);
    WordIsBigEndian(s[..4]);
    assert raw[pos + 4..pos + 8] == s[4..8];
    assert raw[pos + 8..pos + 8 + m] == s[8..8 + m];
  }

  lemma ChunkSlices(c: Chunk)
    requires WellFormed(c)
    ensures var b, n := ChunkBytes(c), |c.data|;
            && |b| == 12 + n && b[0..4] == ToBigEndian(n, 4) && b[4..8] == c.tag && b[8..8 + n] == c.data
  {
  }

  lemma CutParts(c: Chunk, k: nat)
    requires WellFormed(c) && 8 <= k < 12 + |c.data|
    ensures var s, m := ChunkBytes(c)[..k], Min(k - 8, |c.data|);
            |s| == k && BigEndian(s[..4]) == |c.data| && s[4..8] == c.tag && s[8..8 + m] == c.data[..m]
  {
    PowersOf256();
    BigEndianRoundTrip(|c.data|, 4);
    var b := ChunkBytes(c);
    ChunkSlices(c);
    SubSlice(b, 0, k, 0, 4);
    SubSlice(b, 0, k, 4, 8);
    var m := Min(k - 8, |c.data|);
    SubSlice(b, 8, 8 + |c.data|, 8, 8 + m);
    SubSlice(b, 0, k, 8, 8 + m);
    assert b[0..k] == b[..k] && c.data[0..m] == c.data[..m] && b[..k][0..4] == b[..k][..4];
  }

  // A chunk that says it reaches to the end of the file or past it is the last one.
  lemma ParseLast<S>(handle: Handler<S>, read: Reader, end: nat, pos: nat, c: Framed, st: S)
    requires pos < end <= pos + 12 + c.length && read(pos) == Some(c)
    ensures ParseWith(handle, read, end, pos, st) == if c.tag == IEND then Ok(st) else handle(st, c.tag, c.data)
  {
  }

  lemma ParseRemainder<S(!new)>(handle: Handler<S>, raw: seq<byte>, read: Reader, pos: nat, c: Chunk, k: nat, st: S)
    requires SkipsShort(handle) && read == ReaderOf(raw)
    requires WellFormed(c) && pos <= |raw| && k < 12 + |c.data| && raw[pos..] == ChunkBytes(c)[..k]
    ensures ParseWith(handle, read, |raw|, pos, st) == RemainderWith(handle, c, k, st)
  {
    if k >= 4 {
      if k < 8 {
        CutTag(raw, pos, c, k);
        assert |IEND| == 4;
      } else {
        CutData(raw, pos, c, k);
      }
      ParseLast(handle, read, |raw|, pos, ReadChunk(raw, pos), st);
    }
  }

  lemma Behind(pre: seq<byte>, s: seq<byte>, trail: seq<byte>)
    ensures (pre + s + trail)[|pre|..] == s + trail && (pre + s + trail)[|pre| + |s|..] == trail
  {
  }

  // The loop goes past the chunks cs and comes to out from there.
  lemma GoesPast<S>(handle: Handler<S>, read: Reader, end: nat, pos: nat, cs: seq<Chunk>, st: S, st': S, next: nat,
          out: Result<S>)
    requires AllWellFormed(cs) && Open(cs) && StartsWith(read, end, pos, cs) && FoldWith(handle, cs, st) == Ok(st')
    requires next == pos + |Serialized(cs)| && ParseWith(handle, read, end, next, st') == out
    ensures ParseWith(handle, read, end, pos, st) == out
  {
    ParsePast(handle, read, end, pos, cs, st);
  }

  lemma CutBehind<S(!new)>(handle: Handler<S>, raw: seq<byte>, read: Reader, pos: nat, cs: seq<Chunk>, c: Chunk,
          k: nat, st: S, st': S, next: nat)
    requires SkipsShort(handle) && AllWellFormed(cs) && Open(cs) && WellFormed(c) && k < 12 + |c.data|
    requires read == ReaderOf(raw) && StartsWith(read, |raw|, pos, cs) && FoldWith(handle, cs, st) == Ok(st')
    requires next == pos + |Serialized(cs)| && next <= |raw| && raw[next..] == ChunkBytes(c)[..k]
    ensures ParseWith(handle, read, |raw|, pos, st) == RemainderWith(handle, c, k, st')
  {
    ParseRemainder(handle, raw, read, next, c, k, st');
    GoesPast(handle, read, |raw|, pos, cs, st, st', next, RemainderWith(handle, c, k, st'));
  }

  // A file without IEND that ends inside the chunk c.
  lemma CutFile(pre: seq<byte>, cs: seq<Chunk>, c: Chunk, k: nat, st: Parsed)
    requires AllWellFormed(cs) && Open(cs) && WellFormed(c) && k < 12 + |c.data|
    ensures k <= |ChunkBytes(c)|
    ensures var r := Fold(cs, st);
            Parse(pre + Serialized(cs) + ChunkBytes(c)[..k], |pre|, st)
            == if r.Err? then r else Remainder(c, k, r.value)
  {
    ChunkLength(c);
    var trail, r := ChunkBytes(c)[..k], Fold(cs, st);
    var raw := pre + Serialized(cs) + trail;
    Behind(pre, Serialized(cs), trail);
    SerializedStarts(raw, ReaderOf(raw), |pre|, cs, trail);
    if r.Ok? {
      ApplySkipsShort();
      CutBehind(Apply, raw, ReaderOf(raw), |pre|, cs, c, k, st, r.value, |pre| + |Serialized(cs)|);
    } else {
      ParsePast(Apply, ReaderOf(raw), |raw|, |pre|, cs, st);
    }
  }
}
