/** Plain 8-bit images of every color type: what any encoder wrote, whatever filters it chose,
    decode_png reads back. */
module PngReadBack {
  import opened Bytes
  import opened Common
  import opened PngRows
  import opened PngChunks
  import opened PngGather
  import opened PngPlace
  import opened PngDecode

  // ----- What the bytes of a pixel mean (sections 2.2, 2.3 and 4.2.9 of RFC 2083) -----

  ghost predicate Meaningful(st: Parsed, ctype: byte, c: seq<byte>) {
    && |c| == Components(ctype) > 0
    && (ctype == 3 ==> st.palette.Some? && c[0] < |st.palette.value|)
  }

  // A gray or RGB pixel with the one color that tRNS names.
  ghost predicate Keyed(st: Parsed, ctype: byte, c: seq<byte>) {
    && (ctype == 0 || ctype == 2)
    && |st.alpha| == |c|
    && forall i :: 0 <= i < |c| ==> c[i] == st.alpha[i]
  }

  // That color is transparent, and all others are opaque.
  ghost function Meaning(st: Parsed, ctype: byte, c: seq<byte>): (p: Pixel)
    requires Meaningful(st, ctype, c)
    ensures |p| == 4
  {
    var keyed := if Keyed(st, ctype, c) then 0 else 255;
    match ctype
    case 0 => [c[0], c[0], c[0], keyed]
    case 2 => [c[0], c[1], c[2], keyed]
    case 3 =>
      var color := st.palette.value[c[0]];
      [color.r, color.g, color.b, if c[0] < |st.alpha| then st.alpha[c[0]] else 255]
    case 4 => [c[0], c[0], c[0], c[1]]
    case _ => c
  }

  // The bytes of the x-th pixel of a line with k bytes to a pixel.
  function Group(line: seq<byte>, x: nat, k: nat): seq<byte>
    requires x * k + k <= |line|
  {
    line[x * k..x * k + k]
  }

  ghost predicate PixelMeaningful(st: Parsed, ctype: byte, line: seq<byte>, x: nat) {
    && x * Components(ctype) + Components(ctype) <= |line|
    && Meaningful(st, ctype, Group(line, x, Components(ctype)))
  }

  // The x-th pixel of a line.
  ghost function PixelOf(st: Parsed, ctype: byte, line: seq<byte>, x: nat): (p: Pixel)
    requires PixelMeaningful(st, ctype, line, x)
    ensures |p| == 4
  {
    Meaning(st, ctype, Group(line, x, Components(ctype)))
  }

  ghost predicate PixelKeyed(st: Parsed, ctype: byte, line: seq<byte>, x: nat)
    requires PixelMeaningful(st, ctype, line, x)
  {
    Keyed(st, ctype, Group(line, x, Components(ctype)))
  }

  // What _sample makes of it: the same color, but never transparent by its color.
  ghost function ReadOf(st: Parsed, ctype: byte, line: seq<byte>, x: nat): Pixel
    requires PixelMeaningful(st, ctype, line, x)
  {
    var p := PixelOf(st, ctype, line, x);
    if PixelKeyed(st, ctype, line, x) then p[3 := 255] else p
  }

  ghost predicate LineMeaningful(st: Parsed, ctype: byte, line: seq<byte>, w: nat) {
    forall x :: 0 <= x < w ==> PixelMeaningful(st, ctype, line, x)
  }

  lemma SampleReads(st: Parsed, ctype: byte, line: seq<byte>, x: nat)
    requires PixelMeaningful(st, ctype, line, x)
    ensures Sample(st, ctype, line, x) == Ok(ReadOf(st, ctype, line, x))
  {
    var k := Components(ctype);
    assert Slice(line, x * k, x * k + k) == Group(line, x, k);
    var p := PixelOf(st, ctype, line, x);
    assert p[3 := 255] == [p[0], p[1], p[2], 255];
  }

  // _sample gives the pixel of the standard if and only if it is not the color that tRNS names.
  lemma SampleMeans(st: Parsed, ctype: byte, line: seq<byte>, x: nat)
    requires PixelMeaningful(st, ctype, line, x)
    ensures Sample(st, ctype, line, x) == Ok(PixelOf(st, ctype, line, x)) <==> !PixelKeyed(st, ctype, line, x)
  {
    SampleReads(st, ctype, line, x);
    ReadDiffers(st, ctype, line, x);
  }

  lemma ReadDiffers(st: Parsed, ctype: byte, line: seq<byte>, x: nat)
    requires PixelMeaningful(st, ctype, line, x)
    ensures ReadOf(st, ctype, line, x) == PixelOf(st, ctype, line, x) <==> !PixelKeyed(st, ctype, line, x)
  {
    if PixelKeyed(st, ctype, line, x) {
      assert PixelOf(st, ctype, line, x)[3] == 0 && ReadOf(st, ctype, line, x)[3] == 255;
    }
  }

  // Such a pixel: in a gray image a tRNS chunk that names the gray v leaves v opaque.
  lemma KeyIgnored(st: Parsed, v: byte)
    requires st.ihdr.Some? && st.ihdr.value.ctype == 0
    ensures var key := Apply(st, TRNS, [0, v]);
            && key.Ok? && Meaningful(key.value, 0, [v]) && Meaning(key.value, 0, [v]) == [v, v, v, 0]
            && Sample(key.value, 0, [v], 0) == Ok([v, v, v, 255])
  {
    ReadsValue(v);
    assert TRNS[0] == 116 && IHDR[0] == 73 && PLTE[0] == 80;
  }

  lemma ReadsValue(v: byte)
    ensures Pairs([0, v]) == [v]
  {
    var d, hi, lo: seq<byte> := [0, v], [0], [v];
    assert d[..2] == d == hi + lo && d[2..] == [];
    BigEndianParts([], hi);
    BigEndianParts(hi, lo);
  }

  lemma {:induction false} LineMeans(st: Parsed, ctype: byte, line: seq<byte>, n: nat)
    requires LineMeaningful(st, ctype, line, n)
    ensures SampleLine(st, ctype, line, n).Ok?
    ensures forall x :: 0 <= x < n ==> SampleLine(st, ctype, line, n).value[x] == ReadOf(st, ctype, line, x)
  {
    if n > 0 {
      LineMeans(st, ctype, line, n - 1);
      SampleReads(st, ctype, line, n - 1);
    }
  }

  // Each line is full and each of its pixels means something.
  ghost predicate LinesMeaningful(st: Parsed, ctype: byte, lines: seq<seq<byte>>, w: nat) {
    forall y :: 0 <= y < |lines| ==> LineMeaningful(st, ctype, lines[y], w)
  }

  // The rows of samples show the lines.
  ghost predicate RowsShow(rows: seq<seq<Pixel>>, st: Parsed, ctype: byte, lines: seq<seq<byte>>, w: nat)
    requires LinesMeaningful(st, ctype, lines, w)
  {
    && |rows| == |lines|
    && forall y :: 0 <= y < |rows| ==> RowShows(rows[y], st, ctype, lines[y], w)
  }

  ghost predicate RowShows(row: seq<Pixel>, st: Parsed, ctype: byte, line: seq<byte>, w: nat)
    requires LineMeaningful(st, ctype, line, w)
  {
    |row| == w && forall x :: 0 <= x < w ==> row[x] == ReadOf(st, ctype, line, x)
  }

  lemma {:induction false} LinesMean(st: Parsed, ctype: byte, lines: seq<seq<byte>>, w: nat)
    requires LinesMeaningful(st, ctype, lines, w)
    ensures SampleLines(st, ctype, lines, w).Ok?
    ensures RowsShow(SampleLines(st, ctype, lines, w).value, st, ctype, lines, w)
    decreases |lines|
  {
    if lines != [] {
      var k := |lines| - 1;
      LinesMean(st, ctype, lines[..k], w);
      LineMeans(st, ctype, lines[k], w);
      var rows, row := SampleLines(st, ctype, lines[..k], w).value, SampleLine(st, ctype, lines[k], w).value;
      ShowsOneMore(rows, row, st, ctype, lines, w);
    }
  }

  lemma ShowsOneMore(rows: seq<seq<Pixel>>, row: seq<Pixel>, st: Parsed, ctype: byte, lines: seq<seq<byte>>, w: nat)
    requires lines != [] && LinesMeaningful(st, ctype, lines, w)
    requires RowsShow(rows, st, ctype, lines[..|lines| - 1], w) && RowShows(row, st, ctype, lines[|lines| - 1], w)
    ensures RowsShow(rows + [row], st, ctype, lines, w)
  {
    forall y | 0 <= y < |lines|
      ensures RowShows((rows + [row])[y], st, ctype, lines[y], w)
    {
      if y < |rows| { assert RowShows(rows[y], st, ctype, lines[..|lines| - 1][y], w); }
    }
  }

  // ----- Plain images -----

  // Every pixel of the image is what is read from the lines.
  ghost predicate Shows(px: seq<Option<Pixel>>, st: Parsed, ctype: byte, lines: seq<seq<byte>>, w: nat, h: nat) {
    && |px| == w * h && |lines| == h && LinesMeaningful(st, ctype, lines, w)
    && forall x, y :: 0 <= x < w && 0 <= y < h ==> At(px, w, h, x, y) == Some(ReadOf(st, ctype, lines[y], x))
  }

  // Every pixel of the image is what the standard makes of the lines.
  ghost predicate IsStandard(px: seq<Option<Pixel>>, st: Parsed, ctype: byte, lines: seq<seq<byte>>, w: nat, h: nat)
    requires |px| == w * h && |lines| == h && LinesMeaningful(st, ctype, lines, w)
  {
    forall x, y :: 0 <= x < w && 0 <= y < h ==> At(px, w, h, x, y) == Some(PixelOf(st, ctype, lines[y], x))
  }

  ghost predicate NoneKeyed(st: Parsed, ctype: byte, lines: seq<seq<byte>>, w: nat)
    requires LinesMeaningful(st, ctype, lines, w)
  {
    forall x, y :: 0 <= x < w && 0 <= y < |lines| ==> !PixelKeyed(st, ctype, lines[y], x)
  }

  lemma StandardWhenNoneKeyed(px: seq<Option<Pixel>>, st: Parsed, ctype: byte, lines: seq<seq<byte>>, w: nat, h: nat)
    requires Shows(px, st, ctype, lines, w, h)
    ensures IsStandard(px, st, ctype, lines, w, h) <==> NoneKeyed(st, ctype, lines, w)
  {
    forall x, y | 0 <= x < w && 0 <= y < h
      ensures At(px, w, h, x, y) == Some(PixelOf(st, ctype, lines[y], x)) <==> !PixelKeyed(st, ctype, lines[y], x)
    {
      ReadDiffers(st, ctype, lines[y], x);
    }
  }

  lemma PlacedShows(px: seq<Option<Pixel>>, st: Parsed, ctype: byte, lines: seq<seq<byte>>, w: nat, h: nat,
          rows: seq<seq<Pixel>>)
    requires |px| == w * h && |lines| == h && LinesMeaningful(st, ctype, lines, w)
    requires RowsShow(rows, st, ctype, lines, w)
    ensures Fits(rows, EVERYWHERE, w, h)
    ensures Shows(PlaceRows(px, w, h, EVERYWHERE, rows), st, ctype, lines, w, h)
  {
    EverywhereCounts(w, h);
    forall y | 0 <= y < |rows|
      ensures |rows[y]| == w
    {
      assert RowShows(rows[y], st, ctype, lines[y], w);
    }
    forall x, y | 0 <= x < w && 0 <= y < h
      ensures At(PlaceRows(px, w, h, EVERYWHERE, rows), w, h, x, y) == Some(ReadOf(st, ctype, lines[y], x))
    {
      EverywhereOverwrites(px, w, h, rows, x, y);
      assert RowShows(rows[y], st, ctype, lines[y], w);
    }
  }

  lemma PassReadsBack(st: Parsed, ctype: byte, w: nat, h: nat, lines: seq<seq<byte>>, types: seq<byte>,
          rest: seq<byte>, px: seq<Option<Pixel>>)
    requires w > 0 && h > 0 && |px| == w * h && Components(ctype) > 0
    requires |lines| == |types| == h && Full(lines, w * Components(ctype)) && LinesMeaningful(st, ctype, lines, w)
    requires Known(types)
    ensures var k := Components(ctype);
            var data := EncodeRows(lines, types, Zeros(w * k), k);
            var r := DecodeOnePass(st, ctype, w, h, k, data + rest, px, EVERYWHERE);
            r.Ok? && r.value.rest == rest && Shows(r.value.px, st, ctype, lines, w, h)
  {
    var k := Components(ctype);
    EverywhereCounts(w, h);
    DecodeAfterEncode(lines, types, Zeros(w * k), k, rest);
    LinesMean(st, ctype, lines, w);
    PlacedShows(px, st, ctype, lines, w, h, SampleLines(st, ctype, lines, w).value);
  }

  // An 8-bit image that is not interlaced, of any color type, written by an encoder with any
  // choice of filters, decodes and uses up exactly its bytes. Its pixels are those of the standard
  // if and only if none has the color that tRNS names.
  lemma AnyEncoderReadsBack(st: Parsed, lines: seq<seq<byte>>, types: seq<byte>, rest: seq<byte>)
    requires st.ihdr.Some? && st.ihdr.value.depth == 8 && st.ihdr.value.interlace == 0
    requires var hd := st.ihdr.value;
             && Components(hd.ctype) > 0 && hd.width > 0 && hd.height > 0
             && |lines| == |types| == hd.height && Full(lines, hd.width * Components(hd.ctype))
             && LinesMeaningful(st, hd.ctype, lines, hd.width)
    requires Known(types)
    ensures var hd := st.ihdr.value;
            var k := Components(hd.ctype);
            var r := DecodeData(st, EncodeRows(lines, types, Zeros(hd.width * k), k) + rest);
            && r.Ok? && r.value.rest == rest && Shows(r.value.px, st, hd.ctype, lines, hd.width, hd.height)
            && (IsStandard(r.value.px, st, hd.ctype, lines, hd.width, hd.height)
                <==> NoneKeyed(st, hd.ctype, lines, hd.width))
  {
    var hd := st.ihdr.value;
    assert BytesPerPixel(hd.ctype, 8) == Components(hd.ctype);
    assert PassTable(0)[1..] == [];
    PassReadsBack(st, hd.ctype, hd.width, hd.height, lines, types, rest, Blank(hd.width * hd.height));
    var k := Components(hd.ctype);
    var r := DecodeData(st, EncodeRows(lines, types, Zeros(hd.width * k), k) + rest);
    StandardWhenNoneKeyed(r.value.px, st, hd.ctype, lines, hd.width, hd.height);
  }

  // The same for a whole file whose chunks parse and whose data inflates to those rows.
  lemma FileReadsBack(raw: seq<byte>, inflate: Inflate, st: Parsed, lines: seq<seq<byte>>, types: seq<byte>,
          rest: seq<byte>)
    requires Parse(raw, 8, NOTHING) == Ok(st)
    requires st.ihdr.Some? && st.ihdr.value.depth == 8 && st.ihdr.value.interlace == 0
    requires var hd := st.ihdr.value;
             && Components(hd.ctype) > 0 && hd.width > 0 && hd.height > 0
             && |lines| == |types| == hd.height && Full(lines, hd.width * Components(hd.ctype))
             && LinesMeaningful(st, hd.ctype, lines, hd.width) && Known(types)
    requires var k := Components(st.ihdr.value.ctype);
             inflate(st.idat) == Some(EncodeRows(lines, types, Zeros(st.ihdr.value.width * k), k) + rest)
    ensures var hd, r := st.ihdr.value, Decode(raw, inflate);
            && r.Ok? && r.value.width == hd.width && r.value.height == hd.height
            && Shows(r.value.px, st, hd.ctype, lines, hd.width, hd.height)
            && (IsStandard(r.value.px, st, hd.ctype, lines, hd.width, hd.height)
                <==> NoneKeyed(st, hd.ctype, lines, hd.width))
  {
    AnyEncoderReadsBack(st, lines, types, rest);
  }

  // From the chunks on: a file of an image with the given header, palette and transparency, whose
  // joined data inflates to rows of any filters, decodes to what is read from those rows.
  lemma ImageReadsBack(pre: seq<byte>, cs: seq<Chunk>, trail: seq<byte>, inflate: Inflate, hd: Ihdr,
          palette: Option<seq<Color>>, alpha: Option<seq<nat>>, lines: seq<seq<byte>>, types: seq<byte>,
          rest: seq<byte>)
    requires |pre| == 8 && AllWellFormed(cs) && (trail == [] || Ends(cs))
    requires hd.depth == 8 && hd.interlace == 0 && Components(hd.ctype) > 0
    requires Packs(hd.width) && Packs(hd.height) && hd.width > 0 && hd.height > 0
    requires (alpha.Some? ==> AlphaFits(hd.ctype, alpha.value)) && Control(cs) == ControlOf(hd, palette, alpha)
    requires |lines| == |types| == hd.height && Full(lines, hd.width * Components(hd.ctype)) && Known(types)
    requires var st := Parsed(Some(hd), palette, if alpha.Some? then alpha.value else [], Data(cs));
             LinesMeaningful(st, hd.ctype, lines, hd.width)
    requires var k := Components(hd.ctype);
             inflate(Data(cs)) == Some(EncodeRows(lines, types, Zeros(hd.width * k), k) + rest)
    ensures var st := Parsed(Some(hd), palette, if alpha.Some? then alpha.value else [], Data(cs));
            var r := Decode(pre + Serialized(cs) + trail, inflate);
            && r.Ok? && r.value.width == hd.width && r.value.height == hd.height
            && Shows(r.value.px, st, hd.ctype, lines, hd.width, hd.height)
            && (IsStandard(r.value.px, st, hd.ctype, lines, hd.width, hd.height)
                <==> NoneKeyed(st, hd.ctype, lines, hd.width))
  {
    var st := Parsed(Some(hd), palette, if alpha.Some? then alpha.value else [], Data(cs));
    ImageGathers(pre, cs, trail, hd, palette, alpha);
    FileReadsBack(pre + Serialized(cs) + trail, inflate, st, lines, types, rest);
  }

  // A palette index that has a color.
  ghost predicate Indexes(colors: seq<Color>, line: seq<byte>, w: nat) {
    |line| >= w && forall x :: 0 <= x < w ==> line[x] < |colors|
  }

  // The pixel of a palette image: the color, and its tRNS value if it has one.
  function PalettePixel(colors: seq<Color>, alpha: seq<nat>, i: nat): Pixel
    requires i < |colors|
  {
    [colors[i].r, colors[i].g, colors[i].b, if i < |alpha| then alpha[i] else 255]
  }

  lemma IndexMeans(st: Parsed, colors: seq<Color>, line: seq<byte>, w: nat, x: nat)
    requires st.palette == Some(colors) && Indexes(colors, line, w) && x < w
    ensures PixelMeaningful(st, 3, line, x)
    ensures ReadOf(st, 3, line, x) == PalettePixel(colors, st.alpha, line[x])
  {
    assert Group(line, x, 1) == [line[x]];
  }

  // The control chunks of a palette image.
  function PaletteControl(w: nat, h: nat, colors: seq<Color>, alpha: seq<byte>): seq<Chunk> {
    [Chunk(IHDR, HeaderData(Ihdr(w, h, 8, 3, 0)), []), Chunk(PLTE, PaletteBytes(colors), []), Chunk(TRNS, alpha, [])]
  }

  ghost predicate AllIndex(colors: seq<Color>, lines: seq<seq<byte>>, w: nat) {
    forall i :: 0 <= i < |lines| ==> Indexes(colors, lines[i], w)
  }

  lemma IndexesMeaningful(st: Parsed, colors: seq<Color>, lines: seq<seq<byte>>, w: nat)
    requires st.palette == Some(colors) && AllIndex(colors, lines, w)
    ensures LinesMeaningful(st, 3, lines, w)
  {
    forall i | 0 <= i < |lines|
      ensures LineMeaningful(st, 3, lines[i], w)
    {
      forall j | 0 <= j < w
        ensures PixelMeaningful(st, 3, lines[i], j)
      {
        IndexMeans(st, colors, lines[i], w, j);
      }
    }
  }

  lemma PaletteGathers(pre: seq<byte>, cs: seq<Chunk>, trail: seq<byte>, w: nat, h: nat, colors: seq<Color>,
          alpha: seq<byte>)
    requires |pre| == 8 && AllWellFormed(cs) && (trail == [] || Ends(cs)) && Packs(w) && Packs(h)
    requires Control(cs) == PaletteControl(w, h, colors, alpha)
    ensures Parse(pre + Serialized(cs) + trail, 8, NOTHING)
         == Ok(Parsed(Some(Ihdr(w, h, 8, 3, 0)), Some(colors), alpha, Data(cs)))
  {
    AlphaReadsBack(3, alpha);
    var hd := Ihdr(w, h, 8, 3, 0);
    assert Control(cs) == ControlOf(hd, Some(colors), Some(alpha));
    ImageGathers(pre, cs, trail, hd, Some(colors), Some(alpha));
  }

  // A palette file reads back each pixel as its color and alpha.
  lemma PaletteImage(pre: seq<byte>, cs: seq<Chunk>, trail: seq<byte>, inflate: Inflate, w: nat, h: nat,
          colors: seq<Color>, alpha: seq<byte>, lines: seq<seq<byte>>, types: seq<byte>, x: nat, y: nat)
    requires |pre| == 8 && AllWellFormed(cs) && (trail == [] || Ends(cs)) && Packs(w) && Packs(h)
    requires Control(cs) == PaletteControl(w, h, colors, alpha)
    requires |lines| == |types| == h && Known(types) && Full(lines, w) && AllIndex(colors, lines, w)
    requires inflate(Data(cs)) == Some(EncodeRows(lines, types, Zeros(w), 1)) && x < w && y < h
    ensures var r := Decode(pre + Serialized(cs) + trail, inflate);
            && r.Ok? && r.value.width == w && r.value.height == h && |r.value.px| == w * h
            && lines[y][x] < |colors|
            && At(r.value.px, w, h, x, y) == Some(PalettePixel(colors, alpha, lines[y][x]))
  {
    var st := Parsed(Some(Ihdr(w, h, 8, 3, 0)), Some(colors), alpha, Data(cs));
    PaletteGathers(pre, cs, trail, w, h, colors, alpha);
    IndexesMeaningful(st, colors, lines, w);
    var data := EncodeRows(lines, types, Zeros(w), 1);
    assert data + [] == data && w * 1 == w;
    FileReadsBack(pre + Serialized(cs) + trail, inflate, st, lines, types, []);
    assert Indexes(colors, lines[y], w);
    IndexMeans(st, colors, lines[y], w, x);
  }
}
