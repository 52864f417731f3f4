/** _write_png, and the proof that decode_png reads back what it wrote. */
module PngWriter {
  import opened Bytes
  import opened Common
  import opened PngFilter
  import opened PngRows
  import opened PngChunks
  import opened PngGather
  import opened PngPlace
  import opened PngDecode
  import opened PngReadBack

  type Deflate = seq<byte> -> seq<byte>
  type Checksum = seq<byte> -> nat

  const SIGNATURE: seq<byte> := [137, 80, 78, 71, 13, 10, 26, 10]

  // ----- The writer -----

  // The rows from y to the bottom: filter type 0, then the row's bytes.
  function RawFrom(rgb: seq<byte>, stride: nat, y: nat, h: nat): seq<byte>
    requires y <= h
    decreases h - y
  {
    if y == h then []
    else
      assert y * stride <= (y + 1) * stride by { MulMono(y, y + 1, stride); }
      [0] + Slice(rgb, y * stride, (y + 1) * stride) + RawFrom(rgb, stride, y + 1, h)
  }

  lemma Regroup(a: seq<byte>, b: seq<byte>, c: seq<byte>, d: seq<byte>)
    ensures a + (b + c + d) == a + b + c + d
  {
  }

  method WriteRows(rgb: seq<byte>, stride: nat, h: nat) returns (raw: seq<byte>)
    ensures raw == RawFrom(rgb, stride, 0, h)
  {
    raw := [];
    for y := 0 to h
      invariant raw + RawFrom(rgb, stride, y, h) == RawFrom(rgb, stride, 0, h)
    {
      MulMono(y, y + 1, stride);
      var row := Slice(rgb, y * stride, (y + 1) * stride);
      Regroup(raw, [0], row, RawFrom(rgb, stride, y + 1, h));
      raw := raw + [0];
      raw := raw + row;
    }
  }

  // _chunk, as a list entry; the checksum is taken modulo 2^32.
  function MakeChunk(tag: seq<byte>, data: seq<byte>, crc: Checksum): Chunk {
    Chunk(tag, data, ToBigEndian(crc(tag + data) % 0x1_0000_0000, 4))
  }

  function Written(w: nat, h: nat, z: seq<byte>, crc: Checksum): seq<Chunk> {
    [MakeChunk(IHDR, HeaderData(Ihdr(w, h, 8, 2, 0)), crc), MakeChunk(IDAT, z, crc), MakeChunk(IEND, [], crc)]
  }

  // A chunk as section 3.2 of RFC 2083 lays it out, at pos in the file: length, tag, data, and the
  // checksum of tag and data.
  ghost predicate ChunkAt(file: seq<byte>, pos: nat, tag: string, data: seq<byte>, crc: Checksum)
    requires forall i :: 0 <= i < |tag| ==> tag[i] < 128 as char
  {
    var n := |data|;
    && pos + 12 + n <= |file|
    && BigEndian(file[pos..pos + 4]) == n
    && file[pos + 4..pos + 8] == Ascii(tag)
    && file[pos + 8..pos + 8 + n] == data
    && BigEndian(file[pos + 8 + n..pos + 12 + n]) == crc(file[pos + 4..pos + 8 + n]) % 0x1_0000_0000
  }

  // The file of an image with data z, byte for byte: the signature, a header for 8-bit RGB without
  // interlacing, the data and the end.
  ghost predicate IsFile(file: seq<byte>, w: nat, h: nat, z: seq<byte>, crc: Checksum) {
    && |file| == 57 + |z|
    && file[..8] == [137, 80, 78, 71, 13, 10, 26, 10]
    && ChunkAt(file, 8, "IHDR", file[16..29], crc)
    && BigEndian(file[16..20]) == w && BigEndian(file[20..24]) == h && file[24..29] == [8, 2, 0, 0, 0]
    && ChunkAt(file, 33, "IDAT", z, crc)
    && ChunkAt(file, 45 + |z|, "IEND", [], crc)
  }

  // The bytes of the file, or None where struct.pack raises.
  method WritePng(w: nat, h: nat, rgb: seq<byte>, deflate: Deflate, crc: Checksum) returns (file: Option<seq<byte>>)
    ensures var z := deflate(RawFrom(rgb, w * 3, 0, h));
            && (file.Some? <==> w < 0x1_0000_0000 && h < 0x1_0000_0000 && |z| < 0x1_0000_0000)
            && (file.Some? ==> IsFile(file.value, w, h, z, crc))
            && (file.Some? ==> file.value == SIGNATURE + Serialized(Written(w, h, z, crc)))
  {
    var raw := WriteRows(rgb, w * 3, h);
    if !Packs(w) || !Packs(h) { return None; }
    var z := deflate(raw);
    if !Packs(|z|) { return None; }
    var cs := Written(w, h, z, crc);
    ThreeChunks(cs[0], cs[1], cs[2]);
    WrittenIsFile(w, h, z, crc);
    return Some(SIGNATURE + ChunkBytes(cs[0]) + ChunkBytes(cs[1]) + ChunkBytes(cs[2]));
  }

  // A chunk that _chunk made, anywhere in a file.
  lemma MadeChunk(file: seq<byte>, pre: seq<byte>, tag: string, data: seq<byte>, crc: Checksum, post: seq<byte>)
    requires |tag| == 4 && Packs(|data|) && forall i :: 0 <= i < |tag| ==> tag[i] < 128 as char
    requires file == pre + ChunkBytes(MakeChunk(Ascii(tag), data, crc)) + post
    ensures ChunkAt(file, |pre|, tag, data, crc)
  {
    var sum := crc(Ascii(tag) + data) % 0x1_0000_0000;
    PowersOf256();
    BigEndianRoundTrip(|data|, 4);
    BigEndianRoundTrip(sum, 4);
    MadeParts(pre, MakeChunk(Ascii(tag), data, crc), post);
  }

  lemma MadeParts(pre: seq<byte>, c: Chunk, post: seq<byte>)
    requires |c.tag| == 4 && |c.crc| == 4
    ensures var file, p, n := pre + ChunkBytes(c) + post, |pre|, |c.data|;
            && |ChunkBytes(c)| == 12 + n
            && file[p..p + 4] == ToBigEndian(n, 4) && file[p + 4..p + 8] == c.tag
            && file[p + 8..p + 8 + n] == c.data && file[p + 4..p + 8 + n] == c.tag + c.data
            && file[p + 8 + n..p + 12 + n] == c.crc
  {
  }

  lemma WrittenIsFile(w: nat, h: nat, z: seq<byte>, crc: Checksum)
    requires Packs(w) && Packs(h) && Packs(|z|)
    ensures IsFile(SIGNATURE + Serialized(Written(w, h, z, crc)), w, h, z, crc)
  {
    var cs := Written(w, h, z, crc);
    TagNames();
    ThreeChunks(cs[0], cs[1], cs[2]);
    ThreeMade(HeaderData(Ihdr(w, h, 8, 2, 0)), z, crc);
    HeaderBytes(SIGNATURE + Serialized(cs), w, h);
  }

  // The chunks of the file, one behind the other.
  lemma ThreeMade(d: seq<byte>, z: seq<byte>, crc: Checksum)
    requires |d| == 13 && Packs(|z|)
    ensures var a, b, c := ChunkBytes(MakeChunk(Ascii("IHDR"), d, crc)), ChunkBytes(MakeChunk(Ascii("IDAT"), z, crc)),
                           ChunkBytes(MakeChunk(Ascii("IEND"), [], crc));
            var file := SIGNATURE + a + b + c;
            && |file| == 57 + |z| && file[..8] == [137, 80, 78, 71, 13, 10, 26, 10] && file[16..29] == d
            && ChunkAt(file, 8, "IHDR", d, crc) && ChunkAt(file, 33, "IDAT", z, crc)
            && ChunkAt(file, 45 + |z|, "IEND", [], crc)
  {
    var a, b, c := ChunkBytes(MakeChunk(Ascii("IHDR"), d, crc)), ChunkBytes(MakeChunk(Ascii("IDAT"), z, crc)),
        ChunkBytes(MakeChunk(Ascii("IEND"), [], crc));
    var file := SIGNATURE + a + b + c;
    Placement(SIGNATURE, a, b, c);
    MadeChunk(file, SIGNATURE, "IHDR", d, crc, b + c);
    MadeChunk(file, SIGNATURE + a, "IDAT", z, crc, c);
    MadeChunk(file, SIGNATURE + a + b, "IEND", [], crc, []);
  }

  lemma Placement(s: seq<byte>, a: seq<byte>, b: seq<byte>, c: seq<byte>)
    ensures var file := s + a + b + c;
            file[..|s|] == s && file == s + a + (b + c) && file == s + a + b + c + []
  {
  }

  lemma HeaderBytes(file: seq<byte>, w: nat, h: nat)
    requires Packs(w) && Packs(h) && |file| >= 29 && file[16..29] == HeaderData(Ihdr(w, h, 8, 2, 0))
    ensures BigEndian(file[16..20]) == w && BigEndian(file[20..24]) == h && file[24..29] == [8, 2, 0, 0, 0]
  {
    var d := file[16..29];
    SubSlice(file, 16, 29, 16, 20);
    SubSlice(file, 16, 29, 20, 24);
    SubSlice(file, 16, 29, 24, 29);
    PowersOf256();
    BigEndianRoundTrip(w, 4);
    BigEndianRoundTrip(h, 4);
    assert d[0..4] == ToBigEndian(w, 4) && d[4..8] == ToBigEndian(h, 4);
  }

  lemma ThreeChunks(a: Chunk, b: Chunk, c: Chunk)
    ensures Serialized([a, b, c]) == ChunkBytes(a) + (ChunkBytes(b) + ChunkBytes(c))
    ensures SIGNATURE + Serialized([a, b, c]) == SIGNATURE + ChunkBytes(a) + ChunkBytes(b) + ChunkBytes(c)
  {
    assert [a, b, c][1..] == [b, c] && [b, c][1..] == [c] && [c][1..] == [];
    assert Serialized([c]) == ChunkBytes(c) + Serialized([]) == ChunkBytes(c);
    assert Serialized([b, c]) == ChunkBytes(b) + Serialized([c]);
  }

  // ----- Reading the header back -----

  lemma ParseWritten(w: nat, h: nat, z: seq<byte>, crc: Checksum)
    requires Packs(w) && Packs(h) && Packs(|z|)
    ensures Parse(SIGNATURE + Serialized(Written(w, h, z, crc)), 8, NOTHING)
         == Ok(Parsed(Some(Ihdr(w, h, 8, 2, 0)), None, [], z))
  {
    var cs := Written(w, h, z, crc);
    HeaderReadsBack(Ihdr(w, h, 8, 2, 0));
    TagsDiffer();
    ParseSerialized(SIGNATURE, cs, [], NOTHING);
    assert SIGNATURE + Serialized(cs) + [] == SIGNATURE + Serialized(cs);
    var st := NOTHING.(ihdr := Some(Ihdr(w, h, 8, 2, 0)));
    assert cs[1..][0] == cs[1] && cs[1..][1..] == [cs[2]];
    assert Fold(cs[1..], st) == Fold([cs[2]], st.(idat := [] + z));
    assert [] + z == z;
  }

  // ----- Reading the rows back -----

  // Row y of an image with h rows of stride bytes.
  function Row(rgb: seq<byte>, stride: nat, y: nat, h: nat): (r: seq<byte>)
    requires |rgb| == h * stride && y < h
    ensures |r| == stride
  {
    MulMono(y + 1, h, stride);
    rgb[y * stride..(y + 1) * stride]
  }

  function RowsFrom(rgb: seq<byte>, stride: nat, y: nat, h: nat): (r: seq<seq<byte>>)
    requires |rgb| == h * stride && y <= h
    ensures |r| == h - y && forall i :: 0 <= i < |r| ==> r[i] == Row(rgb, stride, y + i, h)
    decreases h - y
  {
    if y == h then [] else [Row(rgb, stride, y, h)] + RowsFrom(rgb, stride, y + 1, h)
  }

  lemma NoFilter(line: seq<byte>, prev: seq<byte>)
    requires |line| <= |prev|
    ensures Filter(0, line, prev, 3) == line
  {
  }

  lemma RowSlice(rgb: seq<byte>, stride: nat, y: nat, h: nat)
    requires |rgb| == h * stride && y < h
    ensures y * stride <= (y + 1) * stride && Slice(rgb, y * stride, (y + 1) * stride) == Row(rgb, stride, y, h)
  {
    MulMono(y, y + 1, stride);
    MulMono(y + 1, h, stride);
  }

  // The writer is the encoder that filters every row with type 0.
  lemma {:induction false} RawIsEncoded(rgb: seq<byte>, stride: nat, y: nat, h: nat, prev: seq<byte>)
    requires |rgb| == h * stride && y <= h && |prev| == stride
    ensures RawFrom(rgb, stride, y, h) == EncodeRows(RowsFrom(rgb, stride, y, h), Zeros(h - y), prev, 3)
    decreases h - y
  {
    if y < h {
      var row := Row(rgb, stride, y, h);
      NoFilter(row, prev);
      RawIsEncoded(rgb, stride, y + 1, h, row);
      RowSlice(rgb, stride, y, h);
      assert RowsFrom(rgb, stride, y, h)[1..] == RowsFrom(rgb, stride, y + 1, h);
      assert Zeros(h - y)[1..] == Zeros(h - y - 1);
    }
  }

  lemma {:induction false} RawLength(rgb: seq<byte>, stride: nat, y: nat, h: nat)
    requires |rgb| == h * stride && y <= h
    ensures |RawFrom(rgb, stride, y, h)| == (h - y) * (1 + stride)
    decreases h - y
  {
    if y < h {
      RowSlice(rgb, stride, y, h);
      RawLength(rgb, stride, y + 1, h);
      OneMore(h - y - 1, 1 + stride);
    }
  }

  lemma OneMore(n: nat, k: nat)
    ensures (n + 1) * k == n * k + k
  {
  }

  // ----- Reading the pixels back -----

  // Pixel i of the image: three bytes of rgb, and opaque.
  function RgbPixel(rgb: seq<byte>, i: nat): Pixel
    requires 3 * i + 3 <= |rgb|
  {
    [rgb[3 * i], rgb[3 * i + 1], rgb[3 * i + 2], 255]
  }

  ghost predicate IsImage(px: seq<Option<Pixel>>, rgb: seq<byte>, w: nat, h: nat) {
    && |px| == w * h && |rgb| == 3 * (w * h)
    && forall i :: 0 <= i < w * h ==> px[i] == Some(RgbPixel(rgb, i))
  }

  lemma StrideProduct(w: nat, h: nat)
    ensures h * (w * 3) == 3 * (h * w)
  {
  }

  lemma RowAt(rgb: seq<byte>, stride: nat, y: nat, h: nat, j: nat)
    requires |rgb| == h * stride && y < h && j < stride
    ensures y * stride + j < |rgb| && Row(rgb, stride, y, h)[j] == rgb[y * stride + j]
  {
    MulMono(y + 1, h, stride);
  }

  lemma RowPixel(st: Parsed, rgb: seq<byte>, w: nat, h: nat, x: nat, y: nat)
    requires |rgb| == h * (w * 3) && x < w && y < h && st.alpha == []
    ensures PixelMeaningful(st, 2, Row(rgb, w * 3, y, h), x)
    ensures 3 * (y * w + x) + 3 <= |rgb|
    ensures ReadOf(st, 2, Row(rgb, w * 3, y, h), x) == RgbPixel(rgb, y * w + x)
  {
    StrideProduct(w, y);
    RowAt(rgb, w * 3, y, h, 3 * x);
    RowAt(rgb, w * 3, y, h, 3 * x + 1);
    RowAt(rgb, w * 3, y, h, 3 * x + 2);
  }

  lemma RowsAreImage(px: seq<Option<Pixel>>, st: Parsed, rgb: seq<byte>, w: nat, h: nat)
    requires |rgb| == h * (w * 3) && st.alpha == [] && Shows(px, st, 2, RowsFrom(rgb, w * 3, 0, h), w, h)
    ensures IsImage(px, rgb, w, h)
  {
    StrideProduct(w, h);
    forall i | 0 <= i < w * h
      ensures px[i] == Some(RgbPixel(rgb, i))
    {
      var x, y := Coordinates(i, w, h);
      RowPixel(st, rgb, w, h, x, y);
      assert At(px, w, h, x, y) == px[i];
    }
  }

  // What decode_png makes of the writer's rows: the image, with no data left over. Rows of no
  // pixels are skipped, and their filter bytes stay unread.
  lemma DataReadBack(rgb: seq<byte>, w: nat, h: nat, z: seq<byte>)
    requires |rgb| == h * (w * 3)
    ensures var raw := RawFrom(rgb, w * 3, 0, h);
            var r := DecodeData(Parsed(Some(Ihdr(w, h, 8, 2, 0)), None, [], z), raw);
            && |raw| == h * (1 + 3 * w)
            && r.Ok? && IsImage(r.value.px, rgb, w, h)
            && r.value.rest == if w == 0 then raw else []
  {
    var st := Parsed(Some(Ihdr(w, h, 8, 2, 0)), None, [], z);
    RawLength(rgb, w * 3, 0, h);
    if w > 0 && h > 0 {
      NonEmptyReadBack(st, rgb, w, h);
    } else {
      StrideProduct(w, h);
      EverywhereCounts(w, h);
      assert PassTable(0)[1..] == [];
    }
  }

  lemma NonEmptyReadBack(st: Parsed, rgb: seq<byte>, w: nat, h: nat)
    requires |rgb| == h * (w * 3) && w > 0 && h > 0
    requires st.ihdr == Some(Ihdr(w, h, 8, 2, 0)) && st.alpha == []
    ensures var r := DecodeData(st, RawFrom(rgb, w * 3, 0, h));
            r.Ok? && IsImage(r.value.px, rgb, w, h) && r.value.rest == []
  {
    var lines, raw := RowsFrom(rgb, w * 3, 0, h), RawFrom(rgb, w * 3, 0, h);
    RawIsEncoded(rgb, w * 3, 0, h, Zeros(w * 3));
    assert raw + [] == raw;
    forall y | 0 <= y < h
      ensures LineMeaningful(st, 2, lines[y], w)
    {
      forall x | 0 <= x < w
        ensures PixelMeaningful(st, 2, lines[y], x)
      {
        RowPixel(st, rgb, w, h, x, y);
      }
    }
    AnyEncoderReadsBack(st, lines, Zeros(h), []);
    RowsAreImage(DecodeData(st, raw).value.px, st, rgb, w, h);
  }

  // Decoding what the writer wrote returns the image, for every size and every content.
  lemma WriteThenRead(w: nat, h: nat, rgb: seq<byte>, deflate: Deflate, crc: Checksum, inflate: Inflate)
    requires |rgb| == h * (w * 3)
    requires var raw := RawFrom(rgb, w * 3, 0, h);
             inflate(deflate(raw)) == Some(raw) && Packs(w) && Packs(h) && Packs(|deflate(raw)|)
    ensures var z := deflate(RawFrom(rgb, w * 3, 0, h));
            var r := Decode(SIGNATURE + Serialized(Written(w, h, z, crc)), inflate);
            r.Ok? && r.value.width == w && r.value.height == h && IsImage(r.value.px, rgb, w, h)
  {
    var z := deflate(RawFrom(rgb, w * 3, 0, h));
    ParseWritten(w, h, z, crc);
    DataReadBack(rgb, w, h, z);
  }
}
