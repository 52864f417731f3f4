/** decode_png: from the bytes of a file to its pixels. */
module PngDecode {
  import opened Bytes
  import opened Common
  import opened PngRows
  import opened PngChunks
  import opened PngPlace

  // ----- Samples -----

  // _sample for a header of the given color type.
  function Sample(st: Parsed, ctype: byte, line: seq<byte>, x: nat): (r: Result<Pixel>)
    ensures r.Err? ==> r.error == BadSample
  {
    if ctype == 6 then Ok(Slice(line, 4 * x, 4 * x + 4))
    else if ctype == 2 then
      var s := Slice(line, 3 * x, 3 * x + 3);
      if |s| == 3 then Ok([s[0], s[1], s[2], 255]) else Err(BadSample)
    else if ctype == 4 then
      var s := Slice(line, 2 * x, 2 * x + 2);
      if |s| == 2 then Ok([s[0], s[0], s[0], s[1]]) else Err(BadSample)
    else if x >= |line| then Err(BadSample)
    else if ctype == 0 then Ok([line[x], line[x], line[x], 255])
    else if st.palette.None? || line[x] >= |st.palette.value| then Err(BadSample)
    else
      var c := st.palette.value[line[x]];
      Ok([c.r, c.g, c.b, if line[x] < |st.alpha| then st.alpha[line[x]] else 255])
  }

  // The first n samples of a line.
  function SampleLine(st: Parsed, ctype: byte, line: seq<byte>, n: nat): (r: Result<seq<Pixel>>)
    ensures r.Ok? ==> |r.value| == n
  {
    if n == 0 then Ok([])
    else
      match SampleLine(st, ctype, line, n - 1)
      case Err(e) => Err(e)
      case Ok(row) =>
        match Sample(st, ctype, line, n - 1)
        case Err(e) => Err(e)
        case Ok(v) => Ok(row + [v])
  }

  // n samples of each line.
  function SampleLines(st: Parsed, ctype: byte, lines: seq<seq<byte>>, n: nat): (r: Result<seq<seq<Pixel>>>)
    ensures r.Ok? ==> |r.value| == |lines| && forall i :: 0 <= i < |lines| ==> |r.value[i]| == n
  {
    if lines == [] then Ok([])
    else
      match SampleLines(st, ctype, lines[..|lines| - 1], n)
      case Err(e) => Err(e)
      case Ok(rows) =>
        match SampleLine(st, ctype, lines[|lines| - 1], n)
        case Err(e) => Err(e)
        case Ok(row) => Ok(rows + [row])
  }

  // ----- One pass -----

  // The inner loop over one line.
  method DrawLine(st: Parsed, ctype: byte, line: seq<byte>, px: seq<Option<Pixel>>, w: nat, h: nat, x0: nat,
          xstep: nat, y: nat, pw: nat)
    returns (r: Result<seq<Option<Pixel>>>)
    requires |px| == w * h && y < h && LineFits(pw, x0, xstep, w)
    ensures var row := SampleLine(st, ctype, line, pw);
            r == if row.Ok? then Ok(PlaceLine(px, w, h, x0, xstep, y, row.value)) else Err(BadSample)
  {
    var cur := px;
    ghost var row: seq<Pixel> := [];
    for sx := 0 to pw
      invariant SampleLine(st, ctype, line, sx) == Ok(row) && |row| == sx
      invariant cur == PlaceLine(px, w, h, x0, xstep, y, row)
    {
      var v := Sample(st, ctype, line, sx);
      if v.Err? {
        LineFails(st, ctype, line, sx + 1, pw);
        return Err(BadSample);
      }
      IndexInRange(x0 + sx * xstep, y, w, h);
      cur := cur[y * w + (x0 + sx * xstep) := Some(v.value)];
      assert (row + [v.value])[..sx] == row;
      row := row + [v.value];
    }
    return Ok(cur);
  }

  // A sample that fails fails the line.
  lemma {:induction false} LineFails(st: Parsed, ctype: byte, line: seq<byte>, k: nat, n: nat)
    requires k <= n && SampleLine(st, ctype, line, k).Err?
    ensures SampleLine(st, ctype, line, n).Err?
  {
    if k < n { LineFails(st, ctype, line, k, n - 1); }
  }

  lemma {:induction false} LinesFail(st: Parsed, ctype: byte, lines: seq<seq<byte>>, k: nat, n: nat)
    requires k <= |lines| && SampleLines(st, ctype, lines[..k], n).Err?
    ensures SampleLines(st, ctype, lines, n).Err?
    decreases |lines|
  {
    if k < |lines| {
      assert lines[..|lines| - 1][..k] == lines[..k];
      LinesFail(st, ctype, lines[..|lines| - 1], k, n);
    } else {
      assert lines[..k] == lines;
    }
  }

  // The next line of a pass, below the rows already placed.
  method DrawNext(st: Parsed, ctype: byte, lines: seq<seq<byte>>, cur: seq<Option<Pixel>>, w: nat, h: nat, p: Pass,
          sy: nat, ghost px: seq<Option<Pixel>>, ghost rows: seq<seq<Pixel>>)
    returns (r: Result<seq<Option<Pixel>>>, ghost rows': seq<seq<Pixel>>)
    requires |px| == w * h && Steps(p) && sy < |lines| == Lines(p, h)
    requires SampleLines(st, ctype, lines[..sy], Columns(p, w)) == Ok(rows)
    requires Fits(rows, p, w, h) && cur == PlaceRows(px, w, h, p, rows)
    ensures r.Err? ==> r.error == BadSample && SampleLines(st, ctype, lines[..sy + 1], Columns(p, w)).Err?
    ensures r.Ok? ==>
              && SampleLines(st, ctype, lines[..sy + 1], Columns(p, w)) == Ok(rows')
              && Fits(rows', p, w, h) && r.value == PlaceRows(px, w, h, p, rows')
  {
    CountExact(h, p.y0, p.ystep, sy);
    ColumnsFit(p, w);
    assert lines[..sy + 1][..sy] == lines[..sy];
    r := DrawLine(st, ctype, lines[sy], cur, w, h, p.x0, p.xstep, p.y0 + sy * p.ystep, Columns(p, w));
    rows' := rows;
    if r.Ok? {
      rows' := rows + [SampleLine(st, ctype, lines[sy], Columns(p, w)).value];
      assert rows'[..sy] == rows;
    }
  }

  // The two nested loops over the lines of a pass.
  method DrawPass(st: Parsed, ctype: byte, lines: seq<seq<byte>>, px: seq<Option<Pixel>>, w: nat, h: nat, p: Pass)
    returns (r: Result<seq<Option<Pixel>>>)
    requires |px| == w * h && Steps(p) && |lines| == Lines(p, h)
    ensures var rows := SampleLines(st, ctype, lines, Columns(p, w));
            r == if rows.Ok? then Ok(PlaceRows(px, w, h, p, rows.value)) else Err(BadSample)
  {
    var cur := px;
    ghost var rows: seq<seq<Pixel>> := [];
    for sy := 0 to |lines|
      invariant SampleLines(st, ctype, lines[..sy], Columns(p, w)) == Ok(rows)
      invariant Fits(rows, p, w, h) && cur == PlaceRows(px, w, h, p, rows)
    {
      var next;
      next, rows := DrawNext(st, ctype, lines, cur, w, h, p, sy, px, rows);
      if next.Err? {
        LinesFail(st, ctype, lines, sy + 1, Columns(p, w));
        return Err(BadSample);
      }
      cur := next.value;
    }
    assert lines[..|lines|] == lines;
    return Ok(cur);
  }

  // ----- All passes -----

  datatype Drawn = Drawn(px: seq<Option<Pixel>>, rest: seq<byte>)

  ghost predicate AllStep(passes: seq<Pass>) {
    forall i :: 0 <= i < |passes| ==> Steps(passes[i])
  }

  // The outer loop: passes without columns or lines are skipped.
  ghost function DecodePasses(st: Parsed, ctype: byte, w: nat, h: nat, bpp: nat, ba: seq<byte>,
                              px: seq<Option<Pixel>>, passes: seq<Pass>): (r: Result<Drawn>)
    requires bpp > 0 && |px| == w * h && AllStep(passes)
    ensures r.Ok? ==> |r.value.px| == w * h
    decreases |passes|
  {
    if passes == [] then Ok(Drawn(px, ba))
    else
      match DecodeOnePass(st, ctype, w, h, bpp, ba, px, passes[0])
      case Err(e) => Err(e)
      case Ok(d) => DecodePasses(st, ctype, w, h, bpp, d.rest, d.px, passes[1..])
  }

  ghost function DecodeOnePass(st: Parsed, ctype: byte, w: nat, h: nat, bpp: nat, ba: seq<byte>,
                               px: seq<Option<Pixel>>, p: Pass): (r: Result<Drawn>)
    requires bpp > 0 && |px| == w * h && Steps(p)
    ensures r.Ok? ==> |r.value.px| == w * h
  {
    var pw, ph := Columns(p, w), Lines(p, h);
    if pw == 0 || ph == 0 then Ok(Drawn(px, ba))
    else
      match DecodeRows(ba, pw * bpp, ph, Zeros(pw * bpp), bpp)
      case Err(e) => Err(e)
      case Ok(rs) =>
        match SampleLines(st, ctype, rs.lines, pw)
        case Err(e) => Err(BadSample)
        case Ok(rows) => Ok(Drawn(PlaceRows(px, w, h, p, rows), rs.rest))
  }

  // ----- The whole decoder -----

  // The table {0: 1, 2: 3, 3: 1, 4: 2, 6: 4}; 0 stands for a missing key.
  function Components(ctype: byte): nat {
    match ctype
    case 0 => 1
    case 2 => 3
    case 3 => 1
    case 4 => 2
    case 6 => 4
    case _ => 0
  }

  function BytesPerPixel(ctype: byte, depth: byte): nat {
    Components(ctype) * if depth / 8 > 1 then depth / 8 else 1
  }

  const PLAIN: seq<Pass> := [EVERYWHERE]
  const INTERLACED: seq<Pass> :=
    [Pass(0, 0, 8, 8), Pass(4, 0, 8, 8), Pass(0, 4, 4, 8), Pass(2, 0, 4, 4),
     Pass(0, 2, 2, 4), Pass(1, 0, 2, 2), EVERYWHERE]

  function PassTable(interlace: byte): seq<Pass> {
    if interlace != 0 then INTERLACED else PLAIN
  }

  lemma TablesStep(interlace: byte)
    ensures AllStep(PassTable(interlace))
  {
  }

  function Blank(n: nat): (px: seq<Option<Pixel>>)
    ensures |px| == n
  {
    seq(n, _ => None)
  }

  datatype Image = Image(width: nat, height: nat, px: seq<Option<Pixel>>)

  type Inflate = seq<byte> -> Option<seq<byte>>

  // From the inflated data on. The data left over is not looked at.
  ghost function DecodeData(st: Parsed, ba: seq<byte>): Result<Drawn> {
    if st.ihdr.None? || Components(st.ihdr.value.ctype) == 0 then Err(BadColorType)
    else
      var hd := st.ihdr.value;
      TablesStep(hd.interlace);
      DecodePasses(st, hd.ctype, hd.width, hd.height, BytesPerPixel(hd.ctype, hd.depth), ba,
                   Blank(hd.width * hd.height), PassTable(hd.interlace))
  }

  // The decoder as a function of what the chunk loop gathered.
  ghost function DecodeParsed(parsed: Result<Parsed>, inflate: Inflate): Result<Image> {
    match parsed
    case Err(e) => Err(e)
    case Ok(st) =>
      match inflate(st.idat)
      case None => Err(BadStream)
      case Some(ba) =>
        match DecodeData(st, ba)
        case Err(e) => Err(e)
        case Ok(d) => Ok(Image(st.ihdr.value.width, st.ihdr.value.height, d.px))
  }

  ghost function Decode(raw: seq<byte>, inflate: Inflate): Result<Image> {
    DecodeParsed(Parse(raw, 8, NOTHING), inflate)
  }

  method RunPass(st: Parsed, ctype: byte, w: nat, h: nat, bpp: nat, ba: seq<byte>, px: seq<Option<Pixel>>, p: Pass)
    returns (r: Result<Drawn>)
    requires bpp > 0 && |px| == w * h && Steps(p)
    ensures r == DecodeOnePass(st, ctype, w, h, bpp, ba, px, p)
  {
    var pw, ph := Columns(p, w), Lines(p, h);
    if pw == 0 || ph == 0 { return Ok(Drawn(px, ba)); }
    var rs := DecodePass(ba, pw, ph, bpp);
    if rs.Err? { return Err(rs.error); }
    var next := DrawPass(st, ctype, rs.value.lines, px, w, h, p);
    if next.Err? { return Err(BadSample); }
    return Ok(Drawn(next.value, rs.value.rest));
  }

  method RunPasses(st: Parsed, ctype: byte, w: nat, h: nat, bpp: nat, data: seq<byte>, passes: seq<Pass>)
    returns (r: Result<Drawn>)
    requires bpp > 0 && AllStep(passes)
    ensures r == DecodePasses(st, ctype, w, h, bpp, data, Blank(w * h), passes)
  {
    var ba, px := data, Blank(w * h);
    for i := 0 to |passes|
      invariant |px| == w * h
      invariant DecodePasses(st, ctype, w, h, bpp, data, Blank(w * h), passes)
             == DecodePasses(st, ctype, w, h, bpp, ba, px, passes[i..])
    {
      var next := RunPass(st, ctype, w, h, bpp, ba, px, passes[i]);
      if next.Err? { return Err(next.error); }
      assert passes[i..][1..] == passes[i + 1..];
      ba, px := next.value.rest, next.value.px;
    }
    return Ok(Drawn(px, ba));
  }

  // decode_png on the bytes of a file.
  method DecodePng(raw: seq<byte>, inflate: Inflate) returns (r: Result<Image>)
    ensures r == Decode(raw, inflate)
  {
    var parsed := ParseChunks(raw);
    if parsed.Err? { return Err(parsed.error); }
    var st := parsed.value;
    var ba := inflate(st.idat);
    if ba.None? { return Err(BadStream); }
    if st.ihdr.None? || Components(st.ihdr.value.ctype) == 0 { return Err(BadColorType); }
    var hd := st.ihdr.value;
    TablesStep(hd.interlace);
    var bpp := BytesPerPixel(hd.ctype, hd.depth);
    var d := RunPasses(st, hd.ctype, hd.width, hd.height, bpp, ba.value, PassTable(hd.interlace));
    if d.Err? { return Err(d.error); }
    return Ok(Image(hd.width, hd.height, d.value.px));
  }

  // ----- What is rejected, and what is not -----

  // After the chunks: data that does not inflate, then a header that is missing or has a color
  // type other than the five there are.
  lemma HeaderErrors(raw: seq<byte>, inflate: Inflate, st: Parsed)
    requires Parse(raw, 8, NOTHING) == Ok(st)
    ensures Decode(raw, inflate) == Err(BadStream) <==> inflate(st.idat) == None
    ensures Decode(raw, inflate) == Err(BadColorType)
       <==> inflate(st.idat) != None && (st.ihdr == None || st.ihdr.value.ctype !in {0, 2, 3, 4, 6})
  {
    if inflate(st.idat) != None && st.ihdr.Some? && Components(st.ihdr.value.ctype) != 0 {
      var hd := st.ihdr.value;
      TablesStep(hd.interlace);
      PassErrors(st, hd.ctype, hd.width, hd.height, BytesPerPixel(hd.ctype, hd.depth), inflate(st.idat).value,
                 Blank(hd.width * hd.height), PassTable(hd.interlace));
    }
  }

  lemma {:induction false} RowErrors(ba: seq<byte>, n: nat, ph: nat, prev: seq<byte>, bpp: nat)
    requires bpp > 0 && (|prev| == n || ba == [])
    ensures var r := DecodeRows(ba, n, ph, prev, bpp); r.Err? ==> r.error == OutOfData || r.error == BadFilter
    decreases ph
  {
    if ph > 0 && ba != [] && ba[0] <= 4 {
      var k := Min(n, |ba| - 1);
      RowErrors(ba[1 + k..], n, ph - 1, PngFilter.Recon(ba[0], ba[1..1 + k], prev, bpp), bpp);
    }
  }

  lemma {:induction false} PassErrors(st: Parsed, ctype: byte, w: nat, h: nat, bpp: nat, ba: seq<byte>,
          px: seq<Option<Pixel>>, passes: seq<Pass>)
    requires bpp > 0 && |px| == w * h && AllStep(passes)
    ensures var r := DecodePasses(st, ctype, w, h, bpp, ba, px, passes);
            r.Err? ==> r.error in {OutOfData, BadFilter, BadSample}
    decreases |passes|
  {
    if passes != [] {
      var p := passes[0];
      if Columns(p, w) > 0 && Lines(p, h) > 0 {
        RowErrors(ba, Columns(p, w) * bpp, Lines(p, h), Zeros(Columns(p, w) * bpp), bpp);
      }
      var d := DecodeOnePass(st, ctype, w, h, bpp, ba, px, p);
      if d.Ok? { PassErrors(st, ctype, w, h, bpp, d.value.rest, d.value.px, passes[1..]); }
    }
  }

  // A sample fails exactly where its bytes are not all there, or the palette has no such entry.
  // Only RGBA does not mind: it gives as many of the four bytes as there are.
  lemma SampleFails(st: Parsed, ctype: byte, line: seq<byte>, x: nat)
    ensures Sample(st, ctype, line, x) == Err(BadSample)
       <==> || (ctype == 2 && |line| < 3 * x + 3)
            || (ctype == 4 && |line| < 2 * x + 2)
            || (ctype == 0 && |line| <= x)
            || (ctype !in {0, 2, 4, 6} &&
                (|line| <= x || st.palette == None || |st.palette.value| <= line[x]))
    ensures ctype == 6 && 4 * x <= |line| < 4 * x + 4 ==> Sample(st, ctype, line, x) == Ok(line[4 * x..])
    ensures ctype == 6 && |line| < 4 * x ==> Sample(st, ctype, line, x) == Ok([])
  {
    var s := Slice(line, 4 * x, 4 * x + 4);
    assert 4 * x <= |line| < 4 * x + 4 ==> s == line[4 * x..];
    assert |line| < 4 * x ==> s == [];
  }

  // The depths and color types of section 4.1.1 of RFC 2083.
  predicate Allowed(ctype: byte, depth: byte) {
    match ctype
    case 0 => depth in {1, 2, 4, 8, 16}
    case 3 => depth in {1, 2, 4, 8}
    case _ => ctype in {2, 4, 6} && depth in {8, 16}
  }

  // For all of them bpp is the bytes of a whole pixel, rounded up to one (section 6.2).
  lemma StandardStride(ctype: byte, depth: byte)
    requires Allowed(ctype, depth)
    ensures var samples := if ctype == 2 then 3 else if ctype == 4 then 2 else if ctype == 6 then 4 else 1;
            BytesPerPixel(ctype, depth) == (samples * depth + 7) / 8
  {
  }

  // How the data is cut into chunks, what other chunks there are and what comes after IEND does
  // not change the image.
  lemma FramingKeepsImage(pre: seq<byte>, cs: seq<Chunk>, trail: seq<byte>, pre': seq<byte>, ds: seq<Chunk>,
          trail': seq<byte>, inflate: Inflate)
    requires |pre| == |pre'| == 8 && AllWellFormed(cs) && AllWellFormed(ds)
    requires (trail == [] || Ends(cs)) && (trail' == [] || Ends(ds))
    requires Control(cs) == Control(ds) && Data(cs) == Data(ds)
    ensures Decode(pre + Serialized(cs) + trail, inflate) == Decode(pre' + Serialized(ds) + trail', inflate)
  {
    SameContentParsesAlike(pre, cs, trail, pre', ds, trail');
  }
}
