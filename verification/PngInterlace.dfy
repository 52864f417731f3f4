/** The interlace table of decode_png against section 2.6 of RFC 2083: six passes agree with the
    standard, and the seventh, which takes every position instead of the odd rows, decides the
    image and the amount of data read. */
module PngInterlace {
  import opened Bytes
  import opened Common
  import opened PngRows
  import opened PngChunks
  import opened PngPlace
  import opened PngDecode

  // ----- The first six passes -----

  // The one pass of the six that holds (x, y), for y even.
  function PassOf(x: nat, y: nat): nat {
    if x % 2 == 1 then 5
    else if y % 4 == 2 then 4
    else if x % 4 == 2 then 3
    else if y % 8 == 4 then 2
    else if x % 8 == 4 then 1
    else 0
  }

  lemma Grid(start: nat, step: nat, x: nat)
    requires start < step && (step == 1 || step == 2 || step == 4 || step == 8)
    ensures OnGrid(start, step, x) <==> x % step == start
  {
    if x % step == start {
      assert Point(start, step, x / step) == x;
    }
    if OnGrid(start, step, x) {
      var s: nat :| Point(start, step, s) == x;
      assert step == 1 ==> x == start + s;
      assert step == 2 ==> x == start + 2 * s;
      assert step == 4 ==> x == start + 4 * s;
      assert step == 8 ==> x == start + 8 * s;
    }
  }

  lemma Remainder4(x: nat, q: nat, r: nat)
    requires x == 4 * q + r && r < 4
    ensures x % 4 == r
  {
  }

  lemma Remainder2(x: nat, q: nat, r: nat)
    requires x == 2 * q + r && r < 2
    ensures x % 2 == r
  {
  }

  // Residues modulo 8 give those modulo 4 and 2.
  lemma Residues(x: nat)
    ensures x % 4 == x % 8 % 4 && x % 2 == x % 8 % 2
  {
    var q, r := x / 8, x % 8;
    Remainder4(x, 2 * q + r / 4, r % 4);
    Remainder2(x, 4 * q + r / 2, r % 2);
  }

  // Whether pass i holds a position with residues a and b modulo 8.
  predicate HoldsResidues(i: nat, a: nat, b: nat) {
    if i == 0 then a == 0 && b == 0
    else if i == 1 then a == 4 && b == 0
    else if i == 2 then a % 4 == 0 && b == 4
    else if i == 3 then a % 4 == 2 && b % 4 == 0
    else if i == 4 then a % 2 == 0 && b % 4 == 2
    else a % 2 == 1 && b % 2 == 0
  }

  lemma CoversByResidues(x: nat, y: nat, i: nat)
    requires i < 6
    ensures Covers(INTERLACED[i], x, y) <==> HoldsResidues(i, x % 8, y % 8)
  {
    var p := INTERLACED[i];
    Grid(p.x0, p.xstep, x);
    Grid(p.y0, p.ystep, y);
    Residues(x);
    Residues(y);
  }

  lemma OnePass(a: nat, b: nat, i: nat)
    requires a < 8 && b < 8 && i < 6
    ensures HoldsResidues(i, a, b) <==> b % 2 == 0 && PassOf(a, b) == i
  {
  }

  // The first six passes share no position, and together they hold exactly the even rows.
  lemma SixPasses(x: nat, y: nat, i: nat)
    requires i < 6
    ensures Covers(INTERLACED[i], x, y) <==> y % 2 == 0 && PassOf(x, y) == i
  {
    CoversByResidues(x, y, i);
    OnePass(x % 8, y % 8, i);
    Residues(x);
    Residues(y);
  }

  ghost predicate SomeCovers(passes: seq<Pass>, x: nat, y: nat) {
    exists i :: 0 <= i < |passes| && Covers(passes[i], x, y)
  }

  lemma CoversFirst(passes: seq<Pass>, x: nat, y: nat)
    requires passes != []
    ensures SomeCovers(passes, x, y) <==> Covers(passes[0], x, y) || SomeCovers(passes[1..], x, y)
  {
    if SomeCovers(passes, x, y) && !Covers(passes[0], x, y) {
      var i :| 0 <= i < |passes| && Covers(passes[i], x, y);
      assert passes[1..][i - 1] == passes[i];
    }
    if SomeCovers(passes[1..], x, y) {
      var i :| 0 <= i < |passes[1..]| && Covers(passes[1..][i], x, y);
      assert passes[i + 1] == passes[1..][i];
    }
  }

  lemma EvenRowsCovered(x: nat, y: nat)
    ensures SomeCovers(INTERLACED[..6], x, y) <==> y % 2 == 0
  {
    if y % 2 == 0 {
      SixPasses(x, y, PassOf(x, y));
      assert Covers(INTERLACED[..6][PassOf(x, y)], x, y);
    } else if SomeCovers(INTERLACED[..6], x, y) {
      var i :| 0 <= i < |INTERLACED[..6]| && Covers(INTERLACED[..6][i], x, y);
      SixPasses(x, y, i);
    }
  }

  lemma CoveredIndex(p: Pass, w: nat, h: nat, x: nat, y: nat) returns (sx: nat, sy: nat)
    requires Steps(p) && x < w && y < h && Covers(p, x, y)
    ensures sx < Columns(p, w) && sy < Lines(p, h)
    ensures x == p.x0 + sx * p.xstep && y == p.y0 + sy * p.ystep
  {
    sx :| Point(p.x0, p.xstep, sx) == x;
    sy :| Point(p.y0, p.ystep, sy) == y;
    CountExact(w, p.x0, p.xstep, sx);
    CountExact(h, p.y0, p.ystep, sy);
  }

  lemma CoveredIsFilled(px: seq<Option<Pixel>>, w: nat, h: nat, p: Pass, rows: seq<seq<Pixel>>, x: nat, y: nat)
    requires |px| == w * h && Steps(p) && Fits(rows, p, w, h) && |rows| == Lines(p, h) && x < w && y < h
    requires Covers(p, x, y)
    ensures At(PlaceRows(px, w, h, p, rows), w, h, x, y) != None
  {
    var sx, sy := CoveredIndex(p, w, h, x, y);
    RowsHit(px, w, h, p, rows, sx, sy);
  }

  // A position is filled by the rows of a pass if and only if the pass covers it.
  lemma RowsFill(px: seq<Option<Pixel>>, w: nat, h: nat, p: Pass, rows: seq<seq<Pixel>>, x: nat, y: nat)
    requires |px| == w * h && Steps(p) && Fits(rows, p, w, h) && |rows| == Lines(p, h) && x < w && y < h
    ensures At(PlaceRows(px, w, h, p, rows), w, h, x, y) == None <==> At(px, w, h, x, y) == None && !Covers(p, x, y)
  {
    if Covers(p, x, y) {
      CoveredIsFilled(px, w, h, p, rows, x, y);
    } else {
      RowsMiss(px, w, h, p, rows, x, y);
    }
  }

  lemma PassFills(st: Parsed, ctype: byte, w: nat, h: nat, bpp: nat, ba: seq<byte>, px: seq<Option<Pixel>>, p: Pass,
          x: nat, y: nat)
    requires bpp > 0 && |px| == w * h && Steps(p) && x < w && y < h
    requires DecodeOnePass(st, ctype, w, h, bpp, ba, px, p).Ok?
    ensures At(DecodeOnePass(st, ctype, w, h, bpp, ba, px, p).value.px, w, h, x, y) == None
       <==> At(px, w, h, x, y) == None && !Covers(p, x, y)
  {
    var pw, ph := Columns(p, w), Lines(p, h);
    if pw == 0 || ph == 0 {
      if Covers(p, x, y) {
        var _, _ := CoveredIndex(p, w, h, x, y);
      }
    } else {
      var lines := DecodeRows(ba, pw * bpp, ph, Zeros(pw * bpp), bpp).value.lines;
      RowsFill(px, w, h, p, SampleLines(st, ctype, lines, pw).value, x, y);
    }
  }

  lemma {:induction false} PassesFill(st: Parsed, ctype: byte, w: nat, h: nat, bpp: nat, ba: seq<byte>,
          px: seq<Option<Pixel>>, passes: seq<Pass>, x: nat, y: nat)
    requires bpp > 0 && |px| == w * h && AllStep(passes) && x < w && y < h
    requires DecodePasses(st, ctype, w, h, bpp, ba, px, passes).Ok?
    ensures At(DecodePasses(st, ctype, w, h, bpp, ba, px, passes).value.px, w, h, x, y) == None
       <==> At(px, w, h, x, y) == None && !SomeCovers(passes, x, y)
    decreases |passes|
  {
    if passes != [] {
      PassFills(st, ctype, w, h, bpp, ba, px, passes[0], x, y);
      var d := DecodeOnePass(st, ctype, w, h, bpp, ba, px, passes[0]).value;
      PassesFill(st, ctype, w, h, bpp, d.rest, d.px, passes[1..], x, y);
      CoversFirst(passes, x, y);
    }
  }

  lemma BlankAt(w: nat, h: nat, x: nat, y: nat)
    requires x < w && y < h
    ensures At(Blank(w * h), w, h, x, y) == None
  {
    IndexInRange(x, y, w, h);
  }

  // After the first six passes, exactly the pixels of the odd rows are still missing.
  lemma OddRowsMissing(st: Parsed, ctype: byte, w: nat, h: nat, bpp: nat, ba: seq<byte>, six: seq<Pass>, d: Drawn,
          x: nat, y: nat)
    requires bpp > 0 && six == INTERLACED[..6] && AllStep(six) && x < w && y < h
    requires DecodePasses(st, ctype, w, h, bpp, ba, Blank(w * h), six) == Ok(d)
    ensures At(d.px, w, h, x, y) == None <==> y % 2 == 1
  {
    assert At(d.px, w, h, x, y) == None <==> !SomeCovers(six, x, y) by {
      BlankAt(w, h, x, y);
      PassesFill(st, ctype, w, h, bpp, ba, Blank(w * h), six, x, y);
    }
    EvenRowsCovered(x, y);
  }

  // ----- The seventh pass decides the image -----

  lemma {:induction false} PassesSplit(st: Parsed, ctype: byte, w: nat, h: nat, bpp: nat, ba: seq<byte>,
                                       px: seq<Option<Pixel>>, a: seq<Pass>, p: Pass)
    requires bpp > 0 && |px| == w * h && AllStep(a) && Steps(p)
    ensures AllStep(a + [p])
    ensures var d := DecodePasses(st, ctype, w, h, bpp, ba, px, a);
            DecodePasses(st, ctype, w, h, bpp, ba, px, a + [p])
            == if d.Err? then d else DecodeOnePass(st, ctype, w, h, bpp, d.value.rest, d.value.px, p)
    decreases |a|
  {
    assert AllStep(a + [p]);
    if a == [] {
      assert a + [p] == [p] && [p][1..] == [];
    } else {
      assert (a + [p])[0] == a[0] && (a + [p])[1..] == a[1..] + [p];
      var first := DecodeOnePass(st, ctype, w, h, bpp, ba, px, a[0]);
      if first.Ok? {
        PassesSplit(st, ctype, w, h, bpp, first.value.rest, first.value.px, a[1..], p);
      }
    }
  }

  lemma SamePixels(a: seq<Option<Pixel>>, b: seq<Option<Pixel>>, w: nat, h: nat)
    requires |a| == |b| == w * h
    requires forall x, y :: 0 <= x < w && 0 <= y < h ==> At(a, w, h, x, y) == At(b, w, h, x, y)
    ensures a == b
  {
    forall i | 0 <= i < w * h
      ensures a[i] == b[i]
    {
      var x, y := Coordinates(i, w, h);
      assert At(a, w, h, x, y) == At(b, w, h, x, y);
    }
  }

  // The last pass gives the same image whatever the pixels were before it.
  lemma LastPassAlone(st: Parsed, ctype: byte, w: nat, h: nat, bpp: nat, ba: seq<byte>, px: seq<Option<Pixel>>,
          px': seq<Option<Pixel>>)
    requires bpp > 0 && |px| == |px'| == w * h
    ensures DecodeOnePass(st, ctype, w, h, bpp, ba, px, EVERYWHERE)
         == DecodeOnePass(st, ctype, w, h, bpp, ba, px', EVERYWHERE)
  {
    EverywhereCounts(w, h);
    if w == 0 || h == 0 {
      assert px == [] && px' == [];
    } else {
      var rs := DecodeRows(ba, w * bpp, h, Zeros(w * bpp), bpp);
      if rs.Ok? && SampleLines(st, ctype, rs.value.lines, w).Ok? {
        var rows := SampleLines(st, ctype, rs.value.lines, w).value;
        PlacedAlike(px, px', w, h, rows);
      }
    }
  }

  lemma PlacedAlike(px: seq<Option<Pixel>>, px': seq<Option<Pixel>>, w: nat, h: nat, rows: seq<seq<Pixel>>)
    requires |px| == |px'| == w * h && Fits(rows, EVERYWHERE, w, h) && |rows| == h
    ensures PlaceRows(px, w, h, EVERYWHERE, rows) == PlaceRows(px', w, h, EVERYWHERE, rows)
  {
    var a, b := PlaceRows(px, w, h, EVERYWHERE, rows), PlaceRows(px', w, h, EVERYWHERE, rows);
    forall x, y | 0 <= x < w && 0 <= y < h
      ensures At(a, w, h, x, y) == At(b, w, h, x, y)
    {
      EverywhereOverwrites(px, w, h, rows, x, y);
      EverywhereOverwrites(px', w, h, rows, x, y);
    }
    SamePixels(a, b, w, h);
  }

  // An interlaced image decodes to what a plain one would whose data is that left by the first
  // six passes; their samples are all overwritten.
  lemma SixPassesLost(st: Parsed, ctype: byte, w: nat, h: nat, bpp: nat, ba: seq<byte>, px: seq<Option<Pixel>>)
    requires bpp > 0 && |px| == w * h
    ensures AllStep(INTERLACED) && AllStep(INTERLACED[..6]) && AllStep(PLAIN)
    ensures var six := DecodePasses(st, ctype, w, h, bpp, ba, px, INTERLACED[..6]);
            DecodePasses(st, ctype, w, h, bpp, ba, px, INTERLACED)
            == if six.Err? then six else DecodePasses(st, ctype, w, h, bpp, six.value.rest, Blank(w * h), PLAIN)
  {
    assert INTERLACED[..6] + [EVERYWHERE] == INTERLACED;
    PassesSplit(st, ctype, w, h, bpp, ba, px, INTERLACED[..6], EVERYWHERE);
    var six := DecodePasses(st, ctype, w, h, bpp, ba, px, INTERLACED[..6]);
    if six.Ok? {
      LastPassAlone(st, ctype, w, h, bpp, six.value.rest, six.value.px, Blank(w * h));
      assert [] + [EVERYWHERE] == PLAIN;
      PassesSplit(st, ctype, w, h, bpp, six.value.rest, Blank(w * h), [], EVERYWHERE);
    }
  }

  // ----- Conforming interlaced images -----

  // Bytes of ph filtered rows of n bytes each.
  function RowBytes(n: nat, ph: nat): nat {
    ph * (1 + n)
  }

  lemma RowBytesStep(n: nat, ph: nat)
    requires ph > 0
    ensures RowBytes(n, ph) == RowBytes(n, ph - 1) + 1 + n
  {
  }

  // Rows that decode used up their bytes, as far as there were any, and all rows but the last
  // were there in full.
  lemma {:induction false} RowsConsume(ba: seq<byte>, n: nat, ph: nat, prev: seq<byte>, bpp: nat)
    requires bpp > 0 && (|prev| == n || ba == []) && DecodeRows(ba, n, ph, prev, bpp).Ok?
    ensures var rest := DecodeRows(ba, n, ph, prev, bpp).value.rest;
            |rest| == if |ba| > RowBytes(n, ph) then |ba| - RowBytes(n, ph) else 0
    ensures ph > 0 ==> |ba| > RowBytes(n, ph - 1)
    decreases ph
  {
    if ph > 0 {
      var k := Min(n, |ba| - 1);
      RowBytesStep(n, ph);
      RowsConsume(ba[1 + k..], n, ph - 1, PngFilter.Recon(ba[0], ba[1..1 + k], prev, bpp), bpp);
      if ph > 1 { RowBytesStep(n, ph - 1); }
    }
  }

  // The data that a pass stands for.
  function PassBytes(p: Pass, w: nat, h: nat, bpp: nat): nat
    requires Steps(p)
  {
    var pw, ph := Columns(p, w), Lines(p, h);
    if pw == 0 || ph == 0 then 0 else RowBytes(pw * bpp, ph)
  }

  function TotalBytes(passes: seq<Pass>, w: nat, h: nat, bpp: nat): nat
    requires forall i :: 0 <= i < |passes| ==> Steps(passes[i])
  {
    if passes == [] then 0 else PassBytes(passes[0], w, h, bpp) + TotalBytes(passes[1..], w, h, bpp)
  }

  lemma PassConsumes(st: Parsed, ctype: byte, w: nat, h: nat, bpp: nat, ba: seq<byte>, px: seq<Option<Pixel>>, p: Pass)
    requires bpp > 0 && |px| == w * h && Steps(p) && DecodeOnePass(st, ctype, w, h, bpp, ba, px, p).Ok?
    ensures var rest := DecodeOnePass(st, ctype, w, h, bpp, ba, px, p).value.rest;
            |rest| == if |ba| > PassBytes(p, w, h, bpp) then |ba| - PassBytes(p, w, h, bpp) else 0
  {
    var pw, ph := Columns(p, w), Lines(p, h);
    if pw > 0 && ph > 0 {
      RowsConsume(ba, pw * bpp, ph, Zeros(pw * bpp), bpp);
    }
  }

  lemma {:induction false} PassesConsume(st: Parsed, ctype: byte, w: nat, h: nat, bpp: nat, ba: seq<byte>,
                                         px: seq<Option<Pixel>>, passes: seq<Pass>)
    requires bpp > 0 && |px| == w * h && AllStep(passes) && DecodePasses(st, ctype, w, h, bpp, ba, px, passes).Ok?
    ensures var rest := DecodePasses(st, ctype, w, h, bpp, ba, px, passes).value.rest;
            var total := TotalBytes(passes, w, h, bpp);
            |rest| == if |ba| > total then |ba| - total else 0
    decreases |passes|
  {
    if passes != [] {
      PassConsumes(st, ctype, w, h, bpp, ba, px, passes[0]);
      var d := DecodeOnePass(st, ctype, w, h, bpp, ba, px, passes[0]).value;
      PassesConsume(st, ctype, w, h, bpp, d.rest, d.px, passes[1..]);
    }
  }

  // The seventh pass of section 2.6 of RFC 2083: the odd rows.
  const ODD_ROWS := Pass(0, 1, 1, 2)

  // The inflated size of a conforming interlaced image.
  function StandardBytes(w: nat, h: nat, bpp: nat): nat {
    TotalBytes(INTERLACED[..6], w, h, bpp) + PassBytes(ODD_ROWS, w, h, bpp)
  }

  lemma OddRowsTooFew(w: nat, h: nat, bpp: nat)
    requires w > 0 && h > 0
    ensures PassBytes(ODD_ROWS, w, h, bpp) <= RowBytes(w * bpp, h - 1)
  {
    assert Lines(ODD_ROWS, h) == h / 2 && Columns(ODD_ROWS, w) == w;
    if h / 2 > 0 {
      MulMono(h / 2, h - 1, 1 + w * bpp);
    }
  }

  // decode_png takes the data of a conforming interlaced image, or any shorter data, exactly when
  // the image has no pixels: the seventh entry of its table asks for all rows, and the data holds
  // only the odd ones.
  lemma ConformingInterlacedDecodes(st: Parsed, ba: seq<byte>)
    requires st.ihdr.Some? && st.ihdr.value.interlace != 0 && Components(st.ihdr.value.ctype) != 0
    requires var hd := st.ihdr.value;
             |ba| <= StandardBytes(hd.width, hd.height, BytesPerPixel(hd.ctype, hd.depth))
    ensures DecodeData(st, ba).Ok? <==> st.ihdr.value.width == 0 || st.ihdr.value.height == 0
  {
    var hd := st.ihdr.value;
    var w, h, bpp := hd.width, hd.height, BytesPerPixel(hd.ctype, hd.depth);
    var px := Blank(w * h);
    TablesStep(hd.interlace);
    if w == 0 || h == 0 {
      NothingToDo(st, hd.ctype, w, h, bpp, ba, px, INTERLACED);
    } else {
      SixPassesLost(st, hd.ctype, w, h, bpp, ba, px);
      var six := DecodePasses(st, hd.ctype, w, h, bpp, ba, px, INTERLACED[..6]);
      if six.Ok? {
        PassesConsume(st, hd.ctype, w, h, bpp, ba, px, INTERLACED[..6]);
        TooShort(st, hd.ctype, w, h, bpp, six.value.rest);
      }
    }
  }

  lemma TooShort(st: Parsed, ctype: byte, w: nat, h: nat, bpp: nat, ba: seq<byte>)
    requires bpp > 0 && w > 0 && h > 0 && |ba| <= PassBytes(ODD_ROWS, w, h, bpp)
    ensures AllStep(PLAIN) && DecodePasses(st, ctype, w, h, bpp, ba, Blank(w * h), PLAIN).Err?
  {
    EverywhereCounts(w, h);
    OddRowsTooFew(w, h, bpp);
    if DecodeRows(ba, w * bpp, h, Zeros(w * bpp), bpp).Ok? {
      RowsConsume(ba, w * bpp, h, Zeros(w * bpp), bpp);
    }
  }

  lemma {:induction false} NothingToDo(st: Parsed, ctype: byte, w: nat, h: nat, bpp: nat, ba: seq<byte>,
                                       px: seq<Option<Pixel>>, passes: seq<Pass>)
    requires bpp > 0 && |px| == w * h && AllStep(passes) && (w == 0 || h == 0)
    ensures DecodePasses(st, ctype, w, h, bpp, ba, px, passes).Ok?
    decreases |passes|
  {
    if passes != [] { NothingToDo(st, ctype, w, h, bpp, ba, px, passes[1..]); }
  }
}
