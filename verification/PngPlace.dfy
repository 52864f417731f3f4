/** Where decode_png puts the samples of an interlace pass. */
module PngPlace {
  import opened Common

  // One pixel as the list or slice that _sample returns.
  type Pixel = seq<nat>

  // An entry (x0, y0, xstep, ystep) of the pass table.
  datatype Pass = Pass(x0: nat, y0: nat, xstep: nat, ystep: nat)

  predicate Steps(p: Pass) {
    p.xstep > 0 && p.ystep > 0
  }

  // pw or ph: how many of start, start + step, ... are below size.
  function Count(size: nat, start: nat, step: nat): nat
    requires step > 0
  {
    if size > start then (size - start + step - 1) / step else 0
  }

  lemma MulMono(a: nat, b: nat, w: nat)
    requires a <= b
    ensures a * w <= b * w
  {
  }

  lemma DivisionBounds(d: nat, step: nat)
    requires step > 0
    ensures d / step * step <= d < (d / step + 1) * step
  {
  }

  lemma CountExact(size: nat, start: nat, step: nat, s: nat)
    requires step > 0
    ensures s < Count(size, start, step) <==> start + s * step < size
  {
    if size > start {
      var n, d := Count(size, start, step), size - start + step - 1;
      DivisionBounds(d, step);
      if s < n {
        MulMono(s + 1, n, step);
      } else {
        MulMono(n, s, step);
      }
    }
  }

  // ----- The pixel list as rows of width w -----

  lemma IndexInRange(x: nat, y: nat, w: nat, h: nat)
    requires x < w && y < h
    ensures y * w + x < w * h
  {
    MulMono(y + 1, h, w);
  }

  lemma IndexDistinct(x: nat, y: nat, x': nat, y': nat, w: nat)
    requires x < w && x' < w && (x != x' || y != y')
    ensures y * w + x != y' * w + x'
  {
    if y < y' {
      MulMono(y + 1, y', w);
    } else if y' < y {
      MulMono(y' + 1, y, w);
    }
  }

  // px[y * width + x]
  function At<T>(px: seq<T>, w: nat, h: nat, x: nat, y: nat): T
    requires |px| == w * h && x < w && y < h
  {
    IndexInRange(x, y, w, h);
    px[y * w + x]
  }

  function Put<T>(px: seq<T>, w: nat, h: nat, x: nat, y: nat, v: T): (r: seq<T>)
    requires |px| == w * h && x < w && y < h
    ensures |r| == w * h
  {
    IndexInRange(x, y, w, h);
    px[y * w + x := v]
  }

  lemma AtPut<T>(px: seq<T>, w: nat, h: nat, x: nat, y: nat, v: T, x': nat, y': nat)
    requires |px| == w * h && x < w && y < h && x' < w && y' < h
    ensures At(Put(px, w, h, x, y, v), w, h, x', y') == if x' == x && y' == y then v else At(px, w, h, x', y')
  {
    var i, j := y * w + x, y' * w + x';
    IndexInRange(x, y, w, h);
    IndexInRange(x', y', w, h);
    if x' != x || y' != y {
      IndexDistinct(x, y, x', y', w);
      assert px[i := v][j] == px[j];
    }
  }

  lemma Coordinates(i: nat, w: nat, h: nat) returns (x: nat, y: nat)
    requires i < w * h
    ensures x < w && y < h && i == y * w + x
  {
    x, y := i % w, i / w;
    if y >= h { MulMono(h, y, w); }
  }

  // ----- One line of a pass -----

  ghost predicate LineFits(n: nat, x0: nat, xstep: nat, w: nat) {
    forall s :: 0 <= s < n ==> x0 + s * xstep < w
  }

  // A line of samples written to row y, left to right.
  ghost function PlaceLine(px: seq<Option<Pixel>>, w: nat, h: nat, x0: nat, xstep: nat, y: nat, row: seq<Pixel>)
    : (r: seq<Option<Pixel>>)
    requires |px| == w * h && y < h && LineFits(|row|, x0, xstep, w)
    ensures |r| == w * h
  {
    if row == [] then px
    else
      var n := |row| - 1;
      Put(PlaceLine(px, w, h, x0, xstep, y, row[..n]), w, h, x0 + n * xstep, y, Some(row[n]))
  }

  lemma StepDistinct(x0: nat, step: nat, s: nat, t: nat)
    requires step > 0 && s < t
    ensures x0 + s * step < x0 + t * step
  {
    MulMono(s + 1, t, step);
  }

  lemma {:induction false} LineHit(px: seq<Option<Pixel>>, w: nat, h: nat, x0: nat, xstep: nat, y: nat,
          row: seq<Pixel>, s: nat)
    requires |px| == w * h && y < h && s < |row| && xstep > 0 && LineFits(|row|, x0, xstep, w)
    ensures x0 + s * xstep < w
    ensures At(PlaceLine(px, w, h, x0, xstep, y, row), w, h, x0 + s * xstep, y) == Some(row[s])
    decreases |row|
  {
    var n := |row| - 1;
    var done := PlaceLine(px, w, h, x0, xstep, y, row[..n]);
    AtPut(done, w, h, x0 + n * xstep, y, Some(row[n]), x0 + s * xstep, y);
    if s < n {
      StepDistinct(x0, xstep, s, n);
      LineHit(px, w, h, x0, xstep, y, row[..n], s);
    }
  }

  lemma {:induction false} LineMiss(px: seq<Option<Pixel>>, w: nat, h: nat, x0: nat, xstep: nat, y: nat,
          row: seq<Pixel>, x': nat, y': nat)
    requires |px| == w * h && y < h && LineFits(|row|, x0, xstep, w)
    requires x' < w && y' < h && (y' != y || forall s :: 0 <= s < |row| ==> x' != x0 + s * xstep)
    ensures At(PlaceLine(px, w, h, x0, xstep, y, row), w, h, x', y') == At(px, w, h, x', y')
    decreases |row|
  {
    if row != [] {
      var n := |row| - 1;
      var done := PlaceLine(px, w, h, x0, xstep, y, row[..n]);
      AtPut(done, w, h, x0 + n * xstep, y, Some(row[n]), x', y');
      LineMiss(px, w, h, x0, xstep, y, row[..n], x', y');
    }
  }

  // ----- A whole pass -----

  function Columns(p: Pass, w: nat): nat
    requires Steps(p)
  {
    Count(w, p.x0, p.xstep)
  }

  function Lines(p: Pass, h: nat): nat
    requires Steps(p)
  {
    Count(h, p.y0, p.ystep)
  }

  lemma ColumnsFit(p: Pass, w: nat)
    requires Steps(p)
    ensures LineFits(Columns(p, w), p.x0, p.xstep, w)
  {
    forall s | 0 <= s < Columns(p, w)
      ensures p.x0 + s * p.xstep < w
    {
      CountExact(w, p.x0, p.xstep, s);
    }
  }

  // At most one line of samples for each line of the pass, one sample for each column.
  ghost predicate Fits(rows: seq<seq<Pixel>>, p: Pass, w: nat, h: nat)
    requires Steps(p)
  {
    && |rows| <= Lines(p, h)
    && forall i :: 0 <= i < |rows| ==> |rows[i]| == Columns(p, w)
  }

  // The lines of a pass written to the pixel list, top to bottom.
  ghost function PlaceRows(px: seq<Option<Pixel>>, w: nat, h: nat, p: Pass, rows: seq<seq<Pixel>>)
    : (r: seq<Option<Pixel>>)
    requires |px| == w * h && Steps(p) && Fits(rows, p, w, h)
    ensures |r| == w * h
  {
    if rows == [] then px
    else
      var n := |rows| - 1;
      CountExact(h, p.y0, p.ystep, n);
      ColumnsFit(p, w);
      PlaceLine(PlaceRows(px, w, h, p, rows[..n]), w, h, p.x0, p.xstep, p.y0 + n * p.ystep, rows[n])
  }

  // Every sample of the pass is found where the pass table says ...
  lemma {:induction false} RowsHit(px: seq<Option<Pixel>>, w: nat, h: nat, p: Pass, rows: seq<seq<Pixel>>,
          sx: nat, sy: nat)
    requires |px| == w * h && Steps(p) && Fits(rows, p, w, h)
    requires sy < |rows| && sx < Columns(p, w)
    ensures p.x0 + sx * p.xstep < w && p.y0 + sy * p.ystep < h
    ensures At(PlaceRows(px, w, h, p, rows), w, h, p.x0 + sx * p.xstep, p.y0 + sy * p.ystep) == Some(rows[sy][sx])
    decreases |rows|
  {
    var n := |rows| - 1;
    CountExact(w, p.x0, p.xstep, sx);
    CountExact(h, p.y0, p.ystep, sy);
    CountExact(h, p.y0, p.ystep, n);
    ColumnsFit(p, w);
    var done, y := PlaceRows(px, w, h, p, rows[..n]), p.y0 + n * p.ystep;
    if sy == n {
      LineHit(done, w, h, p.x0, p.xstep, y, rows[n], sx);
    } else {
      StepDistinct(p.y0, p.ystep, sy, n);
      LineMiss(done, w, h, p.x0, p.xstep, y, rows[n], p.x0 + sx * p.xstep, p.y0 + sy * p.ystep);
      RowsHit(px, w, h, p, rows[..n], sx, sy);
    }
  }

  function Point(start: nat, step: nat, s: nat): nat {
    start + s * step
  }

  // x is one of start, start + step, ...
  ghost predicate OnGrid(start: nat, step: nat, x: nat) {
    exists s: nat :: Point(start, step, s) == x
  }

  // (x, y) is a position of the pass.
  ghost predicate Covers(p: Pass, x: nat, y: nat) {
    OnGrid(p.x0, p.xstep, x) && OnGrid(p.y0, p.ystep, y)
  }

  // ... and every other position is left as it was.
  lemma {:induction false} RowsMiss(px: seq<Option<Pixel>>, w: nat, h: nat, p: Pass, rows: seq<seq<Pixel>>,
          x: nat, y: nat)
    requires |px| == w * h && Steps(p) && Fits(rows, p, w, h)
    requires x < w && y < h && !Covers(p, x, y)
    ensures At(PlaceRows(px, w, h, p, rows), w, h, x, y) == At(px, w, h, x, y)
    decreases |rows|
  {
    if rows != [] {
      var n := |rows| - 1;
      CountExact(h, p.y0, p.ystep, n);
      ColumnsFit(p, w);
      OffLine(p, x, y, n);
      LineMiss(PlaceRows(px, w, h, p, rows[..n]), w, h, p.x0, p.xstep, p.y0 + n * p.ystep, rows[n], x, y);
      RowsMiss(px, w, h, p, rows[..n], x, y);
    }
  }

  lemma OffLine(p: Pass, x: nat, y: nat, n: nat)
    requires !Covers(p, x, y)
    ensures y != p.y0 + n * p.ystep || forall s: nat :: x != p.x0 + s * p.xstep
  {
    if y == p.y0 + n * p.ystep {
      assert Point(p.y0, p.ystep, n) == y;
      forall s: nat
        ensures x != p.x0 + s * p.xstep
      {
        assert Point(p.x0, p.xstep, s) != x;
      }
    }
  }

  // ----- The pass that takes every position -----

  const EVERYWHERE := Pass(0, 0, 1, 1)

  lemma EverywhereCounts(w: nat, h: nat)
    ensures Columns(EVERYWHERE, w) == w && Lines(EVERYWHERE, h) == h
  {
  }

  // It overwrites the whole pixel list: nothing of what was there before remains.
  lemma EverywhereOverwrites(px: seq<Option<Pixel>>, w: nat, h: nat, rows: seq<seq<Pixel>>, x: nat, y: nat)
    requires |px| == w * h && Fits(rows, EVERYWHERE, w, h) && |rows| == h && x < w && y < h
    ensures |rows[y]| == w
    ensures At(PlaceRows(px, w, h, EVERYWHERE, rows), w, h, x, y) == Some(rows[y][x])
  {
    EverywhereCounts(w, h);
    RowsHit(px, w, h, EVERYWHERE, rows, x, y);
  }
}
