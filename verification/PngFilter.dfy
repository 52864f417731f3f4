/** The five scanline filters of PNG (section 6 of RFC 2083): the reconstruction loops of
    _decode_pass, run in place, and the forward filters that they undo. */
module PngFilter {
  import opened Bytes

  // ----- Section 6 of RFC 2083 -----

  // Addition of bytes.
  function Sum(x: int, y: int): byte { (x + y) % 256 }

  function Difference(x: int, y: int): byte { (x - y) % 256 }

  lemma Reduced(x: int, y: byte)
    requires x == y || x == y + 256 || x == y - 256
    ensures x % 256 == y
  {
  }

  lemma SumDifference(x: byte, y: byte)
    ensures Difference(Sum(x, y), y) == x && Sum(Difference(x, y), y) == x
  {
    var s, d := if x + y < 256 then x + y else x + y - 256, if x < y then x - y + 256 else x - y;
    Reduced(x + y, s);
    Reduced(s - y, x);
    Reduced(x - y, d);
    Reduced(d + y, x);
  }

  function Abs(x: int): nat { if x < 0 then -x else x }

  // The predictor as _decode_pass computes it.
  function Paeth(a: byte, b: byte, c: byte): byte {
    var p := a + b - c;
    var pa, pb, pc := Abs(p - a), Abs(p - b), Abs(p - c);
    if pa <= pb && pa <= pc then a else if pb <= pc then b else c
  }

  function Distance(x: int, y: int): nat { if x < y then y - x else x - y }

  // Section 6.6: of the left, upper and upper-left bytes, v is the one nearest to a + b - c; ties
  // go to the left byte, then to the upper one.
  ghost predicate Nearest(v: byte, a: byte, b: byte, c: byte) {
    var p := a + b - c;
    && v in {a, b, c}
    && Distance(p, v) <= Distance(p, a) && Distance(p, v) <= Distance(p, b) && Distance(p, v) <= Distance(p, c)
    && (Distance(p, a) == Distance(p, v) ==> v == a)
    && (Distance(p, b) == Distance(p, v) && Distance(p, a) != Distance(p, v) ==> v == b)
  }

  lemma PaethIsNearest(a: byte, b: byte, c: byte)
    ensures forall v :: Nearest(v, a, b, c) <==> v == Paeth(a, b, c)
  {
  }

  // What filter type f predicts from the left, upper and upper-left bytes.
  function Predict(f: byte, a: byte, b: byte, c: byte): byte {
    match f
    case 1 => a
    case 2 => b
    case 3 => (a + b) / 2
    case 4 => Paeth(a, b, c)
    case _ => 0
  }

  // The byte bpp places to the left; 0 outside the line.
  function Left(line: seq<byte>, i: nat, bpp: nat): byte
    requires i <= |line| && bpp > 0
  {
    if i >= bpp then line[i - bpp] else 0
  }

  // What f predicts for byte i, given the bytes of the line before it.
  function Predicted(f: byte, line: seq<byte>, prev: seq<byte>, i: nat, bpp: nat): byte
    requires i <= |line| && i < |prev| && bpp > 0
  {
    Predict(f, Left(line, i, bpp), prev[i], Left(prev, i, bpp))
  }

  // r is the reconstruction of the filtered line: each byte is the filtered byte plus the
  // prediction from reconstructed bytes, modulo 256.
  ghost predicate Reconstructs(f: byte, line: seq<byte>, prev: seq<byte>, bpp: nat, r: seq<byte>)
    requires bpp > 0 && |line| <= |prev|
  {
    && |r| == |line|
    && forall i :: 0 <= i < |r| ==> r[i] == Sum(line[i], Predicted(f, r, prev, i, bpp))
  }

  // The reconstruction, computed from the left end.
  function Recon(f: byte, line: seq<byte>, prev: seq<byte>, bpp: nat): (r: seq<byte>)
    requires bpp > 0 && |line| <= |prev|
    ensures |r| == |line|
  {
    if line == [] then []
    else
      var n := |line| - 1;
      var done := Recon(f, line[..n], prev, bpp);
      done + [Sum(line[n], Predicted(f, done, prev, n, bpp))]
  }

  // The forward filter, on the raw bytes of a line.
  function Filter(f: byte, raw: seq<byte>, prev: seq<byte>, bpp: nat): (r: seq<byte>)
    requires bpp > 0 && |raw| <= |prev|
    ensures |r| == |raw|
  {
    seq(|raw|, i requires 0 <= i < |raw| => Difference(raw[i], Predicted(f, raw, prev, i, bpp)))
  }

  // ----- One reconstruction, and it inverts the filter both ways -----

  lemma {:induction false} ReconReconstructs(f: byte, line: seq<byte>, prev: seq<byte>, bpp: nat)
    requires bpp > 0 && |line| <= |prev|
    ensures Reconstructs(f, line, prev, bpp, Recon(f, line, prev, bpp))
  {
    if line != [] {
      var n := |line| - 1;
      ReconReconstructs(f, line[..n], prev, bpp);
      var done, r := Recon(f, line[..n], prev, bpp), Recon(f, line, prev, bpp);
      forall i | 0 <= i < |r|
        ensures r[i] == Sum(line[i], Predicted(f, r, prev, i, bpp))
      {
        assert Left(r, i, bpp) == Left(done, i, bpp);
        if i < n { assert line[..n][i] == line[i]; }
      }
    }
  }

  lemma {:induction false} ReconUnique(f: byte, line: seq<byte>, prev: seq<byte>, bpp: nat, r: seq<byte>,
          s: seq<byte>, n: nat)
    requires bpp > 0 && |line| <= |prev| && n <= |line|
    requires Reconstructs(f, line, prev, bpp, r) && Reconstructs(f, line, prev, bpp, s)
    ensures r[..n] == s[..n]
  {
    if n > 0 {
      ReconUnique(f, line, prev, bpp, r, s, n - 1);
      SameNext(f, line, prev, bpp, r, s, n - 1);
      LongerPrefix(r, s, n - 1);
    }
  }

  lemma SameNext(f: byte, line: seq<byte>, prev: seq<byte>, bpp: nat, r: seq<byte>, s: seq<byte>, i: nat)
    requires bpp > 0 && i < |line| <= |prev|
    requires Reconstructs(f, line, prev, bpp, r) && Reconstructs(f, line, prev, bpp, s) && r[..i] == s[..i]
    ensures r[i] == s[i]
  {
    SamePrediction(f, r, s, prev, i, bpp);
  }

  lemma LongerPrefix(r: seq<byte>, s: seq<byte>, i: nat)
    requires i < |r| == |s| && r[..i] == s[..i] && r[i] == s[i]
    ensures r[..i + 1] == s[..i + 1]
  {
    assert r[..i + 1] == r[..i] + [r[i]] && s[..i + 1] == s[..i] + [s[i]];
  }

  lemma SamePrediction(f: byte, r: seq<byte>, s: seq<byte>, prev: seq<byte>, i: nat, bpp: nat)
    requires bpp > 0 && i <= |r| && i <= |s| && i < |prev| && r[..i] == s[..i]
    ensures Predicted(f, r, prev, i, bpp) == Predicted(f, s, prev, i, bpp)
  {
    if i >= bpp {
      assert r[..i][i - bpp] == s[..i][i - bpp];
    }
  }

  // The reconstruction of the first k bytes does not depend on the others.
  lemma {:induction false} ReconPrefix(f: byte, line: seq<byte>, prev: seq<byte>, bpp: nat, k: nat)
    requires bpp > 0 && k <= |line| <= |prev|
    ensures Recon(f, line[..k], prev, bpp) == Recon(f, line, prev, bpp)[..k]
    decreases |line|
  {
    if k == |line| {
      assert line[..k] == line;
    } else {
      var n := |line| - 1;
      ReconPrefix(f, line[..n], prev, bpp, k);
      assert line[..n][..k] == line[..k];
    }
  }

  // The equations of section 6 in plain arithmetic: byte x of type f is undone to y, where a, b and
  // c are the bytes to the left, above and above left. For types 3 and 4 v is the average of the
  // first two, rounded down, and the nearest of all three.
  ghost predicate Undone(f: byte, x: byte, a: byte, b: byte, c: byte, v: byte, y: byte) {
    && (f == 0 ==> y == x)
    && (f == 1 ==> y == (x + a) % 256)
    && (f == 2 ==> y == (x + b) % 256)
    && (f == 3 && 2 * v <= a + b <= 2 * v + 1 ==> y == (x + v) % 256)
    && (f == 4 && Nearest(v, a, b, c) ==> y == (x + v) % 256)
  }

  lemma Predictions(f: byte, a: byte, b: byte, c: byte, v: byte)
    ensures f == 0 ==> Predict(f, a, b, c) == 0
    ensures f == 1 ==> Predict(f, a, b, c) == a
    ensures f == 2 ==> Predict(f, a, b, c) == b
    ensures f == 3 && 2 * v <= a + b <= 2 * v + 1 ==> Predict(f, a, b, c) == v
    ensures f == 4 && Nearest(v, a, b, c) ==> Predict(f, a, b, c) == v
  {
    PaethIsNearest(a, b, c);
  }

  lemma SumUndoes(f: byte, x: byte, a: byte, b: byte, c: byte, v: byte)
    ensures Undone(f, x, a, b, c, v, Sum(x, Predict(f, a, b, c)))
  {
    Predictions(f, a, b, c, v);
  }

  // Every byte of a reconstructed line is undone by its equation; bytes outside the image are 0.
  lemma SectionSix(f: byte, line: seq<byte>, prev: seq<byte>, bpp: nat, i: nat, v: byte)
    requires bpp > 0 && i < |line| <= |prev|
    ensures var r := Recon(f, line, prev, bpp);
            var a, c := if i < bpp then 0 else r[i - bpp], if i < bpp then 0 else prev[i - bpp];
            Undone(f, line[i], a, prev[i], c, v, r[i])
  {
    ReconReconstructs(f, line, prev, bpp);
    SumUndoes(f, line[i], Left(Recon(f, line, prev, bpp), i, bpp), prev[i], Left(prev, i, bpp), v);
  }

  // Undoing the filter gives back the raw line.
  lemma ReconAfterFilter(f: byte, raw: seq<byte>, prev: seq<byte>, bpp: nat)
    requires bpp > 0 && |raw| <= |prev|
    ensures Recon(f, Filter(f, raw, prev, bpp), prev, bpp) == raw
  {
    var line := Filter(f, raw, prev, bpp);
    var r := Recon(f, line, prev, bpp);
    ReconReconstructs(f, line, prev, bpp);
    forall i | 0 <= i < |raw|
      ensures raw[i] == Sum(line[i], Predicted(f, raw, prev, i, bpp))
    {
      SumDifference(raw[i], Predicted(f, raw, prev, i, bpp));
    }
    ReconUnique(f, line, prev, bpp, r, raw, |raw|);
    assert r == r[..|raw|] && raw == raw[..|raw|];
  }

  // Filtering the reconstruction gives back the filtered line.
  lemma FilterAfterRecon(f: byte, line: seq<byte>, prev: seq<byte>, bpp: nat)
    requires bpp > 0 && |line| <= |prev|
    ensures Filter(f, Recon(f, line, prev, bpp), prev, bpp) == line
  {
    var r := Recon(f, line, prev, bpp);
    forall i | 0 <= i < |line|
      ensures Filter(f, r, prev, bpp)[i] == line[i]
    {
      ReconAt(f, line, prev, bpp, i);
      SumDifference(line[i], Predicted(f, r, prev, i, bpp));
    }
  }

  // ----- The loops -----

  // One step of any of the four loops, seen from the specification.
  lemma ReconAt(f: byte, line: seq<byte>, prev: seq<byte>, bpp: nat, i: nat)
    requires bpp > 0 && i < |line| <= |prev|
    ensures var r := Recon(f, line, prev, bpp);
            r[i] == Sum(line[i], Predicted(f, r, prev, i, bpp))
  {
    ReconReconstructs(f, line, prev, bpp);
  }

  method UnfilterSub(line: array<byte>, prev: seq<byte>, bpp: nat)
    requires bpp > 0 && line.Length <= |prev|
    modifies line
    ensures line[..] == Recon(1, old(line[..]), prev, bpp)
  {
    ghost var filt := line[..];
    ghost var r := Recon(1, filt, prev, bpp);
    forall i | 0 <= i < bpp && i < line.Length
      ensures r[i] == filt[i]
    {
      ReconAt(1, filt, prev, bpp, i);
    }
    var i := bpp;
    while i < line.Length
      invariant bpp <= i
      invariant forall k :: 0 <= k < line.Length ==> line[k] == if k < i then r[k] else filt[k]
    {
      ReconAt(1, filt, prev, bpp, i);
      line[i] := Sum(line[i], line[i - bpp]);
      i := i + 1;
    }
  }

  method UnfilterUp(line: array<byte>, prev: seq<byte>, bpp: nat)
    requires bpp > 0 && line.Length <= |prev|
    modifies line
    ensures line[..] == Recon(2, old(line[..]), prev, bpp)
  {
    ghost var filt := line[..];
    ghost var r := Recon(2, filt, prev, bpp);
    for i := 0 to line.Length
      invariant forall k :: 0 <= k < line.Length ==> line[k] == if k < i then r[k] else filt[k]
    {
      ReconAt(2, filt, prev, bpp, i);
      line[i] := Sum(line[i], prev[i]);
    }
  }

  method UnfilterAverage(line: array<byte>, prev: seq<byte>, bpp: nat)
    requires bpp > 0 && line.Length <= |prev|
    modifies line
    ensures line[..] == Recon(3, old(line[..]), prev, bpp)
  {
    ghost var filt := line[..];
    ghost var r := Recon(3, filt, prev, bpp);
    for i := 0 to line.Length
      invariant forall k :: 0 <= k < line.Length ==> line[k] == if k < i then r[k] else filt[k]
    {
      ReconAt(3, filt, prev, bpp, i);
      var a: int := if i >= bpp then line[i - bpp] else 0;
      line[i] := Sum(line[i], (a + prev[i]) / 2);
    }
  }

  method UnfilterPaeth(line: array<byte>, prev: seq<byte>, bpp: nat)
    requires bpp > 0 && line.Length <= |prev|
    modifies line
    ensures line[..] == Recon(4, old(line[..]), prev, bpp)
  {
    ghost var filt := line[..];
    ghost var r := Recon(4, filt, prev, bpp);
    for i := 0 to line.Length
      invariant forall k :: 0 <= k < line.Length ==> line[k] == if k < i then r[k] else filt[k]
    {
      ReconAt(4, filt, prev, bpp, i);
      var a: int := if i >= bpp then line[i - bpp] else 0;
      var b: int := prev[i];
      var c: int := if i >= bpp then prev[i - bpp] else 0;
      var p := a + b - c;
      var pa, pb, pc := Abs(p - a), Abs(p - b), Abs(p - c);
      var pr := if pa <= pb && pa <= pc then a else if pb <= pc then b else c;
      line[i] := Sum(line[i], pr);
    }
  }

  // The filter dispatch of _decode_pass on one line; false is the "bad filter" error.
  method Unfilter(f: byte, line: array<byte>, prev: seq<byte>, bpp: nat) returns (ok: bool)
    requires bpp > 0 && line.Length <= |prev|
    modifies line
    ensures ok <==> f <= 4
    ensures ok ==> line[..] == Recon(f, old(line[..]), prev, bpp)
  {
    ok := true;
    if f == 1 {
      UnfilterSub(line, prev, bpp);
    } else if f == 2 {
      UnfilterUp(line, prev, bpp);
    } else if f == 3 {
      UnfilterAverage(line, prev, bpp);
    } else if f == 4 {
      UnfilterPaeth(line, prev, bpp);
    } else if f != 0 {
      ok := false;
    } else {
      ReconOfNone(line[..], prev, bpp);
    }
  }

  lemma ReconOfNone(line: seq<byte>, prev: seq<byte>, bpp: nat)
    requires bpp > 0 && |line| <= |prev|
    ensures Recon(0, line, prev, bpp) == line
  {
    ReconReconstructs(0, line, prev, bpp);
  }
}
