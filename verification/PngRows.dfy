/** _decode_pass: filtered rows taken off the front of the inflated data, one after the other. */
module PngRows {
  import opened Bytes
  import opened Common
  import opened PngFilter

  // The exceptions that decode_png can raise, by cause.
  datatype Error =
    | ShortLength    // struct.unpack of a chunk length on fewer than four bytes
    | BadHeader      // struct.unpack of an IHDR that is not 13 bytes
    | OddAlpha       // struct.unpack of a 16-bit tRNS with an odd length
    | BadStream      // zlib.decompress
    | BadColorType   // no entry in the component table
    | OutOfData      // ba[0] on an empty bytearray
    | BadFilter
    | BadSample      // a pixel that is not there, or not in the palette

  datatype Result<+T> = Ok(value: T) | Err(error: Error)

  // Decoded lines, and the data left over.
  datatype Rows = Rows(lines: seq<seq<byte>>, rest: seq<byte>)

  // ph rows of n bytes from the front of ba; prev is the line above the first. The last row may
  // come up short.
  function DecodeRows(ba: seq<byte>, n: nat, ph: nat, prev: seq<byte>, bpp: nat): (r: Result<Rows>)
    requires bpp > 0 && (|prev| == n || ba == [])
    ensures r.Ok? ==> |r.value.lines| == ph
    decreases ph
  {
    if ph == 0 then Ok(Rows([], ba))
    else if ba == [] then Err(OutOfData)
    else
      var f, k := ba[0], Min(n, |ba| - 1);
      if f > 4 then Err(BadFilter)
      else
        var line := Recon(f, ba[1..1 + k], prev, bpp);
        Above([line], DecodeRows(ba[1 + k..], n, ph - 1, line, bpp))
  }

  function Above(lines: seq<seq<byte>>, below: Result<Rows>): Result<Rows> {
    match below
    case Err(e) => Err(e)
    case Ok(r) => Ok(Rows(lines + r.lines, r.rest))
  }

  lemma NoneAbove(r: Result<Rows>)
    ensures Above([], r) == r
  {
    if r.Ok? {
      assert [] + r.value.lines == r.value.lines;
    }
  }

  lemma AboveAgain(a: seq<seq<byte>>, b: seq<seq<byte>>, r: Result<Rows>)
    ensures Above(a, Above(b, r)) == Above(a + b, r)
  {
    if r.Ok? {
      assert a + (b + r.value.lines) == a + b + r.value.lines;
    }
  }

  method DecodePass(data: seq<byte>, pw: nat, ph: nat, bpp: nat) returns (r: Result<Rows>)
    requires bpp > 0
    ensures r == DecodeRows(data, pw * bpp, ph, Zeros(pw * bpp), bpp)
  {
    r := DecodeLines(data, pw * bpp, ph, bpp);
  }

  function Zeros(n: nat): (s: seq<byte>)
    ensures |s| == n && forall i :: 0 <= i < n ==> s[i] == 0
  {
    seq(n, _ => 0)
  }

  // One row: a mutable copy of its bytes, unfiltered in place.
  method DecodeLine(f: byte, raw: seq<byte>, prev: seq<byte>, bpp: nat) returns (r: Result<seq<byte>>)
    requires bpp > 0 && |raw| <= |prev|
    ensures r == if f <= 4 then Ok(Recon(f, raw, prev, bpp)) else Err(BadFilter)
  {
    var line := new byte[|raw|](i requires 0 <= i < |raw| => raw[i]);
    assert line[..] == raw;
    var ok := Unfilter(f, line, prev, bpp);
    return if ok then Ok(line[..]) else Err(BadFilter);
  }

  // One turn of the loop: a row taken off the data. Seen from the specification, its line moves
  // from the rows to come to the lines that are done.
  method TakeRow(ba: seq<byte>, n: nat, prev: seq<byte>, bpp: nat, ghost done: seq<seq<byte>>, ghost left: nat)
    returns (line: Result<seq<byte>>, more: seq<byte>)
    requires bpp > 0 && left > 0 && (|prev| == n || ba == [])
    ensures line.Err? ==> DecodeRows(ba, n, left, prev, bpp) == Err(line.error)
    ensures line.Ok? ==>
              && (|line.value| == n || more == [])
              && Above(done, DecodeRows(ba, n, left, prev, bpp))
                 == Above(done + [line.value], DecodeRows(more, n, left - 1, line.value, bpp))
  {
    more := [];
    if ba == [] { return Err(OutOfData), more; }
    var f, k := ba[0], Min(n, |ba| - 1);
    line := DecodeLine(f, ba[1..1 + k], prev, bpp);
    if line.Ok? {
      more := ba[1 + k..];
      AboveAgain(done, [line.value], DecodeRows(more, n, left - 1, line.value, bpp));
    }
  }

  method DecodeLines(data: seq<byte>, n: nat, ph: nat, bpp: nat) returns (r: Result<Rows>)
    requires bpp > 0
    ensures r == DecodeRows(data, n, ph, Zeros(n), bpp)
  {
    var ba, sub, prev := data, [], Zeros(n);
    NoneAbove(DecodeRows(data, n, ph, prev, bpp));
    for y := 0 to ph
      invariant |prev| == n || ba == []
      invariant DecodeRows(data, n, ph, Zeros(n), bpp) == Above(sub, DecodeRows(ba, n, ph - y, prev, bpp))
    {
      var line, more := TakeRow(ba, n, prev, bpp, sub, ph - y);
      if line.Err? { return Err(line.error); }
      ba, sub, prev := more, sub + [line.value], line.value;
    }
    assert sub + [] == sub;
    return Ok(Rows(sub, ba));
  }

  // ----- Rows with any mix of filters, there and back -----

  ghost predicate Full(lines: seq<seq<byte>>, n: nat) {
    forall i :: 0 <= i < |lines| ==> |lines[i]| == n
  }

  // Only filter types that there are.
  ghost predicate Known(types: seq<byte>) {
    forall i :: 0 <= i < |types| ==> types[i] <= 4
  }

  // The encoder's side: each line filtered with its own type against the line above.
  function EncodeRows(lines: seq<seq<byte>>, types: seq<byte>, prev: seq<byte>, bpp: nat): seq<byte>
    requires bpp > 0 && |types| == |lines|
    requires forall i :: 0 <= i < |lines| ==> |lines[i]| == |prev|
  {
    if lines == [] then []
    else [types[0]] + Filter(types[0], lines[0], prev, bpp) + EncodeRows(lines[1..], types[1..], lines[0], bpp)
  }

  lemma EncodeCons(f: byte, line: seq<byte>, types: seq<byte>, lines: seq<seq<byte>>, prev: seq<byte>,
          bpp: nat, rest: seq<byte>)
    requires bpp > 0 && |types| == |lines| && |line| == |prev| && Full(lines, |prev|)
    ensures Full([line] + lines, |prev|)
    ensures EncodeRows([line] + lines, [f] + types, prev, bpp) + rest
         == [f] + Filter(f, line, prev, bpp) + (EncodeRows(lines, types, line, bpp) + rest)
  {
    assert ([line] + lines)[1..] == lines && ([f] + types)[1..] == types;
  }

  // Decoding what any encoder wrote gives its lines, and takes exactly its bytes.
  lemma {:induction false} DecodeAfterEncode(lines: seq<seq<byte>>, types: seq<byte>, prev: seq<byte>,
          bpp: nat, rest: seq<byte>)
    requires bpp > 0 && |types| == |lines| && Full(lines, |prev|)
    requires Known(types)
    ensures DecodeRows(EncodeRows(lines, types, prev, bpp) + rest, |prev|, |lines|, prev, bpp) == Ok(Rows(lines, rest))
    decreases |lines|
  {
    if lines == [] {
      assert EncodeRows(lines, types, prev, bpp) + rest == rest;
    } else {
      var f, line := types[0], lines[0];
      assert [line] + lines[1..] == lines && [f] + types[1..] == types;
      EncodeCons(f, line, types[1..], lines[1..], prev, bpp, rest);
      var more := EncodeRows(lines[1..], types[1..], line, bpp) + rest;
      DecodeHead(f, Filter(f, line, prev, bpp), more, |lines|, prev, bpp);
      ReconAfterFilter(f, line, prev, bpp);
      DecodeAfterEncode(lines[1..], types[1..], line, bpp, rest);
    }
  }

  // A full row at the front of the data.
  lemma DecodeHead(f: byte, line: seq<byte>, more: seq<byte>, ph: nat, prev: seq<byte>, bpp: nat)
    requires bpp > 0 && ph > 0 && |line| == |prev| && f <= 4
    ensures var r := Recon(f, line, prev, bpp);
            DecodeRows([f] + line + more, |prev|, ph, prev, bpp) == Above([r], DecodeRows(more, |prev|, ph - 1, r, bpp))
  {
    var ba := [f] + line + more;
    assert ba[1..1 + |prev|] == line && ba[1 + |prev|..] == more;
  }

  // Encoding what was decoded, with the filter types found in the data, gives back the data.
  lemma {:induction false} EncodeAfterDecode(ba: seq<byte>, n: nat, ph: nat, prev: seq<byte>, bpp: nat, r: Rows)
    returns (types: seq<byte>)
    requires bpp > 0 && |prev| == n && DecodeRows(ba, n, ph, prev, bpp) == Ok(r)
    requires Full(r.lines, n)
    ensures |types| == |r.lines| == ph && Known(types)
    ensures EncodeRows(r.lines, types, prev, bpp) + r.rest == ba
    decreases ph
  {
    if ph == 0 {
      types := [];
      assert r == Rows([], ba) && [] + ba == ba;
    } else {
      var f, raw, more, line, below := DecodedHead(ba, n, ph, prev, bpp, r);
      var others := EncodeAfterDecode(more, n, ph - 1, line, bpp, below);
      types := [f] + others;
      ReencodedHead(ba, f, raw, more, line, below, others, prev, bpp, r);
    }
  }

  lemma ReencodedHead(ba: seq<byte>, f: byte, raw: seq<byte>, more: seq<byte>, line: seq<byte>, below: Rows,
          others: seq<byte>, prev: seq<byte>, bpp: nat, r: Rows)
    requires bpp > 0 && |raw| == |prev| && line == Recon(f, raw, prev, bpp) && ba == [f] + raw + more
    requires |others| == |below.lines| && Full(below.lines, |prev|) && Full(r.lines, |prev|)
    requires r.lines == [line] + below.lines && r.rest == below.rest
    requires EncodeRows(below.lines, others, line, bpp) + below.rest == more
    ensures |[f] + others| == |r.lines| && EncodeRows(r.lines, [f] + others, prev, bpp) + r.rest == ba
  {
    FilterAfterRecon(f, raw, prev, bpp);
    EncodeCons(f, line, others, below.lines, prev, bpp, below.rest);
  }

  lemma HeadAndTail(ba: seq<byte>, k: nat)
    requires 1 + k <= |ba|
    ensures ba == [ba[0]] + ba[1..1 + k] + ba[1 + k..]
  {
  }

  // The first row of data that decodes to full lines, and what comes of the rest.
  lemma DecodedHead(ba: seq<byte>, n: nat, ph: nat, prev: seq<byte>, bpp: nat, r: Rows)
    returns (f: byte, raw: seq<byte>, more: seq<byte>, line: seq<byte>, below: Rows)
    requires bpp > 0 && ph > 0 && |prev| == n && DecodeRows(ba, n, ph, prev, bpp) == Ok(r) && Full(r.lines, n)
    ensures ba == [f] + raw + more && f <= 4 && |raw| == n
    ensures line == Recon(f, raw, prev, bpp)
    ensures DecodeRows(more, n, ph - 1, line, bpp) == Ok(below)
    ensures r.lines == [line] + below.lines && r.rest == below.rest && Full(below.lines, n)
  {
    var k := Min(n, |ba| - 1);
    f, raw, more := ba[0], ba[1..1 + k], ba[1 + k..];
    HeadAndTail(ba, k);
    line := Recon(f, raw, prev, bpp);
    below := DecodeRows(more, n, ph - 1, line, bpp).value;
    assert r.lines[0] == line;
    assert forall i :: 0 <= i < |below.lines| ==> below.lines[i] == r.lines[i + 1];
  }

  // ----- Data that stops early -----

  // Why no further row can be read: the data has ended, the filter type is unknown, or the row ends
  // early and is not the last of those that should follow.
  function StopError(rest: seq<byte>, n: nat, more: nat): Option<Error> {
    if rest == [] then Some(OutOfData)
    else if rest[0] > 4 then Some(BadFilter)
    else if |rest| <= n && more > 1 then Some(OutOfData)
    else None
  }

  lemma StopsHere(rest: seq<byte>, n: nat, left: nat, prev: seq<byte>, bpp: nat, e: Error)
    requires bpp > 0 && |prev| == n && left > 0 && StopError(rest, n, left) == Some(e)
    ensures DecodeRows(rest, n, left, prev, bpp) == Err(e)
  {
  }

  lemma HeadFails(f: byte, raw: seq<byte>, more: seq<byte>, ph: nat, prev: seq<byte>, bpp: nat, e: Error)
    requires bpp > 0 && ph > 0 && |raw| == |prev| && f <= 4
    requires DecodeRows(more, |prev|, ph - 1, Recon(f, raw, prev, bpp), bpp) == Err(e)
    ensures DecodeRows([f] + raw + more, |prev|, ph, prev, bpp) == Err(e)
  {
    DecodeHead(f, raw, more, ph, prev, bpp);
  }

  // That is the outcome when a rows are there in full and ph are asked for, and the rest is such.
  lemma {:induction false} RowsStop(ba: seq<byte>, n: nat, a: nat, ph: nat, prev: seq<byte>, bpp: nat, r: Rows,
          e: Error)
    requires bpp > 0 && |prev| == n && DecodeRows(ba, n, a, prev, bpp) == Ok(r) && Full(r.lines, n)
    requires a < ph && StopError(r.rest, n, ph - a) == Some(e)
    ensures DecodeRows(ba, n, ph, prev, bpp) == Err(e)
    decreases a
  {
    if a == 0 {
      StopsHere(ba, n, ph, prev, bpp, e);
    } else {
      var f, raw, more, line, below := DecodedHead(ba, n, a, prev, bpp, r);
      RowsStop(more, n, a - 1, ph - 1, line, bpp, below, e);
      HeadFails(f, raw, more, ph, prev, bpp, e);
    }
  }

  // The last row may end early: its line is then as much shorter.
  lemma ShortRow(prev: seq<byte>, bpp: nat, f: byte, line: seq<byte>, k: nat)
    requires bpp > 0 && f <= 4 && k <= |line| == |prev|
    ensures DecodeRows([f] + Filter(f, line, prev, bpp)[..k], |prev|, 1, prev, bpp) == Ok(Rows([line[..k]], []))
  {
    DecodeLast(f, Filter(f, line, prev, bpp)[..k], prev, bpp);
    ReconPrefix(f, Filter(f, line, prev, bpp), prev, bpp, k);
    ReconAfterFilter(f, line, prev, bpp);
  }

  // The data ends with or inside the row.
  lemma DecodeLast(f: byte, raw: seq<byte>, prev: seq<byte>, bpp: nat)
    requires bpp > 0 && f <= 4 && |raw| <= |prev|
    ensures DecodeRows([f] + raw, |prev|, 1, prev, bpp) == Ok(Rows([Recon(f, raw, prev, bpp)], []))
  {
    var ba, line := [f] + raw, Recon(f, raw, prev, bpp);
    assert ba[1..1 + |raw|] == raw && ba[1 + |raw|..] == [];
    assert [line] + [] == [line];
  }
}
