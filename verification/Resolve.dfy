/** resolve: follow text pointers, as left by a checkout without symbolic links, to a PNG file. */
module Resolve {
  import opened Bytes
  import opened Common
  import opened PngWriter

  type Path = string

  // What open and the pointer rule are for resolve: the files there are, and the path that a
  // pointer file's text means (decoding, stripping, joining and normalizing).
  datatype Disk = Disk(files: map<Path, seq<byte>>, follow: (Path, seq<byte>) -> Path)

  datatype Outcome =
    | Found(path: Path)
    | Missing(path: Path)       // open fails
    | Unresolvable(path: Path)  // the ValueError

  predicate IsPng(raw: seq<byte>) {
    |raw| >= 8 && raw[0] == 0x89 && raw[1] == 0x50
  }

  // The next path, when the file at p is there and can be a pointer.
  function Hop(d: Disk, p: Path): Option<Path> {
    if p in d.files && !IsPng(d.files[p]) && |d.files[p]| <= 4096 then Some(d.follow(p, d.files[p])) else None
  }

  // The path after n hops.
  function Walk(d: Disk, p: Path, n: nat): Option<Path> {
    if n == 0 then Some(p)
    else
      match Walk(d, p, n - 1)
      case None => None
      case Some(q) => Hop(d, q)
  }

  ghost predicate Reaches(d: Disk, p: Path, q: Path) {
    exists n: nat :: Walk(d, p, n) == Some(q)
  }

  ghost predicate FirstPng(d: Disk, p: Path, q: Path) {
    Reaches(d, p, q) && q in d.files && IsPng(d.files[q])
  }

  ghost predicate DeadEnd(d: Disk, p: Path, q: Path) {
    Reaches(d, p, q) && q !in d.files
  }

  // ----- A chain stops in one place or not at all -----

  lemma {:induction false} PastTheEnd(d: Disk, p: Path, n: nat, m: nat)
    requires n <= m && Walk(d, p, n).None?
    ensures Walk(d, p, m).None?
  {
    if n < m { PastTheEnd(d, p, n, m - 1); }
  }

  lemma OneEnd(d: Disk, p: Path, n: nat, q: Path, m: nat, r: Path)
    requires Walk(d, p, n) == Some(q) && Hop(d, q).None?
    requires Walk(d, p, m) == Some(r) && Hop(d, r).None?
    ensures n == m && q == r
  {
    if n < m { PastTheEnd(d, p, n + 1, m); }
    if m < n { PastTheEnd(d, p, m + 1, n); }
  }

  lemma {:induction false} WalkOn(d: Disk, p: Path, n: nat, q: Path, t: nat)
    requires Walk(d, p, n) == Some(q)
    ensures Walk(d, p, n + t) == Walk(d, q, t)
  {
    if t > 0 { WalkOn(d, p, n, q, t - 1); }
  }

  // A chain that comes back to a path never stops.
  lemma LoopNeverEnds(d: Disk, p: Path, i: nat, j: nat, q: Path, n: nat, r: Path)
    requires i < j && Walk(d, p, i) == Some(q) && Walk(d, p, j) == Some(q)
    requires Walk(d, p, n) == Some(r)
    ensures Hop(d, r).Some?
  {
    if Hop(d, r).None? {
      if n < i {
        PastTheEnd(d, p, n + 1, i);
      } else {
        WalkOn(d, p, i, q, n - i);
        WalkOn(d, p, j, q, n - i);
        OneEnd(d, p, n, r, j + (n - i), r);
      }
    }
  }

  // ----- The loop -----

  // A file starts like every PNG file.
  predicate StartsLikePng(raw: seq<byte>) {
    |raw| >= 8 && raw[..2] == SIGNATURE[..2]
  }

  lemma IsPngExactly(raw: seq<byte>)
    ensures IsPng(raw) <==> StartsLikePng(raw)
  {
    assert |raw| >= 2 ==> raw[..2] == [raw[0], raw[1]];
    assert SIGNATURE[..2] == [SIGNATURE[0], SIGNATURE[1]];
  }

  // The chain of files opened: from each but the last the next is where it points.
  ghost predicate Opened(d: Disk, chain: seq<Path>, start: Path) {
    && chain != [] && chain[0] == start
    && forall i :: 0 <= i < |chain| - 1 ==> PointsTo(d, chain[i], chain[i + 1])
  }

  ghost predicate PointsTo(d: Disk, p: Path, q: Path) {
    p in d.files && !StartsLikePng(d.files[p]) && |d.files[p]| <= 4096 && q == d.follow(p, d.files[p])
  }

  // What the last file of the chain comes to; loops says that it was opened before.
  ghost predicate Ends(d: Disk, q: Path, loops: bool, r: Outcome) {
    if q !in d.files then r == Missing(q)
    else if StartsLikePng(d.files[q]) then r == Found(q)
    else (loops || |d.files[q]| > 4096) && r == Unresolvable(q)
  }

  // The PNG file on the chain from start, exactly when there is one; the missing file on it,
  // exactly when there is one; a ValueError for every other chain. No file but the last is opened
  // twice.
  method ResolvePointer(d: Disk, start: Path) returns (r: Outcome, ghost chain: seq<Path>)
    ensures forall q :: r == Found(q) <==> FirstPng(d, start, q)
    ensures forall q :: r == Missing(q) <==> DeadEnd(d, start, q)
    ensures Opened(d, chain, start)
    ensures var n := |chain| - 1; Ends(d, chain[n], chain[n] in chain[..n], r)
    ensures forall i, j :: 0 <= i < j < |chain| - 1 ==> chain[i] != chain[j]
  {
    var path, seen := start, {};
    ghost var n := 0;
    chain := [start];
    while true
      invariant |chain| == n + 1 && chain[n] == path && Opened(d, chain, start)
      invariant forall p :: p in seen <==> p in chain[..n]
      invariant forall i, j :: 0 <= i < j < n ==> chain[i] != chain[j]
      invariant Walk(d, start, n) == Some(path)
      invariant seen <= d.files.Keys
      invariant forall p :: p in seen ==> exists i: nat :: i < n && Walk(d, start, i) == Some(p)
      decreases d.files.Keys - seen
    {
      if path !in d.files {
        EndDecides(d, start, n, path);
        return Missing(path), chain;
      }
      var raw := d.files[path];
      IsPngExactly(raw);
      if IsPng(raw) {
        EndDecides(d, start, n, path);
        return Found(path), chain;
      }
      if path in seen {
        ghost var i: nat :| i < n && Walk(d, start, i) == Some(path);
        LoopDecides(d, start, i, n, path);
        return Unresolvable(path), chain;
      }
      if |raw| > 4096 {
        EndDecides(d, start, n, path);
        return Unresolvable(path), chain;
      }
      seen := seen + {path};
      path, n := d.follow(path, raw), n + 1;
      chain := chain + [path];
    }
  }

  // Where the chain stops, it stops for good: any PNG or missing file on it is this one.
  lemma EndDecides(d: Disk, start: Path, n: nat, path: Path)
    requires Walk(d, start, n) == Some(path) && Hop(d, path).None?
    ensures Reaches(d, start, path)
    ensures forall q :: FirstPng(d, start, q) || DeadEnd(d, start, q) ==> q == path
  {
    forall q | FirstPng(d, start, q) || DeadEnd(d, start, q)
      ensures q == path
    {
      var m: nat :| Walk(d, start, m) == Some(q);
      OneEnd(d, start, n, path, m, q);
    }
  }

  lemma LoopDecides(d: Disk, start: Path, i: nat, j: nat, path: Path)
    requires i < j && Walk(d, start, i) == Some(path) && Walk(d, start, j) == Some(path)
    ensures forall q :: !FirstPng(d, start, q) && !DeadEnd(d, start, q)
  {
    forall q
      ensures !FirstPng(d, start, q) && !DeadEnd(d, start, q)
    {
      if Reaches(d, start, q) {
        var m: nat :| Walk(d, start, m) == Some(q);
        LoopNeverEnds(d, start, i, j, path, m, q);
      }
    }
  }

  // A file that the writer made is found where it is.
  method ResolveWritten(files: map<Path, seq<byte>>, follow: (Path, seq<byte>) -> Path, p: Path, w: nat, h: nat,
          rgb: seq<byte>, deflate: Deflate, crc: Checksum)
    returns (file: Option<seq<byte>>, r: Outcome)
    ensures file.Some? ==> r == Found(p)
  {
    file := WritePng(w, h, rgb, deflate, crc);
    r := Missing(p);
    if file.Some? {
      var d := Disk(files[p := file.value], follow);
      ghost var chain;
      r, chain := ResolvePointer(d, p);
      IsPngExactly(file.value);
      assert Walk(d, p, 0) == Some(p);
      assert FirstPng(d, p, p);
    }
  }
}
