/** What a C program may rely on from malloc, calloc, realloc and free: the specification that
    both heaps of the system are proved against. */
module AllocSpec {
  import opened Bytes
  import opened Common

  // The blocks a client holds: each live pointer with the bytes of its block. The length of
  // those bytes is the block's capacity.
  type Live = map<nat, seq<byte>>

  // One call of the client interface with its result (0 is NULL), or one store by the client
  // into a block it holds.
  datatype Event =
    | Malloc(size: nat, result: nat)
    | Calloc(count: nat, size: nat, result: nat)
    | Realloc(ptr: nat, size: nat, result: nat)
    | Free(ptr: nat)
    | Write(ptr: nat, offset: nat, data: seq<byte>)

  ghost predicate Apart(p: nat, n: nat, q: nat, m: nat) {
    p + n <= q || q + m <= p
  }

  // The n bytes at q meet no live block.
  ghost predicate Clear(live: Live, q: nat, n: nat) {
    forall p :: p in live ==> Apart(p, |live[p]|, q, n)
  }

  // Live blocks do not overlap.
  ghost predicate Separated(live: Live) {
    forall p, q :: p in live && q in live && p != q ==> Apart(p, |live[p]|, q, |live[q]|)
  }

  // q is a new block, clear of all of live; the other blocks are rest.
  ghost predicate Placed(live: Live, rest: Live, q: nat, live': Live) {
    && q != 0 && q !in live && q in live'
    && Clear(live, q, |live'[q]|)
    && live' == rest[q := live'[q]]
  }

  ghost predicate Allocates(live: Live, size: nat, q: nat, live': Live) {
    if q == 0 then live' == live else size > 0 && Placed(live, live, q, live')
  }

  // What a call or a store does to the blocks held, whatever size was asked for.
  ghost predicate Next(live: Live, e: Event, live': Live) {
    match e
    case Malloc(size, q) => Allocates(live, size, q, live')
    case Calloc(count, size, q) => Allocates(live, count * size, q, live')
    case Realloc(p, size, q) =>
      if p == 0 then Allocates(live, size, q, live')
      else
        && p in live
        && if size == 0 then
             // C leaves this case open: release the block, or hand it back untouched.
             (q == 0 && live' == live - {p}) || (q == p && live' == live)
           else if q == 0 then live' == live
           else
             && Placed(live, live - {p}, q, live')
             && var kept := Min(|live[p]|, size);
                kept <= |live'[q]| && live'[q][..kept] == live[p][..kept]
    case Free(p) => if p == 0 then live' == live else p in live && live' == live - {p}
    case Write(p, offset, data) =>
      && p in live
      && offset + |data| <= |live[p]|
      && live' == live[p := Patch(live[p], offset, data)]
  }

  ghost predicate Ample(live: Live, q: nat, n: nat) {
    q == 0 || (q in live && |live[q]| >= n)
  }

  // A call that did not fail returned a block as large as was asked for; calloc's is zero.
  ghost predicate Serves(e: Event, live': Live) {
    match e
    case Malloc(size, q) => Ample(live', q, size)
    case Calloc(count, size, q) =>
      && Ample(live', q, count * size)
      && (q != 0 ==> forall i :: 0 <= i < count * size ==> live'[q][i] == 0)
    case Realloc(_, size, q) => Ample(live', q, size)
    case _ => true
  }

  // No more than most bytes are asked for.
  predicate AsksAtMost(e: Event, most: nat) {
    match e
    case Malloc(size, _) => size <= most
    case Calloc(count, size, _) => count * size <= most
    case Realloc(_, size, _) => size <= most
    case _ => true
  }

  predicate Fails(e: Event) {
    match e
    case Malloc(_, q) => q == 0
    case Calloc(_, _, q) => q == 0
    case Realloc(_, _, q) => q == 0
    case _ => false
  }

  // calloc may be made of malloc and a fill.
  lemma CallocComposes(live: Live, count: nat, size: nat, total: nat, q: nat, live1: Live, live': Live)
    requires q != 0 && Allocates(live, count * size, q, live1)
    requires Next(live1, Write(q, 0, seq(total, _ => 0)), live')
    ensures Next(live, Calloc(count, size, q), live')
    ensures total == count * size ==> Serves(Calloc(count, size, q), live')
  {
    assert live' == live[q := live'[q]];
  }

  // realloc may be made of malloc, a copy and free.
  lemma ReallocComposes(live: Live, p: nat, size: nat, q: nat, live1: Live, live2: Live, live': Live)
    requires p != 0 && q != 0 && size > 0 && p in live
    requires Allocates(live, size, q, live1)
    requires Next(live1, Write(q, 0, live[p][..Min(|live[p]|, size)]), live2)
    requires Next(live2, Free(p), live')
    ensures Next(live, Realloc(p, size, q), live') && |live'[q]| == |live1[q]|
  {
    assert live' == (live - {p})[q := live'[q]];
  }

  // A run: the blocks held before and after each event.
  ghost predicate Trace(lives: seq<Live>, events: seq<Event>) {
    && |lives| == |events| + 1
    && forall i :: 0 <= i < |events| ==> Next(lives[i], events[i], lives[i + 1])
  }

  // In every run that starts with nothing held, blocks never overlap.
  lemma {:induction false} NeverOverlap(lives: seq<Live>, events: seq<Event>)
    requires Trace(lives, events)
    requires lives[0] == map[]
    ensures forall i :: 0 <= i < |lives| ==> Separated(lives[i])
  {
    if |events| > 0 {
      var n := |events| - 1;
      NeverOverlap(lives[..n + 1], events[..n]);
      assert Separated(lives[..n + 1][n]);
      assert Next(lives[n], events[n], lives[n + 1]);
    }
  }

  // What a block's owner expects to read back: the old bytes with the owner's own stores made.
  ghost function Replay(events: seq<Event>, p: nat, bytes: seq<byte>): (r: seq<byte>)
    ensures |r| == |bytes|
  {
    if events == [] then bytes
    else
      var before := Replay(events[..|events| - 1], p, bytes);
      match events[|events| - 1]
      case Write(q, offset, data) =>
        if q == p && offset + |data| <= |before| then Patch(before, offset, data) else before
      case _ => before
  }

  // p is given back to the allocator by e. A realloc that fails gives nothing back, nor does one
  // that hands p back.
  ghost predicate Releases(e: Event, p: nat) {
    p != 0 && match e
              case Free(q) => q == p
              case Realloc(q, size, r) => q == p && if size == 0 then r == 0 else r != 0
              case _ => false
  }

  // A block that is not given back stays live at full capacity, and holds exactly what its
  // owner stored in it, whatever else the run allocates, frees, moves or writes.
  lemma {:induction false} OwnerReadsOwnWrites(lives: seq<Live>, events: seq<Event>, p: nat)
    requires Trace(lives, events)
    requires p in lives[0] && p != 0
    requires forall i :: 0 <= i < |events| ==> !Releases(events[i], p)
    ensures p in lives[|events|]
    ensures lives[|events|][p] == Replay(events, p, lives[0][p])
  {
    if |events| > 0 {
      var n := |events| - 1;
      OwnerReadsOwnWrites(lives[..n + 1], events[..n], p);
      assert Next(lives[n], events[n], lives[n + 1]);
      assert !Releases(events[n], p);
    }
  }

  // The same from any point of a run to any later one.
  lemma OwnerReadsFrom(lives: seq<Live>, events: seq<Event>, i: nat, j: nat, p: nat)
    requires Trace(lives, events) && i <= j <= |events|
    requires p in lives[i] && p != 0
    requires forall k :: i <= k < j ==> !Releases(events[k], p)
    ensures p in lives[j]
    ensures lives[j][p] == Replay(events[i..j], p, lives[i][p])
  {
    var part, es := lives[i..j + 1], events[i..j];
    forall k | 0 <= k < |es|
      ensures Next(part[k], es[k], part[k + 1]) && !Releases(es[k], p)
    {
      assert Next(lives[i + k], events[i + k], lives[i + k + 1]) && !Releases(events[i + k], p);
    }
    OwnerReadsOwnWrites(part, es, p);
  }

  ghost predicate Freed(events: seq<Event>, p: nat) {
    Free(p) in events
  }

  // Freeing every held block, in any order, leaves nothing held.
  lemma {:induction false} FreesDrain(lives: seq<Live>, events: seq<Event>)
    requires Trace(lives, events) && 0 !in lives[0]
    requires forall i :: 0 <= i < |events| ==> events[i].Free?
    ensures forall p :: p in lives[|events|] ==> p in lives[0] && !Freed(events, p)
  {
    if |events| > 0 {
      var n := |events| - 1;
      FreesDrain(lives[..n + 1], events[..n]);
      assert Next(lives[n], events[n], lives[n + 1]);
      assert lives[..n + 1][n] == lives[n];
      assert events == events[..n] + [events[n]];
    }
  }
}
