/** Global facts about the libgloss block list: it is determined by what is live, first fit is
    lowest fit, freed room can be had again, and nothing is ever lost. */
module HeapLayout {
  import opened Bytes
  import opened AllocSpec
  import opened BlockList
  import opened HeapRuns
  import opened Common

  // ----- The list is determined by what is live -----

  lemma SpanOf(ns: seq<Node>, lo: nat, hi: nat)
    requires Tiled(ns, lo, hi)
    ensures lo <= hi
    ensures ns != [] ==> ns[0].End() <= hi
  {
    if |ns| > 1 {
      assert Before(ns[0], ns[|ns| - 1]);
    }
  }

  lemma TailTiled(ns: seq<Node>, lo: nat, hi: nat)
    requires Tiled(ns, lo, hi) && ns != []
    ensures Tiled(ns[1..], ns[0].End(), hi)
    ensures NoAdjacentFree(ns) ==> NoAdjacentFree(ns[1..])
  {
    var t := ns[1..];
    forall i, j | 0 <= i < j < |t|
      ensures Before(t[i], t[j])
    {
      assert Before(ns[i + 1], ns[j + 1]);
    }
    forall i | 0 <= i < |t| - 1
      ensures t[i].End() == t[i + 1].addr
    {
      assert ns[i + 1].End() == ns[i + 2].addr;
    }
    if |ns| > 1 {
      assert ns[0].End() == ns[1].addr;
    }
  }

  lemma TailLive(ns: seq<Node>, lo: nat, hi: nat)
    requires Tiled(ns, lo, hi) && ns != []
    ensures LiveNodes(ns[1..]) == LiveNodes(ns) - {ns[0]}
  {
    forall i | 0 < i < |ns|
      ensures ns[i] != ns[0]
    {
      assert Before(ns[0], ns[i]);
    }
    assert ns == [ns[0]] + ns[1..];
  }

  // A live head of one list heads the other list too, and a free head ends at a live block or
  // at the end, so it cannot end earlier than the other list's free head.
  lemma HeadFits(a: seq<Node>, b: seq<Node>, lo: nat, hi: nat)
    requires Tiled(a, lo, hi) && Tiled(b, lo, hi) && NoAdjacentFree(a)
    requires LiveNodes(a) == LiveNodes(b)
    requires a != [] && b != []
    ensures !a[0].free ==> b[0] == a[0]
    ensures a[0].free && b[0].free ==> a[0].size >= b[0].size
  {
    if !a[0].free {
      assert a[0] in LiveNodes(a);
      BlocksApart(b, lo, hi, a[0], b[0]);
    } else if b[0].free && a[0].size < b[0].size {
      SpanOf(b, lo, hi);
      assert a[0].End() == a[1].addr;
      assert a[1] in LiveNodes(a);
      BlocksApart(b, lo, hi, a[1], b[0]);
    }
  }

  // Two lists that tile the same range, hold the same live blocks and have no two neighbouring
  // free blocks are the same list.
  lemma {:induction false} Canonical(a: seq<Node>, b: seq<Node>, lo: nat, hi: nat)
    requires Tiled(a, lo, hi) && Tiled(b, lo, hi)
    requires NoAdjacentFree(a) && NoAdjacentFree(b)
    requires LiveNodes(a) == LiveNodes(b)
    ensures a == b
    decreases |a|
  {
    SpanOf(a, lo, hi);
    SpanOf(b, lo, hi);
    if a != [] && b != [] {
      HeadFits(a, b, lo, hi);
      HeadFits(b, a, lo, hi);
      assert a[0] == b[0];
      TailTiled(a, lo, hi);
      TailTiled(b, lo, hi);
      TailLive(a, lo, hi);
      TailLive(b, lo, hi);
      Canonical(a[1..], b[1..], a[0].End(), hi);
      assert a == [a[0]] + a[1..] && b == [b[0]] + b[1..];
    }
  }

  // The blocks a client holds, as pointers with capacities.
  ghost function Capacities(h: Heap): map<nat, nat> {
    map p | p in Held(h) :: |Held(h)[p]|
  }

  lemma LiveFromHeld(h: Heap, g: Heap, n: Node)
    requires Sound(h) && Sound(g) && Capacities(h) == Capacities(g)
    requires n in LiveNodes(h.nodes)
    ensures n in LiveNodes(g.nodes)
  {
    SoundSeparates(h);
    SoundSeparates(g);
    ViewAt(LiveNodes(h.nodes), h.mem, n);
    var p := n.Ptr();
    assert p in Capacities(h) && Capacities(h)[p] == n.size;
    var m := At(LiveNodes(g.nodes), p);
    ViewAt(LiveNodes(g.nodes), g.mem, m);
    assert m == n;
  }

  // Whatever the histories of two heaps, if they reach the same break with the same pointers
  // and capacities held, then their lists agree block for block.
  lemma SameHoldingsSameList(hs: seq<Heap>, es: seq<Event>, i: nat, gs: seq<Heap>, fs: seq<Event>, j: nat)
    requires Run(hs, es) && i < |hs| && Run(gs, fs) && j < |gs|
    requires |hs[i].mem| == |gs[j].mem| && Capacities(hs[i]) == Capacities(gs[j])
    ensures hs[i].nodes == gs[j].nodes
  {
    RunKeepsInv(hs, es, i);
    RunKeepsInv(gs, fs, j);
    forall n | n in LiveNodes(hs[i].nodes)
      ensures n in LiveNodes(gs[j].nodes)
    {
      LiveFromHeld(hs[i], gs[j], n);
    }
    forall n | n in LiveNodes(gs[j].nodes)
      ensures n in LiveNodes(hs[i].nodes)
    {
      LiveFromHeld(gs[j], hs[i], n);
    }
    Canonical(hs[i].nodes, gs[j].nodes, BASE, |hs[i].mem|);
  }

  ghost function Without(s: set<Node>, p: nat): set<Node> {
    set n | n in s && n.Ptr() != p
  }

  lemma FreeWithout(h: Heap, p: nat, h': Heap)
    requires Inv(h) && FreeStep(h, p, h') && p != 0
    ensures Inv(h') && |h'.mem| == |h.mem|
    ensures LiveNodes(h'.nodes) == Without(LiveNodes(h.nodes), p)
  {
    FreeKeepsInv(h, p, h');
    var n := FreeMembers(h, p, h');
    forall m | m in h.nodes && m.Ptr() == p
      ensures m == n
    {
      BlocksApart(h.nodes, BASE, |h.mem|, m, n);
    }
  }

  // The order of two frees does not matter.
  lemma FreesCommute(h: Heap, p: nat, q: nat, hp: Heap, hpq: Heap, hq: Heap, hqp: Heap)
    requires Inv(h) && p != 0 && q != 0
    requires FreeStep(h, p, hp) && FreeStep(hp, q, hpq)
    requires FreeStep(h, q, hq) && FreeStep(hq, p, hqp)
    ensures hpq.nodes == hqp.nodes
  {
    FreeWithout(h, p, hp);
    FreeWithout(h, q, hq);
    FreeWithout(hp, q, hpq);
    FreeWithout(hq, p, hqp);
    Canonical(hpq.nodes, hqp.nodes, BASE, |h.mem|);
  }

  // ----- What is freed is recovered -----

  // One free block spans the heap from base to break, or the heap was never grown.
  ghost predicate Recovered(h: Heap) {
    if h.nodes == [] then |h.mem| == BASE
    else |h.nodes| == 1 && h.nodes[0].free && h.nodes[0].addr == BASE && h.nodes[0].End() == |h.mem|
  }

  lemma NothingLive(h: Heap)
    requires Inv(h) && LiveNodes(h.nodes) == {}
    ensures Recovered(h)
  {
    assert |h.nodes| > 1 ==> !(h.nodes[0].free && h.nodes[1].free);
    forall i | 0 <= i < |h.nodes|
      ensures h.nodes[i].free
    {
      assert h.nodes[i] !in LiveNodes(h.nodes);
    }
  }

  // After any run, freeing every held block, in any order, leaves one free block that spans
  // the whole heap.
  lemma FullRecovery(hs: seq<Heap>, es: seq<Event>, k: nat)
    requires Run(hs, es) && k <= |es|
    requires forall i :: k <= i < |es| ==> es[i].Free?
    requires forall p :: p in Held(hs[k]) ==> Freed(es[k..], p)
    ensures Inv(hs[|es|]) && Recovered(hs[|es|])
  {
    RunRefines(hs, es);
    RunKeepsInv(hs, es, k);
    NullNeverHeld(hs[k]);
    DrainFrom(Views(hs), es, k);
    RunKeepsInv(hs, es, |es|);
    HeldEmpty(hs[|es|]);
    NothingLive(hs[|es|]);
  }

  // A recovered heap serves, without moving the break, exactly the requests that fit under one
  // header.
  lemma RecoveredServes(h: Heap, size: nat, q: nat, h': Heap)
    requires Inv(h) && Recovered(h) && size > 0 && MallocStep(h, size, q, h')
    ensures (q == BASE + HEADER && |h'.mem| == |h.mem|) <==> BASE + HEADER + Round8(size) <= |h.mem|
  {
    if h.nodes != [] && Fits(h.nodes[0], Round8(size)) {
      assert !NoFit(h.nodes, Round8(size));
    }
  }

  lemma DrainFrom(lives: seq<Live>, es: seq<Event>, k: nat)
    requires Trace(lives, es) && k <= |es| && 0 !in lives[k]
    requires forall i :: k <= i < |es| ==> es[i].Free?
    requires forall p :: p in lives[k] ==> Freed(es[k..], p)
    ensures lives[|es|] == map[]
  {
    var tail, rest := lives[k..], es[k..];
    forall i | 0 <= i < |rest|
      ensures Next(tail[i], rest[i], tail[i + 1]) && rest[i].Free?
    {
      assert Next(lives[k + i], es[k + i], lives[k + i + 1]) && es[k + i].Free?;
    }
    FreesDrain(tail, rest);
    assert tail[|rest|] == lives[|es|];
  }

  lemma NullNeverHeld(h: Heap)
    ensures 0 !in Held(h)
  {
  }

  lemma HeldEmpty(h: Heap)
    requires Sound(h) && Held(h) == map[]
    ensures LiveNodes(h.nodes) == {}
  {
    SoundSeparates(h);
    forall n | n in LiveNodes(h.nodes)
      ensures false
    {
      ViewAt(LiveNodes(h.nodes), h.mem, n);
    }
  }

  // Every address of the heap lies in some block.
  lemma {:induction false} Covering(ns: seq<Node>, lo: nat, hi: nat, a: nat) returns (i: nat)
    requires Tiled(ns, lo, hi) && lo <= a < hi
    ensures i < |ns| && ns[i].addr <= a < ns[i].End()
    decreases |ns|
  {
    if a < ns[0].End() {
      i := 0;
    } else {
      TailTiled(ns, lo, hi);
      var j := Covering(ns[1..], ns[0].End(), hi, a);
      i := j + 1;
    }
  }

  // Coalescing leaves a free block around each block that was free.
  lemma MergedCovers(ns: seq<Node>, ms: seq<Node>, lo: nat, hi: nat, n: Node) returns (i: nat)
    requires Tiled(ns, lo, hi) && Merged(ns, ms, lo, hi)
    requires n in ns && n.free && n.addr < hi && lo <= n.addr && n.End() <= hi
    ensures i < |ms| && ms[i].free && ms[i].addr <= n.addr && n.End() <= ms[i].End()
  {
    i := Covering(ms, lo, hi, n.addr);
    if !ms[i].free {
      assert ms[i] in LiveNodes(ms);
      BlocksApart(ns, lo, hi, ms[i], n);
    } else if ms[i].End() < n.End() {
      assert ms[i].End() == ms[i + 1].addr;
      assert ms[i + 1] in LiveNodes(ms);
      BlocksApart(ns, lo, hi, ms[i + 1], n);
    }
  }

  // Freed room can be had again at once: a request no larger than the freed block succeeds
  // without moving the break, wherever the block lies and whatever its neighbours.
  lemma FreedRoomReused(h: Heap, p: nat, k: nat, h1: Heap, size: nat, q: nat, h2: Heap)
    requires Inv(h) && Holds(h.nodes, p, k) && p != 0 && FreeStep(h, p, h1)
    requires 0 < size && Round8(size) <= h.nodes[k].size && MallocStep(h1, size, q, h2)
    ensures q != 0 && |h2.mem| == |h.mem|
  {
    var j: nat :| Holds(h.nodes, p, j) &&
      Merged(h.nodes[j := h.nodes[j].(free := true)], h1.nodes, BASE, |h.mem|);
    BlocksApart(h.nodes, BASE, |h.mem|, h.nodes[j], h.nodes[k]);
    var n := h.nodes[j].(free := true);
    var ns := h.nodes[j := n];
    RetagLayout(h.nodes, j, true, BASE, |h.mem|);
    InHeap(h, j);
    assert ns[j] == n;
    var i := MergedCovers(ns, h1.nodes, BASE, |h.mem|, n);
    assert Fits(h1.nodes[i], Round8(size));
  }

  // malloc serves the lowest free block that fits; it moves the break only when none fits, and
  // then by one header and the rounded size; when the kernel refuses nothing changes.
  lemma LowestFit(h: Heap, size: nat, q: nat, h': Heap)
    requires Inv(h) && size > 0 && MallocStep(h, size, q, h')
    ensures NoFit(h.nodes, Round8(size)) ==>
              (q == 0 && h' == h) || (q == |h.mem| + HEADER && |h'.mem| == q + Round8(size))
    ensures !NoFit(h.nodes, Round8(size)) ==> q != 0 && |h'.mem| == |h.mem|
    ensures forall n :: n in h.nodes && Fits(n, Round8(size)) ==> q <= n.Ptr()
  {
    if Reuses(h, Round8(size), q, h') {
      var k: nat :| FirstFit(h.nodes, Round8(size), k) && q == h.nodes[k].Ptr();
      forall n | n in h.nodes && Fits(n, Round8(size))
        ensures q <= n.Ptr()
      {
        var i :| 0 <= i < |h.nodes| && h.nodes[i] == n;
        assert k < i ==> Before(h.nodes[k], h.nodes[i]);
      }
    }
  }

  lemma Round8Holds(size: nat)
    requires size < WORD
    ensures Round8(size) >= size <==> size <= WORD - 8
  {
  }

  // The block that malloc hands out holds what was asked for, in memory that was granted, if and
  // only if rounding the size does not wrap around, as it does for the seven largest, and there is
  // a block that fits or room for one below 2^64.
  lemma CapacityMeetsRequest(h: Heap, size: nat, q: nat, h': Heap) returns (j: nat)
    requires Inv(h) && size < WORD && q != 0 && Call(h, Malloc(size, q), h')
    ensures Holds(h'.nodes, q, j)
    ensures h'.nodes[j].size >= size && h'.nodes[j].End() <= |h'.mem| <==> Sizeable(size) && !Wraps(h, size)
  {
    Round8Holds(size);
    if StrayStep(h, size, q, h') {
      j := |h.nodes|;
    } else {
      j := MallocGives(h, size, q, h');
      RoomTaken(h, size, q, h');
      MallocKeepsInv(h, size, q, h');
      InHeap(h', j);
    }
  }

  // Such a request on a fresh heap: malloc(2^64 - 7) succeeds with a block of no bytes.
  lemma HugeRequest(h: Heap, q: nat, h': Heap)
    requires Initial(h) && q != 0 && MallocStep(h, WORD - 7, q, h')
    ensures q == BASE + HEADER && h'.nodes == [Node(BASE, 0, false)]
  {
    assert Round8(WORD - 7) == 0;
  }

  // The copy of realloc stays inside the new block for every size that can be rounded; for the
  // others just when the old block is empty, or the first free block there is holds as much as it.
  lemma ReallocCopyFits(h: Heap, size: nat, q: nat, h1: Heap, p: nat, k: nat) returns (j: nat)
    requires Inv(h) && 0 < size < WORD && q != 0 && PlainMalloc(h, size, q, h1) && Holds(h.nodes, p, k)
    ensures Holds(h1.nodes, q, j)
    ensures Min(h.nodes[k].size, size) <= h1.nodes[j].size
       <==> || Sizeable(size) || h.nodes[k].size == 0
            || exists f: nat :: FirstFit(h.nodes, Round8(size), f) && h.nodes[k].size <= h.nodes[f].size
    ensures Min(h.nodes[k].size, size) <= h1.nodes[j].size <==> CopyFits(h, p, size)
  {
    InHeap(h, k);
    j := NewSize(h, size, q, h1);
    CopyFitsAt(h, p, size, k);
    SmallerFits(size, h.nodes[k].size, h1.nodes[j].size);
  }

  // The new block's size: that of the first free block that fits, else the rounded size.
  lemma NewSize(h: Heap, size: nat, q: nat, h1: Heap) returns (j: nat)
    requires q != 0 && MallocStep(h, size, q, h1)
    ensures Holds(h1.nodes, q, j) && Round8(size) <= h1.nodes[j].size
    ensures NoFit(h.nodes, Round8(size)) ==> h1.nodes[j].size == Round8(size)
    ensures forall n: nat :: FreeFor(h.nodes, Round8(size), n) <==>
              !NoFit(h.nodes, Round8(size)) && n <= h1.nodes[j].size
  {
    if Grows(h, Round8(size), q, h1) {
      j := |h.nodes|;
    } else {
      j :| FirstFit(h.nodes, Round8(size), j) && q == h.nodes[j].Ptr()
        && h1.nodes == h.nodes[j := h.nodes[j].(free := false)];
    }
  }

  lemma SmallerFits(size: nat, was: nat, now: nat)
    requires 0 < size < WORD && was < WORD - 8 && Round8(size) <= now
    ensures Min(was, size) <= now <==> Sizeable(size) || was <= now
    ensures !Sizeable(size) ==> Round8(size) == 0
  {
    if Sizeable(size) { Round8Exact(size); }
  }

  // An input for which it does not: 8 bytes are held, no block is free, and realloc to 2^64 - 7
  // copies those 8 bytes into a block of none.
  lemma CopyOverrunsHere(h: Heap, q: nat, h1: Heap)
    requires Inv(h) && h.nodes == [Node(BASE, 8, false)] && q != 0 && PlainMalloc(h, WORD - 7, q, h1)
    ensures !CopyFits(h, BASE + HEADER, WORD - 7)
    ensures h1.nodes == [Node(BASE, 8, false), Node(BASE + HEADER + 8, 0, false)]
  {
    assert Round8(WORD - 7) == 0;
    assert h.nodes + [Node(|h.mem|, 0, false)] == [Node(BASE, 8, false), Node(|h.mem|, 0, false)];
  }

  // calloc(2^32 + 1, 2^32) zeroes 2^32 bytes, not 2^64 + 2^32.
  lemma CallocOverflows()
    ensures Truncates(0x1_0000_0001 * 0x1_0000_0000, 0x1_0000_0000)
    ensures !AsksAtMost(Calloc(0x1_0000_0001, 0x1_0000_0000, 0), WORD - 8)
  {
    assert Wrapped(1, 0x1_0000_0000) == 0x1_0000_0001 * 0x1_0000_0000;
  }

  // ----- Calls that overrun -----

  // Of all calls exactly those that meet Contained beforehand, or fail, keep their stores inside
  // the memory granted and inside the block that they are meant for.
  lemma CallExact(h: Heap, e: Event, h': Heap)
    requires Inv(h) && Call(h, e, h') && Sized(e)
    ensures Step(h, e, h') <==> Fails(e) || Contained(h, e)
  {
    match e
    case Malloc(size, q) => if q != 0 && Step(h, e, h') { RoomTaken(h, size, q, h'); }
    case Calloc(count, size, q) => CallocExact(h, count, size, q, h');
    case Realloc(p, size, q) => ReallocExact(h, p, size, q, h');
    case _ =>
  }

  // Sizes are 64-bit words.
  predicate Sized(e: Event) {
    match e
    case Malloc(size, _) => size < WORD
    case Realloc(_, size, _) => size < WORD
    case _ => true
  }

  lemma CallocExact(h: Heap, count: nat, size: nat, q: nat, h': Heap)
    requires Inv(h) && Call(h, Calloc(count, size, q), h')
    ensures Step(h, Calloc(count, size, q), h') <==> q == 0 || Contained(h, Calloc(count, size, q))
  {
    if q != 0 {
      if Step(h, Calloc(count, size, q), h') {
        var total: nat :| Truncates(count * size, total) && CallocStep(h, total, q, h');
        FillStays(h, total, q, h');
      } else {
        var total: nat :| Truncates(count * size, total) && FillOverruns(h, total, q, h');
        if Contained(h, Calloc(count, size, q)) {
          var t: nat :| Truncates(count * size, t) && Sizeable(t) && !Wraps(h, t);
          TruncatesOnce(count * size, total, t);
        }
      }
    }
  }

  lemma FillStays(h: Heap, total: nat, q: nat, h': Heap)
    requires Inv(h) && |h'.mem| < WORD && q != 0 && CallocStep(h, total, q, h')
    ensures Sizeable(total) && !Wraps(h, total)
  {
    var h1 :| CallocVia(h, total, q, h1, h');
    RoomTaken(h, total, q, h1);
    MallocKeepsInv(h, total, q, h1);
    var k: nat :| Holds(h1.nodes, q, k) && total <= h1.nodes[k].size && h1.nodes[k].End() <= |h1.mem|;
  }

  lemma ReallocExact(h: Heap, p: nat, size: nat, q: nat, h': Heap)
    requires Inv(h) && size < WORD && Call(h, Realloc(p, size, q), h')
    ensures Step(h, Realloc(p, size, q), h') <==> q == 0 || Contained(h, Realloc(p, size, q))
  {
    if q != 0 && Step(h, Realloc(p, size, q), h') {
      if p == 0 {
        RoomTaken(h, size, q, h');
      } else {
        CopyStays(h, p, size, q, h');
      }
    }
  }

  lemma CopyStays(h: Heap, p: nat, size: nat, q: nat, h': Heap)
    requires Inv(h) && |h'.mem| < WORD && 0 < size < WORD && p != 0 && q != 0 && MoveStep(h, p, size, q, h')
    ensures CopyFits(h, p, size) && !Wraps(h, size)
  {
    var h1, data, h2 :| MoveVia(h, p, size, q, h1, data, h2, h');
    RoomTaken(h, size, q, h1);
    var k: nat :| Holds(h.nodes, p, k);
    CopyStaysAt(h, p, size, q, h1, data, h2, k);
  }

  lemma CopyStaysAt(h: Heap, p: nat, size: nat, q: nat, h1: Heap, data: seq<byte>, h2: Heap, k: nat)
    requires Inv(h) && 0 < size < WORD && p != 0 && q != 0 && Holds(h.nodes, p, k)
    requires PlainMalloc(h, size, q, h1) && Carried(h1, p, size, data) && WriteStep(h1, q, 0, data, h2)
    ensures CopyFits(h, p, size)
  {
    MallocKeepsInv(h, size, q, h1);
    var g := MallocGives(h, size, q, h1);
    var j := ReallocCopyFits(h, size, q, h1, p, k);
    CarriedLength(h1, p, size, data, k);
    WriteLength(h1, q, data, h2, j);
  }

  lemma CarriedLength(h: Heap, p: nat, size: nat, data: seq<byte>, k: nat)
    requires Sound(h) && Carried(h, p, size, data) && Holds(h.nodes, p, k)
    ensures |data| == Min(h.nodes[k].size, size)
  {
    var c: nat :| Holds(h.nodes, p, c) && h.nodes[c].End() <= |h.mem|
      && data == Payload(h.mem, h.nodes[c])[..Min(h.nodes[c].size, size)];
    BlocksApart(h.nodes, BASE, |h.mem|, h.nodes[c], h.nodes[k]);
  }

  lemma WriteLength(h: Heap, q: nat, data: seq<byte>, h': Heap, j: nat)
    requires Sound(h) && WriteStep(h, q, 0, data, h') && Holds(h.nodes, q, j)
    ensures |data| <= h.nodes[j].size
  {
    var i: nat :| Holds(h.nodes, q, i) && 0 + |data| <= h.nodes[i].size;
    BlocksApart(h.nodes, BASE, |h.mem|, h.nodes[i], h.nodes[j]);
  }

  // So a run goes on with a call if and only if the call fails or meets that condition.
  lemma RunGoesOn(hs: seq<Heap>, es: seq<Event>, e: Event, h': Heap)
    requires Run(hs, es) && Call(hs[|es|], e, h') && Sized(e)
    ensures Run(hs + [h'], es + [e]) <==> Fails(e) || Contained(hs[|es|], e)
  {
    RunKeepsInv(hs, es, |es|);
    CallExact(hs[|es|], e, h');
    var hs', es' := hs + [h'], es + [e];
    assert hs'[|es|] == hs[|es|] && es'[|es|] == e && hs'[|es| + 1] == h';
    if Step(hs[|es|], e, h') {
      forall i | 0 <= i < |es'|
        ensures Step(hs'[i], es'[i], hs'[i + 1])
      {
        if i < |es| { assert Step(hs[i], es[i], hs[i + 1]); }
      }
    }
  }

  lemma CopyFitsAt(h: Heap, p: nat, size: nat, k: nat)
    requires Sound(h) && Holds(h.nodes, p, k)
    ensures CopyFits(h, p, size)
       <==> Sizeable(size) || h.nodes[k].size == 0 || FreeFor(h.nodes, Round8(size), h.nodes[k].size)
  {
    if CopyFits(h, p, size) && !Sizeable(size) {
      var i: nat :| Holds(h.nodes, p, i)
        && (h.nodes[i].size == 0 || FreeFor(h.nodes, Round8(size), h.nodes[i].size));
      BlocksApart(h.nodes, BASE, |h.mem|, h.nodes[i], h.nodes[k]);
    }
  }

  // ----- Conservation -----

  function Total(ns: seq<Node>): nat {
    if ns == [] then 0 else HEADER + ns[0].size + Total(ns[1..])
  }

  lemma {:induction false} TotalOfTiling(ns: seq<Node>, lo: nat, hi: nat)
    requires Tiled(ns, lo, hi)
    ensures Total(ns) == hi - lo
    decreases |ns|
  {
    if ns != [] {
      TailTiled(ns, lo, hi);
      TotalOfTiling(ns[1..], ns[0].End(), hi);
    }
  }

  // In every heap of every run headers and block sizes add up to the distance from base to
  // break, and the header before each live pointer still says its capacity and "in use".
  lemma NothingLost(hs: seq<Heap>, es: seq<Event>, i: nat)
    requires Run(hs, es) && i < |hs|
    ensures Total(hs[i].nodes) == |hs[i].mem| - BASE
    ensures forall p :: p in Held(hs[i]) ==>
              && BASE + HEADER <= p && p % 8 == 0 && p + |Held(hs[i])[p]| <= |hs[i].mem|
              && Load(hs[i].mem, p - HEADER, 8) == |Held(hs[i])[p]|
              && Load(hs[i].mem, p - HEADER + 16, 4) == 0
  {
    RunKeepsInv(hs, es, i);
    TotalOfTiling(hs[i].nodes, BASE, |hs[i].mem|);
    forall p | p in Held(hs[i])
      ensures BASE + HEADER <= p && p % 8 == 0 && p + |Held(hs[i])[p]| <= |hs[i].mem|
      ensures Load(hs[i].mem, p - HEADER, 8) == |Held(hs[i])[p]|
      ensures Load(hs[i].mem, p - HEADER + 16, 4) == 0
    {
      HeaderOfHeld(hs[i], p);
    }
  }

  // In every heap of every run a live payload meets no header and no other block.
  lemma PayloadsClear(hs: seq<Heap>, es: seq<Event>, i: nat, p: nat, n: Node)
    requires Run(hs, es) && i < |hs| && p in Held(hs[i]) && n in hs[i].nodes
    ensures Apart(p, |Held(hs[i])[p]|, n.addr, HEADER)
    ensures n.Ptr() != p ==> Apart(p, |Held(hs[i])[p]|, n.addr, HEADER + n.size)
  {
    RunKeepsInv(hs, es, i);
    var h := hs[i];
    SoundSeparates(h);
    var m := At(LiveNodes(h.nodes), p);
    ViewAt(LiveNodes(h.nodes), h.mem, m);
    BlocksApart(h.nodes, BASE, |h.mem|, m, n);
  }

  lemma HeaderOfHeld(h: Heap, p: nat)
    requires Inv(h) && p in Held(h)
    ensures BASE + HEADER <= p && p % 8 == 0 && p + |Held(h)[p]| <= |h.mem|
    ensures Load(h.mem, p - HEADER, 8) == |Held(h)[p]|
    ensures Load(h.mem, p - HEADER + 16, 4) == 0
  {
    SoundSeparates(h);
    var n := At(LiveNodes(h.nodes), p);
    ViewAt(LiveNodes(h.nodes), h.mem, n);
    var k :| 0 <= k < |h.nodes| && h.nodes[k] == n;
    HeaderFields(h, k);
  }

  lemma HeaderFields(h: Heap, k: nat)
    requires Sound(h) && k < |h.nodes|
    ensures var n := h.nodes[k];
            && BASE <= n.addr && n.Ptr() % 8 == 0 && n.End() <= |h.mem|
            && Load(h.mem, n.addr, 8) == n.size && (Load(h.mem, n.addr + 16, 4) == 0 <==> !n.free)
  {
    InHeap(h, k);
    assert HeaderAt(h.mem, h.nodes[k], NextAddr(h.nodes, k));
    assert Even8(h.nodes[k]);
  }
}
