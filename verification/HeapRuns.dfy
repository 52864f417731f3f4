/** What every call and every run of the libgloss heap does to the blocks that a client holds: it
    meets AllocSpec, and serves exactly the requests for which there is room. */
module HeapRuns {
  import opened Bytes
  import opened AllocSpec
  import opened BlockList
  import opened Common

  // ----- The client's view -----

  // Blocks that lie in memory and apart from each other, header and all.
  ghost predicate Separate(s: set<Node>, m: seq<byte>) {
    && (forall n :: n in s ==> n.End() <= |m|)
    && (forall a, b {:trigger Before(a, b)} :: a in s && b in s && a != b ==> Before(a, b) || Before(b, a))
  }

  ghost function Pointers(s: set<Node>): set<nat> {
    set n | n in s :: n.Ptr()
  }

  // The block of s that p points to.
  ghost function At(s: set<Node>, p: nat): (n: Node)
    requires p in Pointers(s)
    ensures n in s && n.Ptr() == p
  {
    var n :| n in s && n.Ptr() == p;
    n
  }

  // Each block's pointer with the bytes now in memory.
  ghost function View(s: set<Node>, m: seq<byte>): Live
    requires Separate(s, m)
  {
    map p | p in Pointers(s) :: Payload(m, At(s, p))
  }

  lemma ViewAt(s: set<Node>, m: seq<byte>, n: Node)
    requires Separate(s, m) && n in s
    ensures n.Ptr() in View(s, m) && View(s, m)[n.Ptr()] == Payload(m, n)
  {
    var a := At(s, n.Ptr());
    assert a == n || Before(a, n) || Before(n, a);
  }

  lemma BlocksApart(ns: seq<Node>, lo: nat, hi: nat, a: Node, b: Node)
    requires Tiled(ns, lo, hi) && a in ns && b in ns
    ensures a == b || Before(a, b) || Before(b, a)
  {
    var i :| 0 <= i < |ns| && ns[i] == a;
    var j :| 0 <= j < |ns| && ns[j] == b;
    assert i < j ==> Before(ns[i], ns[j]);
    assert j < i ==> Before(ns[j], ns[i]);
  }

  lemma SoundSeparates(h: Heap)
    requires Sound(h)
    ensures Separate(LiveNodes(h.nodes), h.mem)
  {
    forall n | n in h.nodes
      ensures n.End() <= |h.mem|
    {
      var i :| 0 <= i < |h.nodes| && h.nodes[i] == n;
      InHeap(h, i);
    }
    forall a, b | a in h.nodes && b in h.nodes && a != b
      ensures Before(a, b) || Before(b, a)
    {
      BlocksApart(h.nodes, BASE, |h.mem|, a, b);
    }
  }

  // What the client of heap h holds.
  ghost function Held(h: Heap): Live {
    if Separate(LiveNodes(h.nodes), h.mem) then View(LiveNodes(h.nodes), h.mem) else map[]
  }

  // ----- Every call does what AllocSpec says -----

  lemma ViewAdds(s: set<Node>, m: seq<byte>, n: Node, m': seq<byte>)
    requires Separate(s, m) && Separate(s + {n}, m')
    requires n !in s
    requires forall a :: a in s ==> Payload(m', a) == Payload(m, a)
    ensures Placed(View(s, m), View(s, m), n.Ptr(), View(s + {n}, m'))
    ensures |View(s + {n}, m')[n.Ptr()]| == n.size
  {
    var live, live', q := View(s, m), View(s + {n}, m'), n.Ptr();
    ViewAt(s + {n}, m', n);
    forall p | p in live
      ensures p != q && p in live' && live'[p] == live[p] && Apart(p, |live[p]|, q, n.size)
    {
      var a := At(s, p);
      ViewAt(s + {n}, m', a);
      assert Before(a, n) || Before(n, a);
    }
    assert Pointers(s + {n}) == Pointers(s) + {q};
    assert live' == live[q := live'[q]];
  }

  lemma ViewDrops(s: set<Node>, m: seq<byte>, n: Node, m': seq<byte>, s': set<Node>)
    requires Separate(s, m) && Separate(s', m')
    requires n in s && s' == s - {n}
    requires forall a :: a in s' ==> Payload(m', a) == Payload(m, a)
    ensures n.Ptr() in View(s, m)
    ensures View(s', m') == View(s, m) - {n.Ptr()}
  {
    assert s == s' + {n};
    ViewAdds(s', m', n, m);
    MapDrop(View(s', m'), View(s, m), n.Ptr());
  }

  lemma MapDrop(live': Live, live: Live, q: nat)
    requires q !in live' && q in live && live == live'[q := live[q]]
    ensures live' == live - {q}
  {
  }

  lemma ViewWrites(s: set<Node>, m: seq<byte>, n: Node, m': seq<byte>)
    requires Separate(s, m) && Separate(s, m')
    requires n in s
    requires forall a :: a in s && a != n ==> Payload(m', a) == Payload(m, a)
    ensures View(s, m') == View(s, m)[n.Ptr() := Payload(m', n)]
  {
    ViewAt(s, m', n);
  }

  // A write inside block n leaves every other block alone.
  lemma OthersKept(s: set<Node>, m: seq<byte>, n: Node, offset: nat, data: seq<byte>, m': seq<byte>)
    requires Separate(s, m) && n in s && offset + |data| <= n.size
    requires m' == Patch(m, n.Ptr() + offset, data)
    ensures forall a :: a in s && a != n ==> Payload(m', a) == Payload(m, a)
    ensures Payload(m', n) == Patch(Payload(m, n), offset, data)
  {
    forall a | a in s && a != n
      ensures Payload(m', a) == Payload(m, a)
    {
      assert Before(a, n) || Before(n, a);
      PatchOutside(m, n.Ptr() + offset, data, a.Ptr(), a.End());
    }
    PatchWithin(m, n.Ptr(), n.size, offset, data);
  }

  lemma ViewPatches(s: set<Node>, m: seq<byte>, n: Node, offset: nat, data: seq<byte>, m': seq<byte>)
    requires Separate(s, m) && n in s && offset + |data| <= n.size
    requires m' == Patch(m, n.Ptr() + offset, data)
    ensures Separate(s, m') && Next(View(s, m), Write(n.Ptr(), offset, data), View(s, m'))
  {
    OthersKept(s, m, n, offset, data, m');
    ViewAt(s, m, n);
    ViewWrites(s, m, n, m');
  }

  lemma RetagMembers(ns: seq<Node>, k: nat, n: Node, lo: nat, hi: nat)
    requires Tiled(ns, lo, hi) && k < |ns|
    ensures forall m :: m in ns[k := n] <==> m == n || (m in ns && m != ns[k])
  {
    var ns' := ns[k := n];
    forall m
      ensures m in ns' <==> m == n || (m in ns && m != ns[k])
    {
      if m in ns' {
        var i :| 0 <= i < |ns'| && ns'[i] == m;
        assert i < k ==> Before(ns[i], ns[k]);
        assert k < i ==> Before(ns[k], ns[i]);
      }
      if m == n { assert ns'[k] == m; }
      if m in ns && m != ns[k] {
        var i :| 0 <= i < |ns| && ns[i] == m;
        assert ns'[i] == m;
      }
    }
  }

  // The block that malloc makes live.
  lemma MallocMembers(h: Heap, size: nat, q: nat, h': Heap) returns (n: Node)
    requires Sound(h) && (Reuses(h, size, q, h') || Grows(h, size, q, h'))
    ensures n !in h.nodes && !n.free && size <= n.size && n.Ptr() == q
    ensures LiveNodes(h'.nodes) == LiveNodes(h.nodes) + {n}
  {
    if Grows(h, size, q, h') {
      n := Node(|h.mem|, size, false);
      if n in h.nodes {
        var i :| 0 <= i < |h.nodes| && h.nodes[i] == n;
        InHeap(h, i);
      }
    } else {
      var k: nat :| FirstFit(h.nodes, size, k) && q == h.nodes[k].Ptr()
        && h'.nodes == h.nodes[k := h.nodes[k].(free := false)];
      n := h.nodes[k].(free := false);
      RetagMembers(h.nodes, k, n, BASE, |h.mem|);
      if n in h.nodes {
        BlocksApart(h.nodes, BASE, |h.mem|, n, h.nodes[k]);
      }
    }
  }

  // What is held lies below the break, so no block comes near 2^64 bytes.
  lemma HeldSmall(h: Heap, p: nat)
    requires Inv(h) && p in Held(h)
    ensures |Held(h)[p]| < WORD - 8
  {
    SoundSeparates(h);
    ViewAt(LiveNodes(h.nodes), h.mem, At(LiveNodes(h.nodes), p));
  }

  lemma MallocRefines(h: Heap, size: nat, q: nat, h': Heap)
    requires Inv(h) && |h'.mem| < WORD && MallocStep(h, size, q, h')
    ensures Inv(h') && Allocates(Held(h), size, q, Held(h'))
    ensures q != 0 ==> |Held(h')[q]| >= Round8(size) && !Wraps(h, size)
  {
    MallocKeepsInv(h, size, q, h');
    if q != 0 {
      RoomTaken(h, size, q, h');
      var n := MallocMembers(h, Round8(size), q, h');
      SoundSeparates(h);
      SoundSeparates(h');
      ViewAdds(LiveNodes(h.nodes), h.mem, n, h'.mem);
    }
  }

  // The block holds the request exactly when rounding the size does not wrap around.
  lemma AmpleIffSizeable(h: Heap, q: nat, size: nat)
    requires Inv(h) && q != 0 && q in Held(h)
    requires |Held(h)[q]| >= Round8(size)
    ensures Ample(Held(h), q, size) <==> Sizeable(size)
  {
    HeldSmall(h, q);
    if Sizeable(size) { Round8Exact(size); }
  }

  lemma FreeMembers(h: Heap, p: nat, h': Heap) returns (n: Node)
    requires Sound(h) && FreeStep(h, p, h') && p != 0
    ensures n in h.nodes && !n.free && n.Ptr() == p
    ensures LiveNodes(h'.nodes) == LiveNodes(h.nodes) - {n}
  {
    var k: nat :| Holds(h.nodes, p, k) &&
      Merged(h.nodes[k := h.nodes[k].(free := true)], h'.nodes, BASE, |h.mem|);
    n := h.nodes[k];
    RetagMembers(h.nodes, k, n.(free := true), BASE, |h.mem|);
  }

  lemma FreeRefines(h: Heap, p: nat, h': Heap)
    requires Inv(h) && FreeStep(h, p, h')
    ensures Inv(h') && Next(Held(h), Free(p), Held(h'))
  {
    FreeKeepsInv(h, p, h');
    if p != 0 {
      var n := FreeMembers(h, p, h');
      SoundSeparates(h);
      SoundSeparates(h');
      ViewDrops(LiveNodes(h.nodes), h.mem, n, h'.mem, LiveNodes(h'.nodes));
    }
  }

  lemma WriteRefines(h: Heap, p: nat, offset: nat, data: seq<byte>, h': Heap)
    requires Inv(h) && WriteStep(h, p, offset, data, h')
    ensures Inv(h') && Next(Held(h), Write(p, offset, data), Held(h'))
  {
    WriteKeepsInv(h, p, offset, data, h');
    var k: nat :| Holds(h.nodes, p, k) && offset + |data| <= h.nodes[k].size
                  && h.nodes[k].End() <= |h.mem|;
    SoundSeparates(h);
    ViewPatches(LiveNodes(h.nodes), h.mem, h.nodes[k], offset, data, h'.mem);
  }

  lemma CallocRefines(h: Heap, count: nat, size: nat, total: nat, q: nat, h': Heap)
    requires Inv(h) && |h'.mem| < WORD && Truncates(count * size, total) && CallocStep(h, total, q, h')
    ensures Inv(h') && Next(Held(h), Calloc(count, size, q), Held(h'))
    ensures Serves(Calloc(count, size, q), Held(h'))
       <==> q == 0 || (Sizeable(count * size) && !Wraps(h, count * size))
  {
    if q == 0 {
      MallocRefines(h, total, q, h');
    } else {
      var h1 :| CallocVia(h, total, q, h1, h');
      FilledBlock(h, total, q, h1, h');
      TruncatedValue(count * size, total);
      RoomTaken(h, total, q, h1);
      CallocComposes(Held(h), count, size, total, q, Held(h1), Held(h'));
      CallocServes(h', count, size, q);
    }
  }

  // A block from malloc in memory that was granted: there was room for it.
  lemma RoomTaken(h: Heap, size: nat, q: nat, h': Heap)
    requires PlainMalloc(h, size, q, h') && q != 0
    ensures !Wraps(h, size)
  {
  }

  lemma FilledBlock(h: Heap, total: nat, q: nat, h1: Heap, h': Heap)
    requires Inv(h) && |h'.mem| < WORD && q != 0 && CallocVia(h, total, q, h1, h')
    ensures Inv(h') && total > 0 && Placed(Held(h), Held(h), q, Held(h1))
    ensures Next(Held(h1), Write(q, 0, seq(total, _ => 0)), Held(h'))
  {
    MallocRefines(h, total, q, h1);
    WriteRefines(h1, q, 0, seq(total, _ => 0), h');
  }

  lemma CallocServes(h: Heap, count: nat, size: nat, q: nat)
    requires Inv(h) && q != 0 && q in Held(h)
    ensures Serves(Calloc(count, size, q), Held(h)) ==> Sizeable(count * size)
  {
    HeldSmall(h, q);
  }

  lemma HeldAt(h: Heap, p: nat, k: nat)
    requires Sound(h) && Holds(h.nodes, p, k)
    ensures h.nodes[k].End() <= |h.mem|
    ensures p in Held(h) && Held(h)[p] == Payload(h.mem, h.nodes[k])
  {
    SoundSeparates(h);
    ViewAt(LiveNodes(h.nodes), h.mem, h.nodes[k]);
  }

  lemma CarriedIsHeld(h: Heap, p: nat, size: nat, data: seq<byte>)
    requires Sound(h) && Carried(h, p, size, data)
    ensures p in Held(h) && data == Held(h)[p][..Min(|Held(h)[p]|, size)]
  {
    var k: nat :| Holds(h.nodes, p, k) && h.nodes[k].End() <= |h.mem|
      && data == Payload(h.mem, h.nodes[k])[..Min(h.nodes[k].size, size)];
    HeldAt(h, p, k);
  }

  lemma MoveRefines(h: Heap, p: nat, size: nat, q: nat, h': Heap)
    requires Inv(h) && |h'.mem| < WORD && MoveStep(h, p, size, q, h') && p != 0 && size != 0
    ensures Inv(h') && Next(Held(h), Realloc(p, size, q), Held(h'))
    ensures q != 0 ==> |Held(h')[q]| >= Round8(size) && !Wraps(h, size)
  {
    var k: nat :| Holds(h.nodes, p, k);
    HeldAt(h, p, k);
    if q == 0 {
      MallocRefines(h, size, q, h');
    } else {
      var h1, data, h2 :| MoveVia(h, p, size, q, h1, data, h2, h');
      MallocRefines(h, size, q, h1);
      RoomTaken(h, size, q, h1);
      CarriedIsHeld(h1, p, size, data);
      WriteRefines(h1, q, 0, data, h2);
      FreeRefines(h2, p, h');
      ReallocComposes(Held(h), p, size, q, Held(h1), Held(h2), Held(h'));
    }
  }

  // One call of the libgloss heap keeps its invariant and is a step of AllocSpec, for every size.
  lemma StepRefines(h: Heap, e: Event, h': Heap)
    requires Inv(h) && Step(h, e, h')
    ensures Inv(h') && Next(Held(h), e, Held(h'))
  {
    match e
    case Malloc(size, q) => MallocRefines(h, size, q, h');
    case Calloc(count, size, q) =>
      var total: nat :| Truncates(count * size, total) && CallocStep(h, total, q, h');
      CallocRefines(h, count, size, total, q, h');
    case Realloc(p, size, q) =>
      if p == 0 {
        MallocRefines(h, size, q, h');
      } else if size == 0 {
        FreeRefines(h, p, h');
      } else {
        MoveRefines(h, p, size, q, h');
      }
    case Free(p) => FreeRefines(h, p, h');
    case Write(p, offset, data) => WriteRefines(h, p, offset, data, h');
  }

  lemma StepServes(h: Heap, e: Event, h': Heap)
    requires Inv(h) && Step(h, e, h')
    ensures Serves(e, Held(h')) <==> Fails(e) || (AsksAtMost(e, WORD - 8) && !RequestWraps(h, e))
  {
    match e
    case Malloc(size, q) =>
      MallocRefines(h, size, q, h');
      if q != 0 { AmpleIffSizeable(h', q, size); }
    case Calloc(count, size, q) =>
      var total: nat :| Truncates(count * size, total) && CallocStep(h, total, q, h');
      CallocRefines(h, count, size, total, q, h');
    case Realloc(p, size, q) =>
      if p == 0 {
        MallocRefines(h, size, q, h');
      } else if size != 0 {
        MoveRefines(h, p, size, q, h');
      }
      if q != 0 { AmpleIffSizeable(h', q, size); }
    case _ =>
  }

  // A stray block is in front of no memory: its pointer is to nothing at all, or to no bytes.
  lemma StrayHoldsNothing(h: Heap, size: nat, q: nat, h': Heap)
    requires Sound(h) && StrayStep(h, size, q, h')
    ensures !Inv(h') && (q in Held(h') ==> Held(h')[q] == [])
  {
    var n := Node(|h.mem|, Round8(size), false);
    assert h'.nodes[|h.nodes|] == n && n in LiveNodes(h'.nodes);
    if Separate(LiveNodes(h'.nodes), h'.mem) { ViewAt(LiveNodes(h'.nodes), h'.mem, n); }
  }

  lemma FillOverrunServes(h: Heap, count: nat, size: nat, asked: nat, total: nat, q: nat, h': Heap)
    requires Inv(h) && asked == count * size && Truncates(asked, total) && FillOverruns(h, total, q, h')
    ensures q != 0 && !Serves(Calloc(count, size, q), Held(h')) && (!Sizeable(asked) || Wraps(h, asked))
  {
    TruncatedValue(asked, total);
    if StrayStep(h, total, q, h') {
      StrayHoldsNothing(h, total, q, h');
    } else {
      MallocRefines(h, total, q, h');
      CallocServes(h', count, size, q);
    }
  }

  lemma MallocOverrunServes(h: Heap, size: nat, q: nat, h': Heap)
    requires Inv(h) && q != 0 && (StrayStep(h, size, q, h') || (!Sizeable(size) && PlainMalloc(h, size, q, h')))
    ensures !Ample(Held(h'), q, size) && (!Sizeable(size) || Wraps(h, size))
  {
    if StrayStep(h, size, q, h') {
      StrayHoldsNothing(h, size, q, h');
    } else {
      MallocRefines(h, size, q, h');
      AmpleIffSizeable(h', q, size);
    }
  }

  // A call that did not fail gave what was asked for if and only if rounding the size does not
  // wrap around and there is a block that fits or room for one below 2^64.
  lemma CallServes(h: Heap, e: Event, h': Heap)
    requires Inv(h) && Call(h, e, h')
    ensures Serves(e, Held(h')) <==> Fails(e) || (AsksAtMost(e, WORD - 8) && !RequestWraps(h, e))
  {
    if Step(h, e, h') {
      StepServes(h, e, h');
    } else {
      match e
      case Malloc(size, q) => MallocOverrunServes(h, size, q, h');
      case Calloc(count, size, q) =>
        var total: nat :| Truncates(count * size, total) && FillOverruns(h, total, q, h');
        FillOverrunServes(h, count, size, count * size, total, q, h');
      case Realloc(p, size, q) => MallocOverrunServes(h, size, q, h');
    }
  }

  // No call and no client store changes a byte below the heap.
  lemma CallKeepsBelow(h: Heap, e: Event, h': Heap)
    requires Inv(h) && Call(h, e, h')
    ensures BASE <= |h'.mem| && h'.mem[..BASE] == h.mem[..BASE]
  {
    match e
    case Malloc(size, q) =>
    case Calloc(count, size, q) =>
      if Step(h, e, h') {
        var total: nat :| Truncates(count * size, total) && CallocStep(h, total, q, h');
        if q != 0 {
          var h1 :| CallocVia(h, total, q, h1, h');
          MallocRefines(h, total, q, h1);
          WriteKeepsBelow(h1, q, 0, seq(total, _ => 0), h');
        }
      }
    case Realloc(p, size, q) =>
      if p != 0 && size != 0 && q != 0 && Step(h, e, h') {
        var h1, data, h2 :| MoveVia(h, p, size, q, h1, data, h2, h');
        MoveKeepsBelow(h, p, size, q, h1, data, h2, h');
      }
    case Free(p) =>
    case Write(p, offset, data) => WriteKeepsBelow(h, p, offset, data, h');
  }

  lemma WriteKeepsBelow(h: Heap, p: nat, offset: nat, data: seq<byte>, h': Heap)
    requires Inv(h) && WriteStep(h, p, offset, data, h')
    ensures BASE <= |h'.mem| && h'.mem[..BASE] == h.mem[..BASE]
  {
    var k: nat :| Holds(h.nodes, p, k) && offset + |data| <= h.nodes[k].size
                  && h.nodes[k].End() <= |h.mem|;
    InHeap(h, k);
    PatchOutside(h.mem, p + offset, data, 0, BASE);
  }

  lemma MoveKeepsBelow(h: Heap, p: nat, size: nat, q: nat, h1: Heap, data: seq<byte>, h2: Heap, h': Heap)
    requires Inv(h) && |h'.mem| < WORD && q != 0 && p != 0 && MoveVia(h, p, size, q, h1, data, h2, h')
    ensures BASE <= |h'.mem| && h'.mem[..BASE] == h.mem[..BASE]
  {
    MallocRefines(h, size, q, h1);
    WriteKeepsBelow(h1, q, 0, data, h2);
  }

  // ----- Runs -----

  ghost predicate Initial(h: Heap) {
    h.nodes == [] && |h.mem| == BASE
  }

  ghost predicate Run(hs: seq<Heap>, es: seq<Event>) {
    && |hs| == |es| + 1
    && Initial(hs[0])
    && forall i :: 0 <= i < |es| ==> Step(hs[i], es[i], hs[i + 1])
  }

  ghost function Views(hs: seq<Heap>): seq<Live> {
    seq(|hs|, i requires 0 <= i < |hs| => Held(hs[i]))
  }

  lemma {:induction false} RunKeepsInv(hs: seq<Heap>, es: seq<Event>, i: nat)
    requires Run(hs, es) && i < |hs|
    ensures Inv(hs[i])
  {
    if i > 0 {
      RunKeepsInv(hs, es, i - 1);
      StepRefines(hs[i - 1], es[i - 1], hs[i]);
    }
  }

  lemma RunNext(hs: seq<Heap>, es: seq<Event>, i: nat)
    requires Run(hs, es) && i < |es|
    ensures Next(Views(hs)[i], es[i], Views(hs)[i + 1])
  {
    RunKeepsInv(hs, es, i);
    StepRefines(hs[i], es[i], hs[i + 1]);
  }

  // The same for every call that can be made at any point of any run.
  lemma RunServes(hs: seq<Heap>, es: seq<Event>, i: nat, e: Event, h': Heap)
    requires Run(hs, es) && i < |hs| && Call(hs[i], e, h')
    ensures Serves(e, Held(h')) <==> Fails(e) || (AsksAtMost(e, WORD - 8) && !RequestWraps(hs[i], e))
  {
    RunKeepsInv(hs, es, i);
    CallServes(hs[i], e, h');
  }

  ghost predicate SameBelow(h: Heap, h': Heap) {
    BASE <= |h.mem| && BASE <= |h'.mem| && h'.mem[..BASE] == h.mem[..BASE]
  }

  lemma StepKeepsBelow(hs: seq<Heap>, es: seq<Event>, i: nat)
    requires Run(hs, es) && i < |es|
    ensures SameBelow(hs[i], hs[i + 1])
  {
    RunKeepsInv(hs, es, i);
    CallKeepsBelow(hs[i], es[i], hs[i + 1]);
  }

  lemma SameBelowTrans(a: Heap, b: Heap, c: Heap)
    requires SameBelow(a, b) && SameBelow(b, c)
    ensures SameBelow(a, c)
  {
  }

  // All memory below the heap is, at every point of every run, as it was at the start.
  lemma {:induction false} RunKeepsBelow(hs: seq<Heap>, es: seq<Event>, i: nat)
    requires Run(hs, es) && i < |hs|
    ensures SameBelow(hs[0], hs[i])
  {
    if i > 0 {
      RunKeepsBelow(hs, es, i - 1);
      StepKeepsBelow(hs, es, i - 1);
      SameBelowTrans(hs[0], hs[i - 1], hs[i]);
    }
  }

  lemma NothingHeld(h: Heap)
    ensures LiveNodes(h.nodes) == {} ==> Held(h) == map[]
  {
  }

  // Every run of the libgloss heap, whatever the kernel answers, is a run of AllocSpec.
  lemma RunRefines(hs: seq<Heap>, es: seq<Event>)
    requires Run(hs, es)
    ensures Trace(Views(hs), es)
    ensures Views(hs)[0] == map[]
  {
    forall i | 0 <= i < |es|
      ensures Next(Views(hs)[i], es[i], Views(hs)[i + 1])
    {
      RunNext(hs, es, i);
    }
    assert LiveNodes(hs[0].nodes) == {};
    NothingHeld(hs[0]);
  }

  // In every heap of every run the held blocks are apart; and a block that is not given back
  // holds, at every later point, exactly what its owner stored in it.
  lemma ClientSafety(hs: seq<Heap>, es: seq<Event>, i: nat, j: nat, p: nat)
    requires Run(hs, es) && i <= j <= |es|
    requires p in Held(hs[i]) && p != 0
    requires forall k :: i <= k < j ==> !Releases(es[k], p)
    ensures Separated(Held(hs[j]))
    ensures p in Held(hs[j]) && Held(hs[j])[p] == Replay(es[i..j], p, Held(hs[i])[p])
  {
    RunRefines(hs, es);
    NeverOverlap(Views(hs), es);
    assert Separated(Views(hs)[j]);
    OwnerReadsFrom(Views(hs), es, i, j, p);
  }
}
