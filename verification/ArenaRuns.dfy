/** What holds over every run of the TCC heap. */
module ArenaRuns {
  import opened Bytes
  import opened AllocSpec
  import opened Arena
  import opened Common

  ghost predicate Initial(h: Heap) {
    h.chunks == [] && h.live == {} && 0 < h.base == |h.mem| < WORD
  }

  ghost predicate Run(hs: seq<Heap>, es: seq<Event>) {
    && |hs| == |es| + 1
    && Initial(hs[0])
    && forall i :: 0 <= i < |es| ==> Step(hs[i], es[i], hs[i + 1])
  }

  ghost function Views(hs: seq<Heap>): seq<Live> {
    seq(|hs|, i requires 0 <= i < |hs| => Held(hs[i]))
  }

  lemma {:induction false} RunKeepsInv(hs: seq<Heap>, es: seq<Event>, i: nat)
    requires Run(hs, es) && i < |hs|
    ensures Inv(hs[i])
  {
    if i > 0 {
      RunKeepsInv(hs, es, i - 1);
      StepRefines(hs[i - 1], es[i - 1], hs[i]);
    }
  }

  lemma RunNext(hs: seq<Heap>, es: seq<Event>, i: nat)
    requires Run(hs, es) && i < |es|
    ensures Next(Views(hs)[i], es[i], Views(hs)[i + 1])
  {
    RunKeepsInv(hs, es, i);
    StepRefines(hs[i], es[i], hs[i + 1]);
  }

  // Every run of the TCC heap, whatever the kernel answers, is a run of AllocSpec.
  lemma RunRefines(hs: seq<Heap>, es: seq<Event>)
    requires Run(hs, es)
    ensures Trace(Views(hs), es)
    ensures Views(hs)[0] == map[]
  {
    forall i | 0 <= i < |es|
      ensures Next(Views(hs)[i], es[i], Views(hs)[i + 1])
    {
      RunNext(hs, es, i);
    }
  }

  // Every call that can be made at any point of any run, other than a realloc in place, gives
  // what was asked for or fails exactly when CallServes says.
  lemma RunServes(hs: seq<Heap>, es: seq<Event>, i: nat, e: Event, h': Heap)
    requires Run(hs, es) && i < |hs| && Call(hs[i], e, h') && !GoesInPlace(hs[i], e)
    ensures Serves(e, Held(h')) <==> Fails(e) || (AsksAtMost(e, WORD - 16) && RequestFits(hs[i], e))
  {
    RunKeepsInv(hs, es, i);
    CallServes(hs[i], e, h');
  }

  // Of all calls exactly those that meet Contained beforehand, or fail, keep their stores inside
  // the memory granted and inside the block that they are meant for.
  lemma CallExact(h: Heap, e: Event, h': Heap)
    requires Inv(h) && Call(h, e, h') && (e.Realloc? ==> e.size < WORD)
    ensures Step(h, e, h') <==> Fails(e) || Contained(h, e)
  {
    match e
    case Malloc(size, q) =>
    case Calloc(count, size, q) => CallocExact(h, count, size, q, h');
    case Realloc(p, size, q) => if p != 0 && size > 0 { ReallocExact(h, p, size, q, h'); }
    case _ =>
  }

  lemma CallocExact(h: Heap, count: nat, size: nat, q: nat, h': Heap)
    requires Inv(h) && Call(h, Calloc(count, size, q), h')
    ensures Step(h, Calloc(count, size, q), h') <==> q == 0 || Contained(h, Calloc(count, size, q))
  {
    if q != 0 {
      if Step(h, Calloc(count, size, q), h') {
        var total: nat :| Truncates(count * size, total) && CallocStep(h, total, q, h');
        Round16Holds(total);
      } else {
        var total: nat :| Truncates(count * size, total) && FillOverruns(h, total, q, h');
        if Contained(h, Calloc(count, size, q)) {
          var t: nat :| Truncates(count * size, t) && Sizeable(t) && Room(h, t);
          TruncatesOnce(count * size, total, t);
        }
      }
    }
  }

  lemma ReallocExact(h: Heap, p: nat, size: nat, q: nat, h': Heap)
    requires Inv(h) && Call(h, Realloc(p, size, q), h') && p != 0 && 0 < size < WORD
    ensures Step(h, Realloc(p, size, q), h') <==> q == 0 || Contained(h, Realloc(p, size, q))
  {
    ReallocCopyFits(h, p, size);
    if q != 0 && Step(h, Realloc(p, size, q), h') {
      var data :| AllocStep(h, size, q, data, h.live - {p} + {q}, h') && Carries(h, p, size, data);
    }
  }

  // So a run goes on with a call if and only if the call fails or meets that condition.
  lemma RunGoesOn(hs: seq<Heap>, es: seq<Event>, e: Event, h': Heap)
    requires Run(hs, es) && Call(hs[|es|], e, h') && (e.Realloc? ==> e.size < WORD)
    ensures Run(hs + [h'], es + [e]) <==> Fails(e) || Contained(hs[|es|], e)
  {
    RunKeepsInv(hs, es, |es|);
    CallExact(hs[|es|], e, h');
    var hs', es' := hs + [h'], es + [e];
    assert hs'[|es|] == hs[|es|] && es'[|es|] == e && hs'[|es| + 1] == h';
    if Step(hs[|es|], e, h') {
      forall i | 0 <= i < |es'|
        ensures Step(hs'[i], es'[i], hs'[i + 1])
      {
        if i < |es| { assert Step(hs[i], es[i], hs[i + 1]); }
      }
    }
  }

  lemma EndOfSum(a: nat, b: nat, m: nat)
    requires a + b < WORD && m < WORD && HEADER <= a
    ensures (a + (b + HEADER) % WORD) % WORD == m <==> a + b + HEADER == m || a + b + HEADER == m + WORD
  {
  }

  // realloc's test for growing in place, ptr + (old size + 8) == heap end, is never true of the
  // last block. It is true of a block just when the last block comes right after it and is empty.
  lemma TestsInPlaceExactly(h: Heap, i: nat)
    requires Inv(h) && i < |h.chunks|
    ensures Readable(h.mem, h.chunks[i].Ptr())
    ensures TestsInPlace(h.mem, h.chunks[i].Ptr()) <==> i + 2 == |h.chunks| && h.chunks[i + 1].cap == 0
  {
    InHeap(h, i);
    var c := h.chunks[i];
    EndOfSum(c.Ptr(), c.cap, |h.mem|);
    if i + 1 < |h.chunks| {
      InHeap(h, i + 1);
      assert c.End() == h.chunks[i + 1].addr;
      if i + 2 < |h.chunks| {
        InHeap(h, i + 2);
        assert h.chunks[i + 1].End() == h.chunks[i + 2].addr;
      }
    }
  }

  // Blocks are empty only after a request that wrapped around.
  ghost predicate NoneEmpty(cs: seq<Chunk>) {
    forall k :: 0 <= k < |cs| ==> cs[k].cap > 0
  }

  lemma StepKeepsNoneEmpty(h: Heap, e: Event, h': Heap)
    requires Inv(h) && Step(h, e, h') && NoneEmpty(h.chunks) && AsksAtMost(e, WORD - 16)
    ensures NoneEmpty(h'.chunks)
  {
    match e
    case Malloc(size, q) => Round16Holds(size);
    case Calloc(count, size, q) =>
      var total: nat :| Truncates(count * size, total) && CallocStep(h, total, q, h');
      TruncatedValue(count * size, total);
      Round16Holds(total);
    case Realloc(p, size, q) => Round16Holds(size);
    case _ =>
  }

  lemma {:induction false} RunNoneEmpty(hs: seq<Heap>, es: seq<Event>, i: nat)
    requires Run(hs, es) && i < |hs| && forall k :: 0 <= k < i ==> AsksAtMost(es[k], WORD - 16)
    ensures NoneEmpty(hs[i].chunks)
  {
    if i > 0 {
      RunNoneEmpty(hs, es, i - 1);
      RunKeepsInv(hs, es, i - 1);
      StepKeepsNoneEmpty(hs[i - 1], es[i - 1], hs[i]);
    }
  }

  // So in a run that never asked for more than 2^64 - 16 bytes the test fails for every block.
  lemma NeverExpandsInPlace(hs: seq<Heap>, es: seq<Event>, i: nat, k: nat)
    requires Run(hs, es) && i < |hs| && forall j :: 0 <= j < i ==> AsksAtMost(es[j], WORD - 16)
    requires k < |hs[i].chunks|
    ensures Readable(hs[i].mem, hs[i].chunks[k].Ptr()) && !TestsInPlace(hs[i].mem, hs[i].chunks[k].Ptr())
  {
    RunKeepsInv(hs, es, i);
    RunNoneEmpty(hs, es, i);
    TestsInPlaceExactly(hs[i], k);
  }

  // ----- Growing in place -----

  // What realloc in place does: the block, which is not the last one, has the new capacity in its
  // header, and this is not a step of AllocSpec. It serves the client when there is memory for it.
  lemma InPlaceRewrites(h: Heap, p: nat, size: nat, h': Heap)
    requires Inv(h) && p in h.live && size > 0 && InPlaceStep(h, p, size, p, h')
    ensures HEADER <= p <= |h'.mem| && Cap(h'.mem, p) == Round16(size)
    ensures !Next(Held(h), Realloc(p, size, p), Held(h'))
    ensures Serves(Realloc(p, size, p), Held(h')) <==> Sizeable(size) && p + Round16(size) <= |h'.mem|
  {
    var _ := HeldAt(h, p);
    InPlaceCap(h, p, size, h');
    Round16Holds(size);
  }

  lemma InPlaceCap(h: Heap, p: nat, size: nat, h': Heap)
    requires InPlaceStep(h, p, size, p, h')
    ensures Cap(h'.mem, p) == Round16(size)
  {
    PowersOf256();
    StoreHere(h.mem, p - HEADER, 8, Round16(size));
    LoadFrame(Store(h.mem, p - HEADER, 8, Round16(size)), h'.mem, 0, |h.mem|, p - HEADER, 8);
  }

  // A block that grows in place grows over the header of the empty block behind it.
  lemma InPlaceCovers(h: Heap, p: nat, size: nat, h': Heap)
    requires Inv(h) && p in h.live && InPlaceStep(h, p, size, p, h')
    requires Readable(h.mem, p) && TestsInPlace(h.mem, p) && Round16(size) > Cap(h.mem, p)
    ensures |h.chunks| >= 2
    ensures var last := h.chunks[|h.chunks| - 1];
            last.cap == 0 && last.addr == p + Cap(h.mem, p) && last.Ptr() <= p + Round16(size)
  {
    var i := HeldAt(h, p);
    TestsInPlaceExactly(h, i);
    assert h.chunks[i].End() == h.chunks[i + 1].addr;
    assert Sized(h.chunks[i]);
    Round16Holds(size);
    NextMultiple(Cap(h.mem, p), Round16(size));
  }

  lemma NextMultiple(a: nat, b: nat)
    requires a % 16 == 0 && b % 16 == 0 && a < b
    ensures a + 16 <= b
  {
  }

  // So its owner, who stays inside the block, can set the other block's capacity to anything.
  lemma InPlaceLetsIn(h: Heap, p: nat, size: nat, h': Heap, v: nat, h'': Heap)
    requires Inv(h) && p in h.live && InPlaceStep(h, p, size, p, h') && v < WORD
    requires Readable(h.mem, p) && TestsInPlace(h.mem, p) && Round16(size) > Cap(h.mem, p)
    requires WriteStep(h', p, Cap(h.mem, p), ToLittleEndian(v, 8), h'')
    ensures |h.chunks| >= 2
    ensures var q := h.chunks[|h.chunks| - 1].Ptr(); q <= |h''.mem| && Cap(h''.mem, q) == v
  {
    InPlaceCovers(h, p, size, h');
    PowersOf256();
    StoreHere(h'.mem, p + Cap(h.mem, p), 8, v);
  }

  // ----- What never changes -----

  lemma BelowKept(h: Heap, e: Event, h': Heap)
    requires Inv(h) && Step(h, e, h')
    ensures SameBelow(h, h')
  {
    match e
    case Write(p, offset, data) =>
      var i := HeldAt(h, p);
      InHeap(h, i);
      PatchOutside(h.mem, p + offset, data, 0, h.base);
    case _ =>
  }

  ghost predicate SameBelow(h: Heap, h': Heap) {
    h'.base == h.base <= |h.mem| && h.base <= |h'.mem| && h'.mem[..h.base] == h.mem[..h.base]
  }

  lemma SameBelowTrans(a: Heap, b: Heap, c: Heap)
    requires SameBelow(a, b) && SameBelow(b, c)
    ensures SameBelow(a, c)
  {
  }

  // All memory below the heap is, at every point of every run, as it was at the start.
  lemma {:induction false} RunKeepsBelow(hs: seq<Heap>, es: seq<Event>, i: nat)
    requires Run(hs, es) && i < |hs|
    ensures SameBelow(hs[0], hs[i])
  {
    if i > 0 {
      RunKeepsBelow(hs, es, i - 1);
      RunKeepsInv(hs, es, i - 1);
      BelowKept(hs[i - 1], es[i - 1], hs[i]);
      SameBelowTrans(hs[0], hs[i - 1], hs[i]);
    }
  }

  lemma MallocAppends(h: Heap, size: nat, p: nat, h': Heap)
    requires MallocStep(h, size, p, h') && p != 0
    ensures h'.chunks == h.chunks + [Chunk(|h.mem|, Round16(size))]
    ensures p == |h.mem| + HEADER && |h'.mem| == p + Round16(size)
  {
  }

  // One wrapped request is enough: after malloc(n) and malloc(2^64 - 15) the test holds of the
  // first block, though it is not the last one.
  lemma WrapTestsInPlace(h: Heap, n: nat, p: nat, h1: Heap, q: nat, h2: Heap)
    requires Inv(h) && |h1.mem| < WORD && p != 0 && MallocStep(h, n, p, h1)
    requires |h2.mem| < WORD && q != 0 && MallocStep(h1, WORD - 15, q, h2)
    ensures q == p + Round16(n) + HEADER
    ensures Readable(h2.mem, p) && TestsInPlace(h2.mem, p)
  {
    TwoMallocs(h, n, p, h1, q, h2);
    TestsInPlaceExactly(h2, |h.chunks|);
  }

  lemma TwoMallocs(h: Heap, n: nat, p: nat, h1: Heap, q: nat, h2: Heap)
    requires Inv(h) && |h1.mem| < WORD && p != 0 && MallocStep(h, n, p, h1)
    requires |h2.mem| < WORD && q != 0 && MallocStep(h1, WORD - 15, q, h2)
    ensures Inv(h2) && q == p + Round16(n) + HEADER
    ensures |h2.chunks| == |h.chunks| + 2 && h2.chunks[|h.chunks|].Ptr() == p && h2.chunks[|h.chunks| + 1].cap == 0
  {
    MallocRefines(h, n, p, h1);
    MallocAppends(h, n, p, h1);
    MallocRefines(h1, WORD - 15, q, h2);
    MallocAppends(h1, WORD - 15, q, h2);
  }

  // The bytes realloc copies fit the new block for every size that can be rounded; for the others
  // just when the old block is empty.
  lemma ReallocCopyFits(h: Heap, p: nat, size: nat)
    requires Inv(h) && p in h.live && 0 < size < WORD
    ensures Readable(h.mem, p)
    ensures Min(Cap(h.mem, p), size) <= Round16(size) <==> Sizeable(size) || Cap(h.mem, p) == 0
  {
    var _ := HeldAt(h, p);
    Round16Holds(size);
    assert !Sizeable(size) ==> Round16(size) == 0;
  }

  // A successful realloc of a block to a nonzero size then always moves: the new block starts past all old
  // memory, begins with the old block's bytes as far as both go, and no old byte changes.
  lemma ReallocMoves(h: Heap, p: nat, size: nat, q: nat, h': Heap)
    requires Inv(h) && Step(h, Realloc(p, size, q), h') && p != 0 && size > 0 && q != 0
    ensures q >= |h.mem| && h.mem <= h'.mem
    ensures p in Held(h) && q in Held(h')
    ensures var n := Min(|Held(h)[p]|, size); n <= |Held(h')[q]| && Held(h')[q][..n] == Held(h)[p][..n]
  {
    MoveExtends(h, p, size, q, h');
    MoveRefines(h, p, size, q, h');
  }

  lemma MoveExtends(h: Heap, p: nat, size: nat, q: nat, h': Heap)
    requires MoveStep(h, p, size, q, h') && q != 0
    ensures q >= |h.mem| && h.mem <= h'.mem
  {
  }

  lemma StepExtends(h: Heap, e: Event, h': Heap)
    requires Step(h, e, h')
    ensures h'.base == h.base && h.chunks <= h'.chunks
  {
  }

  lemma {:induction false} ChunksExtend(hs: seq<Heap>, es: seq<Event>, i: nat, j: nat)
    requires Run(hs, es) && i <= j < |hs|
    ensures hs[j].base == hs[i].base && hs[i].chunks <= hs[j].chunks
  {
    if i < j {
      ChunksExtend(hs, es, i, j - 1);
      StepExtends(hs[j - 1], es[j - 1], hs[j]);
    }
  }

  // No block ever goes away: the word before each pointer that was ever returned still holds the
  // capacity it was returned with, whether or not the pointer was freed or reallocated since.
  lemma CapacityForever(hs: seq<Heap>, es: seq<Event>, i: nat, j: nat, k: nat)
    requires Run(hs, es) && i <= j < |hs| && k < |hs[i].chunks|
    ensures Readable(hs[j].mem, hs[i].chunks[k].Ptr())
    ensures Cap(hs[j].mem, hs[i].chunks[k].Ptr()) == hs[i].chunks[k].cap
  {
    ChunksExtend(hs, es, i, j);
    RunKeepsInv(hs, es, j);
    InHeap(hs[j], k);
    assert hs[j].chunks[k] == hs[i].chunks[k];
  }

  // In every reachable heap the k-th block starts at base + 8k modulo 16; so over a 16-byte
  // aligned base only every second payload is 16-byte aligned.
  lemma PayloadAlignment(hs: seq<Heap>, es: seq<Event>, i: nat, k: nat)
    requires Run(hs, es) && i < |hs| && k < |hs[i].chunks|
    ensures hs[i].chunks[k].addr % 16 == (hs[0].base + 8 * k) % 16
    ensures hs[0].base % 16 == 0 ==> (hs[i].chunks[k].Ptr() % 16 == 0 <==> k % 2 == 1)
  {
    RunKeepsInv(hs, es, i);
    ChunksExtend(hs, es, 0, i);
    assert InPhase(hs[i].base, hs[i].chunks[k], k);
    EveryOther(hs[i].chunks[k].addr, hs[0].base, k);
  }

  lemma EveryOther(a: nat, base: nat, k: nat)
    requires a % 16 == (base + 8 * k) % 16
    ensures base % 16 == 0 ==> ((a + 8) % 16 == 0 <==> k % 2 == 1)
  {
    if base % 16 == 0 {
      if k % 2 == 1 {
        Remainder16(base + 8 * k, base / 16 + k / 2, 8);
        Remainder16(a + 8, a / 16 + 1, 0);
      } else {
        Remainder16(base + 8 * k, base / 16 + k / 2, 0);
        Remainder16(a + 8, a / 16, 8);
      }
    }
  }

  // In every heap of every run the held blocks are apart; and a block that is not given back
  // holds, at every later point, exactly what its owner stored in it.
  lemma ClientSafety(hs: seq<Heap>, es: seq<Event>, i: nat, j: nat, p: nat)
    requires Run(hs, es) && i <= j <= |es|
    requires p in Held(hs[i]) && p != 0
    requires forall k :: i <= k < j ==> !Releases(es[k], p)
    ensures Separated(Held(hs[j]))
    ensures p in Held(hs[j]) && Held(hs[j])[p] == Replay(es[i..j], p, Held(hs[i])[p])
  {
    RunRefines(hs, es);
    NeverOverlap(Views(hs), es);
    assert Separated(Views(hs)[j]);
    OwnerReadsFrom(Views(hs), es, i, j, p);
  }
}
