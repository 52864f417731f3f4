/** The bump heap of apps/tcc/tcc.c as blocks laid over memory, what each call does to it, and
    what holds over every run. The byte-level code is in TccHeap. */
module Arena {
  import opened Bytes
  import opened AllocSpec
  import opened Common

  const HEADER: nat := 8

  // One block: an 8-byte header that holds the capacity, then the payload.
  datatype Chunk = Chunk(addr: nat, cap: nat) {
    function Ptr(): nat { addr + HEADER }
    function End(): nat { addr + HEADER + cap }
  }

  // All of memory up to tcc_heap_end by address, every block ever made, and the pointers that
  // the client still holds (free only forgets a pointer).
  datatype Heap = Heap(base: nat, chunks: seq<Chunk>, mem: seq<byte>, live: set<nat>)

  // ----- Layout -----

  ghost predicate Before(a: Chunk, b: Chunk) {
    a.End() <= b.addr
  }

  predicate Sized(c: Chunk) {
    c.cap % 16 == 0
  }

  // Where the i-th block starts, modulo 16.
  predicate InPhase(base: nat, c: Chunk, i: nat) {
    c.addr % 16 == (base + 8 * i) % 16
  }

  // The blocks cover [base, hi) in order, without gap or overlap.
  ghost predicate Laid(cs: seq<Chunk>, base: nat, hi: nat) {
    && (cs == [] ==> base == hi)
    && (cs != [] ==> cs[0].addr == base && cs[|cs| - 1].End() == hi)
    && (forall i {:trigger cs[i].End()} :: 0 <= i < |cs| - 1 ==> cs[i].End() == cs[i + 1].addr)
    && (forall i, j {:trigger Before(cs[i], cs[j])} :: 0 <= i < j < |cs| ==> Before(cs[i], cs[j]))
    && (forall i {:trigger Sized(cs[i])} :: 0 <= i < |cs| ==> Sized(cs[i]))
    && (forall i {:trigger InPhase(base, cs[i], i)} :: 0 <= i < |cs| ==> InPhase(base, cs[i], i))
  }

  ghost predicate Stored(m: seq<byte>, c: Chunk) {
    c.End() <= |m| && Load(m, c.addr, 8) == c.cap
  }

  ghost predicate HoldsAt(cs: seq<Chunk>, p: nat, i: nat) {
    i < |cs| && cs[i].Ptr() == p
  }

  ghost predicate Inv(h: Heap) {
    && 0 < h.base <= |h.mem| < WORD
    && Laid(h.chunks, h.base, |h.mem|)
    && (forall i {:trigger Stored(h.mem, h.chunks[i])} :: 0 <= i < |h.chunks| ==> Stored(h.mem, h.chunks[i]))
    && (forall p :: p in h.live ==> exists i: nat :: HoldsAt(h.chunks, p, i))
  }

  // ----- What the calls do -----

  // (size + 15) & ~15UL
  function Round16(size: nat): nat {
    (size + 15) % WORD / 16 * 16
  }

  // Rounding up does not wrap around.
  predicate Sizeable(size: nat) {
    size <= WORD - 16
  }

  lemma Round16Holds(size: nat)
    ensures Round16(size) % 16 == 0
    ensures Round16(size) >= size <==> Sizeable(size)
    ensures Sizeable(size) && size > 0 ==> Round16(size) > 0
    ensures Sizeable(size) ==> Round16(size) < size + 16
  {
  }

  // The heap end moved up by one block is still a 64-bit address.
  predicate Room(h: Heap, size: nat) {
    |h.mem| + HEADER + Round16(size) < WORD
  }

  // The heap end that the code asks for, in the machine's arithmetic.
  function Asked(h: Heap, size: nat): nat {
    (|h.mem| + (Round16(size) + HEADER)) % WORD
  }

  // It is above the old heap end, by one header and the rounded size, just when there is room.
  lemma RequestExact(h: Heap, size: nat)
    requires |h.mem| < WORD
    ensures Asked(h, size) == |h.mem| + HEADER + Round16(size) <==> Room(h, size)
    ensures |h.mem| < Asked(h, size) <==> Room(h, size)
  {
  }

  // A block with the given payload at the end of the heap; nothing below it changes.
  function Extended(h: Heap, cap: nat, data: seq<byte>, live: set<nat>): Heap {
    Heap(h.base, h.chunks + [Chunk(|h.mem|, cap)], h.mem + ToLittleEndian(cap, 8) + data, live)
  }

  // The capacity in the word before p, and the bytes of p's block.
  ghost predicate Readable(m: seq<byte>, p: nat) {
    HEADER <= p <= |m| && p + Load(m, p - HEADER, 8) <= |m|
  }

  function Cap(m: seq<byte>, p: nat): nat
    requires HEADER <= p <= |m|
  {
    Load(m, p - HEADER, 8)
  }

  function BlockBytes(m: seq<byte>, p: nat): seq<byte>
    requires Readable(m, p)
  {
    m[p..p + Cap(m, p)]
  }

  // The new block's first bytes are those that realloc carries over from p's block.
  ghost predicate Carries(h: Heap, p: nat, size: nat, data: seq<byte>) {
    && Readable(h.mem, p)
    && var n := Min(Cap(h.mem, p), size);
       n <= |data| && data[..n] == h.mem[p..p + n]
  }

  // A fresh block of Round16(size) bytes at the heap end, with data in it.
  ghost predicate AllocStep(h: Heap, size: nat, q: nat, data: seq<byte>, live: set<nat>, h': Heap) {
    && size > 0 && q == |h.mem| + HEADER && |data| == Round16(size)
    && h' == Extended(h, Round16(size), data, live)
  }

  ghost predicate WriteStep(h: Heap, p: nat, offset: nat, data: seq<byte>, h': Heap) {
    && p in h.live && Readable(h.mem, p) && offset + |data| <= Cap(h.mem, p)
    && h' == h.(mem := Patch(h.mem, p + offset, data))
  }

  ghost predicate MallocStep(h: Heap, size: nat, q: nat, h': Heap) {
    if q == 0 then h' == h else exists data :: AllocStep(h, size, q, data, h.live + {q}, h')
  }

  ghost predicate ZeroPrefix(data: seq<byte>, n: nat) {
    n <= |data| && forall i :: 0 <= i < n ==> data[i] == 0
  }

  ghost predicate CallocStep(h: Heap, total: nat, q: nat, h': Heap) {
    if q == 0 then h' == h
    else exists data :: AllocStep(h, total, q, data, h.live + {q}, h') && ZeroPrefix(data, total)
  }

  // realloc of p to a nonzero size: a fresh block that starts with p's bytes, and p forgotten.
  ghost predicate MoveStep(h: Heap, p: nat, size: nat, q: nat, h': Heap) {
    if q == 0 then h' == h
    else exists data :: AllocStep(h, size, q, data, h.live - {p} + {q}, h') && Carries(h, p, size, data)
  }

  // realloc's test for growing in place, in the machine's arithmetic.
  predicate TestsInPlace(m: seq<byte>, p: nat)
    requires HEADER <= p <= |m|
  {
    (p + (Cap(m, p) + HEADER) % WORD) % WORD == |m|
  }

  // One call or client store, where every store of the call stays inside the memory that the
  // kernel granted and inside the block that it is meant for.
  ghost predicate Step(h: Heap, e: Event, h': Heap) {
    && |h'.mem| < WORD
    && match e
       case Malloc(size, q) => MallocStep(h, size, q, h')
       case Calloc(count, size, q) => exists total: nat :: Truncates(count * size, total) && CallocStep(h, total, q, h')
       case Realloc(p, size, q) =>
         if p == 0 then MallocStep(h, size, q, h')
         else if size == 0 then p in h.live && q == p && h' == h
         else
           && p in h.live && Readable(h.mem, p) && (q == 0 || !TestsInPlace(h.mem, p))
           && MoveStep(h, p, size, q, h')
       case Free(p) => if p == 0 then h' == h else p in h.live && h' == h.(live := h.live - {p})
       case Write(p, offset, data) => WriteStep(h, p, offset, data, h')
  }

  // ----- Calls that overrun -----

  // A block when the heap end that was asked for wrapped around and the reply was taken for a
  // grant: a header in front of no memory at all.
  ghost predicate StrayStep(h: Heap, size: nat, q: nat, h': Heap) {
    && size > 0 && !Room(h, size) && q == |h.mem| + HEADER
    && h' == Extended(h, Round16(size), [], h.live + {q})
  }

  // realloc in place: a new capacity in the header, and the heap end where the reply says.
  ghost predicate InPlaceStep(h: Heap, p: nat, size: nat, q: nat, h': Heap) {
    && q == p && HEADER <= p <= |h.mem| <= |h'.mem|
    && h'.mem[..|h.mem|] == Store(h.mem, p - HEADER, 8, Round16(size))
    && h' == h.(chunks := h'.chunks, mem := h'.mem)
    && exists i: nat :: HoldsAt(h.chunks, p, i) && h'.chunks == h.chunks[i := Chunk(h.chunks[i].addr, Round16(size))]
  }

  // What realloc copies from p's block fits the new one: see ArenaRuns.ReallocCopyFits.
  predicate CopyFits(m: seq<byte>, p: nat, size: nat)
    requires HEADER <= p <= |m|
  {
    Sizeable(size) || Cap(m, p) == 0
  }

  ghost predicate PlainMalloc(h: Heap, size: nat, q: nat, h': Heap) {
    |h'.mem| < WORD && q != 0 && MallocStep(h, size, q, h')
  }

  ghost predicate FillOverruns(h: Heap, total: nat, q: nat, h': Heap) {
    StrayStep(h, total, q, h') || (!Sizeable(total) && PlainMalloc(h, total, q, h'))
  }

  ghost predicate CopyOverruns(h: Heap, p: nat, size: nat, q: nat, h': Heap)
    requires HEADER <= p <= |h.mem|
  {
    StrayStep(h, size, q, h') || (!CopyFits(h.mem, p, size) && PlainMalloc(h, size, q, h'))
  }

  // A call that has its block and whose next store, or the header store before that, is outside
  // the block or the memory granted; h' is the heap when the block is made. Or realloc in place.
  ghost predicate Overruns(h: Heap, e: Event, h': Heap) {
    match e
    case Malloc(size, q) => StrayStep(h, size, q, h')
    case Calloc(count, size, q) => exists total: nat :: Truncates(count * size, total) && FillOverruns(h, total, q, h')
    case Realloc(p, size, q) =>
      if p == 0 then StrayStep(h, size, q, h')
      else
        && size > 0 && p in h.live && Readable(h.mem, p)
        && if TestsInPlace(h.mem, p) then InPlaceStep(h, p, size, q, h') else CopyOverruns(h, p, size, q, h')
    case _ => false
  }

  // Any call of the code, as far as its stores stay where they belong.
  ghost predicate Call(h: Heap, e: Event, h': Heap) {
    Step(h, e, h') || Overruns(h, e, h')
  }

  // What a caller can check before the call: see ArenaRuns.CallExact.
  ghost predicate Contained(h: Heap, e: Event) {
    match e
    case Malloc(size, _) => Room(h, size)
    case Calloc(count, size, _) =>
      exists total: nat :: Truncates(count * size, total) && Sizeable(total) && Room(h, total)
    case Realloc(p, size, _) =>
      || size == 0
      || (Room(h, size) && (p == 0 || MovesInside(h.mem, p, size)))
    case _ => true
  }

  ghost predicate MovesInside(m: seq<byte>, p: nat, size: nat) {
    HEADER <= p <= |m| && !TestsInPlace(m, p) && CopyFits(m, p, size)
  }

  // The request finds room below 2^64.
  predicate RequestFits(h: Heap, e: Event) {
    match e
    case Malloc(size, _) => Room(h, size)
    case Calloc(count, size, _) => Room(h, count * size)
    case Realloc(_, size, _) => size == 0 || Room(h, size)
    case _ => true
  }

  // realloc of a block that passes the test for growing in place.
  ghost predicate GoesInPlace(h: Heap, e: Event) {
    e.Realloc? && e.ptr != 0 && e.size > 0 && Readable(h.mem, e.ptr) && TestsInPlace(h.mem, e.ptr)
  }

  // ----- Each call keeps the layout -----

  lemma InHeap(h: Heap, i: nat)
    requires Inv(h) && i < |h.chunks|
    ensures h.base <= h.chunks[i].addr && h.chunks[i].End() <= |h.mem|
    ensures Readable(h.mem, h.chunks[i].Ptr()) && Cap(h.mem, h.chunks[i].Ptr()) == h.chunks[i].cap
  {
    assert i > 0 ==> Before(h.chunks[0], h.chunks[i]);
    assert Stored(h.mem, h.chunks[i]);
  }

  lemma Remainder16(x: nat, q: nat, r: nat)
    requires x == 16 * q + r && r < 16
    ensures x % 16 == r
  {
  }

  lemma NextPhase(x: nat, y: nat, cap: nat)
    requires x % 16 == y % 16 && cap % 16 == 0
    ensures (x + 8 + cap) % 16 == (y + 8) % 16
  {
    var a, b, r := x / 16 + cap / 16, y / 16, x % 16;
    if r < 8 {
      Remainder16(x + 8 + cap, a, r + 8);
      Remainder16(y + 8, b, r + 8);
    } else {
      Remainder16(x + 8 + cap, a + 1, r - 8);
      Remainder16(y + 8, b + 1, r - 8);
    }
  }

  lemma Tail(cs: seq<Chunk>, base: nat, hi: nat)
    requires Laid(cs, base, hi)
    ensures hi % 16 == (base + 8 * |cs|) % 16
    ensures forall i :: 0 <= i < |cs| ==> cs[i].End() <= hi
  {
    if cs != [] {
      var k := |cs| - 1;
      assert Sized(cs[k]) && InPhase(base, cs[k], k);
      NextPhase(cs[k].addr, base + 8 * k, cs[k].cap);
      forall i | 0 <= i < |cs|
        ensures cs[i].End() <= hi
      {
        assert i < k ==> Before(cs[i], cs[k]);
      }
    }
  }

  lemma ExtendLaid(cs: seq<Chunk>, base: nat, hi: nat, cap: nat)
    requires Laid(cs, base, hi) && cap % 16 == 0
    ensures Laid(cs + [Chunk(hi, cap)], base, hi + HEADER + cap)
  {
    Tail(cs, base, hi);
    var cs' := cs + [Chunk(hi, cap)];
    forall i, j | 0 <= i < j < |cs'|
      ensures Before(cs'[i], cs'[j])
    {
      if j < |cs| { assert Before(cs[i], cs[j]); }
    }
    forall i | 0 <= i < |cs'|
      ensures Sized(cs'[i]) && InPhase(base, cs'[i], i)
    {
      assert i < |cs| ==> Sized(cs[i]) && InPhase(base, cs[i], i);
    }
  }

  // The new header and payload read back, and all old memory is untouched.
  lemma ExtendMem(m: seq<byte>, cap: nat, data: seq<byte>)
    requires |m| + HEADER + |data| < WORD && cap == |data|
    ensures var m' := m + ToLittleEndian(cap, 8) + data;
            && m <= m' && Stored(m', Chunk(|m|, cap))
            && m'[|m| + HEADER..|m| + HEADER + cap] == data
  {
    var m' := m + ToLittleEndian(cap, 8) + data;
    PowersOf256();
    assert m'[|m|..|m| + 8] == ToLittleEndian(cap, 8);
    LittleEndianRoundTrip(cap, 8);
  }

  lemma StoredExtends(m: seq<byte>, m': seq<byte>, c: Chunk)
    requires Stored(m, c) && m <= m'
    ensures Stored(m', c)
  {
    LoadFrame(m, m', 0, |m|, c.addr, 8);
  }

  lemma ExtendInv(h: Heap, cap: nat, data: seq<byte>, live: set<nat>)
    requires Inv(h) && cap % 16 == 0 && |data| == cap && |h.mem| + HEADER + cap < WORD
    requires live <= h.live + {|h.mem| + HEADER}
    ensures Inv(Extended(h, cap, data, live))
  {
    var h' := Extended(h, cap, data, live);
    ExtendLaid(h.chunks, h.base, |h.mem|, cap);
    ExtendMem(h.mem, cap, data);
    forall i | 0 <= i < |h'.chunks|
      ensures Stored(h'.mem, h'.chunks[i])
    {
      if i < |h.chunks| {
        assert Stored(h.mem, h.chunks[i]);
        StoredExtends(h.mem, h'.mem, h.chunks[i]);
      }
    }
    forall p | p in live
      ensures exists i: nat :: HoldsAt(h'.chunks, p, i)
    {
      if p in h.live {
        var i: nat :| HoldsAt(h.chunks, p, i);
        assert HoldsAt(h'.chunks, p, i);
      } else {
        assert HoldsAt(h'.chunks, p, |h.chunks|);
      }
    }
  }

  // ----- The client's view -----

  ghost function Held(h: Heap): Live {
    map p | p in h.live && Readable(h.mem, p) :: BlockBytes(h.mem, p)
  }

  lemma HeldAt(h: Heap, p: nat) returns (i: nat)
    requires Inv(h) && p in h.live
    ensures HoldsAt(h.chunks, p, i) && h.chunks[i].End() <= |h.mem|
    ensures Readable(h.mem, p) && Cap(h.mem, p) == h.chunks[i].cap
    ensures p in Held(h)
  {
    i :| HoldsAt(h.chunks, p, i);
    InHeap(h, i);
  }

  lemma ReadExtends(m: seq<byte>, m': seq<byte>, p: nat)
    requires Readable(m, p) && m <= m'
    ensures Readable(m', p) && Cap(m', p) == Cap(m, p) && BlockBytes(m', p) == BlockBytes(m, p)
  {
    LoadFrame(m, m', 0, |m|, p - HEADER, 8);
  }

  // What was held reads the same in a longer memory.
  lemma HeldExtends(h: Heap, m': seq<byte>, p: nat)
    requires Inv(h) && p in h.live && h.mem <= m'
    ensures p in Held(h) && p + |Held(h)[p]| <= |h.mem|
    ensures Readable(m', p) && BlockBytes(m', p) == Held(h)[p]
  {
    var _ := HeldAt(h, p);
    ReadExtends(h.mem, m', p);
  }

  // Two heaps show the same bytes at p.
  ghost predicate SameAt(live: Live, live': Live, p: nat) {
    p in live && p in live' && live'[p] == live[p]
  }

  lemma MapExtends(live: Live, live': Live, drop: set<nat>, q: nat)
    requires q in live' && q !in live
    requires forall p :: p in live && p !in drop ==> SameAt(live, live', p)
    requires forall p :: p in live' && p != q ==> p in live && p !in drop
    ensures live' == (live - drop)[q := live'[q]]
  {
    var rest := (live - drop)[q := live'[q]];
    forall p | p in live' && p != q
      ensures p in rest && rest[p] == live'[p]
    {
      assert SameAt(live, live', p);
    }
    forall p | p in rest && p != q
      ensures p in live'
    {
      assert SameAt(live, live', p);
    }
  }

  // Adding a block at the end and forgetting the pointers in drop.
  lemma ExtendHeld(h: Heap, cap: nat, data: seq<byte>, drop: set<nat>, q: nat, h': Heap)
    requires Inv(h) && |data| == cap && |h.mem| + HEADER + cap < WORD
    requires q == |h.mem| + HEADER && h' == Extended(h, cap, data, h.live - drop + {q})
    ensures q !in Held(h) && Clear(Held(h), q, cap)
    ensures q in Held(h') && Held(h')[q] == data
    ensures Held(h') == (Held(h) - drop)[q := Held(h')[q]]
  {
    ExtendMem(h.mem, cap, data);
    var m' := h'.mem;
    forall p | p in h.live
      ensures p in Held(h) && p + |Held(h)[p]| <= |h.mem|
      ensures p !in drop ==> SameAt(Held(h), Held(h'), p)
    {
      HeldExtends(h, m', p);
    }
    assert Readable(m', q) && BlockBytes(m', q) == data;
    MapExtends(Held(h), Held(h'), drop, q);
  }

  // ----- Every call does what AllocSpec says -----

  lemma AllocRefines(h: Heap, size: nat, q: nat, data: seq<byte>, drop: set<nat>, h': Heap)
    requires Inv(h) && |h'.mem| < WORD && q != 0 && AllocStep(h, size, q, data, h.live - drop + {q}, h')
    ensures Inv(h') && Placed(Held(h), Held(h) - drop, q, Held(h')) && Held(h')[q] == data
  {
    Round16Holds(size);
    ExtendInv(h, Round16(size), data, h.live - drop + {q});
    ExtendHeld(h, Round16(size), data, drop, q, h');
  }

  lemma MallocRefines(h: Heap, size: nat, q: nat, h': Heap)
    requires Inv(h) && |h'.mem| < WORD && MallocStep(h, size, q, h')
    ensures Inv(h') && Allocates(Held(h), size, q, Held(h'))
    ensures q != 0 ==> |Held(h')[q]| == Round16(size) && Room(h, size)
  {
    if q != 0 {
      var data :| AllocStep(h, size, q, data, h.live + {q}, h');
      NewBlock(h, size, q, data, h');
    }
  }

  lemma NewBlock(h: Heap, size: nat, q: nat, data: seq<byte>, h': Heap)
    requires Inv(h) && |h'.mem| < WORD && q != 0 && AllocStep(h, size, q, data, h.live + {q}, h')
    ensures Inv(h') && Placed(Held(h), Held(h), q, Held(h')) && Held(h')[q] == data
  {
    assert h.live - {} + {q} == h.live + {q};
    AllocRefines(h, size, q, data, {}, h');
    assert Held(h) - {} == Held(h);
  }

  lemma CallocRefines(h: Heap, count: nat, size: nat, total: nat, q: nat, h': Heap)
    requires Inv(h) && |h'.mem| < WORD && Truncates(count * size, total) && CallocStep(h, total, q, h')
    ensures Inv(h') && Next(Held(h), Calloc(count, size, q), Held(h'))
    ensures Serves(Calloc(count, size, q), Held(h'))
       <==> q == 0 || (Sizeable(count * size) && Room(h, count * size))
  {
    if q != 0 {
      var data :| AllocStep(h, total, q, data, h.live + {q}, h') && ZeroPrefix(data, total);
      NewBlock(h, total, q, data, h');
      TruncatedValue(count * size, total);
      Round16Holds(total);
    }
  }

  lemma HeldPrefix(h: Heap, p: nat, n: nat)
    requires p in Held(h) && n <= Cap(h.mem, p)
    ensures Held(h)[p][..n] == h.mem[p..p + n]
  {
    SubSlice(h.mem, p, p + Cap(h.mem, p), p, p + n);
  }

  lemma MoveRefines(h: Heap, p: nat, size: nat, q: nat, h': Heap)
    requires Inv(h) && |h'.mem| < WORD && p in h.live && MoveStep(h, p, size, q, h') && p != 0 && size != 0
    ensures Inv(h') && Next(Held(h), Realloc(p, size, q), Held(h'))
    ensures q != 0 ==> |Held(h')[q]| == Round16(size) && Room(h, size)
  {
    var _ := HeldAt(h, p);
    if q != 0 {
      var data :| AllocStep(h, size, q, data, h.live - {p} + {q}, h') && Carries(h, p, size, data);
      HeldPrefix(h, p, Min(Cap(h.mem, p), size));
      MovedBlock(h, p, size, q, data, h');
    }
  }

  lemma MovedBlock(h: Heap, p: nat, size: nat, q: nat, data: seq<byte>, h': Heap)
    requires Inv(h) && |h'.mem| < WORD && p in Held(h) && p != 0 && size != 0 && q != 0
    requires AllocStep(h, size, q, data, h.live - {p} + {q}, h')
    requires var n := Min(|Held(h)[p]|, size); n <= |data| && data[..n] == Held(h)[p][..n]
    ensures Inv(h') && Next(Held(h), Realloc(p, size, q), Held(h')) && |Held(h')[q]| == Round16(size)
  {
    AllocRefines(h, size, q, data, {p}, h');
  }

  lemma FreeRefines(h: Heap, p: nat, h': Heap)
    requires Inv(h) && p in h.live && h' == h.(live := h.live - {p})
    ensures Inv(h') && p in Held(h) && Held(h') == Held(h) - {p}
  {
    var _ := HeldAt(h, p);
  }

  lemma StoredOutside(m: seq<byte>, a: nat, data: seq<byte>, c: Chunk)
    requires Stored(m, c) && a + |data| <= |m| && (c.Ptr() <= a || a + |data| <= c.addr)
    ensures Stored(Patch(m, a, data), c)
  {
    PatchOutside(m, a, data, c.addr, c.Ptr());
    LoadFrame(m, Patch(m, a, data), c.addr, c.Ptr(), c.addr, 8);
  }

  lemma WriteKeepsInv(h: Heap, p: nat, offset: nat, data: seq<byte>, h': Heap)
    requires Inv(h) && WriteStep(h, p, offset, data, h')
    ensures Inv(h')
  {
    var k := HeldAt(h, p);
    forall i | 0 <= i < |h.chunks|
      ensures Stored(h'.mem, h.chunks[i])
    {
      assert Stored(h.mem, h.chunks[i]);
      assert i < k ==> Before(h.chunks[i], h.chunks[k]);
      assert k < i ==> Before(h.chunks[k], h.chunks[i]);
      StoredOutside(h.mem, p + offset, data, h.chunks[i]);
    }
  }

  // A write clear of r's header and payload, and a write inside p's payload.
  lemma ReadOutside(m: seq<byte>, a: nat, data: seq<byte>, r: nat)
    requires Readable(m, r) && a + |data| <= |m|
    requires r + Cap(m, r) <= a || a + |data| <= r - HEADER
    ensures var m' := Patch(m, a, data);
            Readable(m', r) && Cap(m', r) == Cap(m, r) && BlockBytes(m', r) == BlockBytes(m, r)
  {
    PatchOutside(m, a, data, r - HEADER, r);
    PatchOutside(m, a, data, r, r + Cap(m, r));
  }

  lemma ReadWithin(m: seq<byte>, p: nat, offset: nat, data: seq<byte>)
    requires Readable(m, p) && offset + |data| <= Cap(m, p)
    ensures var m' := Patch(m, p + offset, data);
            && Readable(m', p) && Cap(m', p) == Cap(m, p)
            && BlockBytes(m', p) == Patch(BlockBytes(m, p), offset, data)
  {
    PatchOutside(m, p + offset, data, p - HEADER, p);
    PatchWithin(m, p, Cap(m, p), offset, data);
  }

  lemma LiveApart(h: Heap, p: nat, r: nat)
    requires Inv(h) && p in h.live && r in h.live && p != r
    ensures Readable(h.mem, p) && Readable(h.mem, r)
    ensures p + Cap(h.mem, p) <= r - HEADER || r + Cap(h.mem, r) <= p - HEADER
  {
    var k := HeldAt(h, p);
    var j := HeldAt(h, r);
    assert j < k ==> Before(h.chunks[j], h.chunks[k]);
    assert k < j ==> Before(h.chunks[k], h.chunks[j]);
  }

  lemma WriteSpares(h: Heap, p: nat, offset: nat, data: seq<byte>, h': Heap, r: nat)
    requires Inv(h) && WriteStep(h, p, offset, data, h') && r in h.live && r != p
    ensures SameAt(Held(h), Held(h'), r)
  {
    SparedBytes(h, p, offset, data, r);
    SameBytes(h, h', r);
  }

  lemma SparedBytes(h: Heap, p: nat, offset: nat, data: seq<byte>, r: nat)
    requires Inv(h) && p in h.live && r in h.live && r != p
    requires Readable(h.mem, p) && offset + |data| <= Cap(h.mem, p)
    ensures Readable(h.mem, r)
    ensures var m' := Patch(h.mem, p + offset, data); Readable(m', r) && BlockBytes(m', r) == BlockBytes(h.mem, r)
  {
    LiveApart(h, p, r);
    ReadOutside(h.mem, p + offset, data, r);
  }

  lemma SameBytes(h: Heap, h': Heap, r: nat)
    requires r in h.live && r in h'.live && Readable(h.mem, r) && Readable(h'.mem, r)
    requires BlockBytes(h'.mem, r) == BlockBytes(h.mem, r)
    ensures SameAt(Held(h), Held(h'), r)
  {
  }

  lemma WriteHere(h: Heap, p: nat, offset: nat, data: seq<byte>, h': Heap)
    requires WriteStep(h, p, offset, data, h')
    ensures p in Held(h) && p in Held(h') && |Held(h)[p]| == Cap(h.mem, p)
    ensures Held(h')[p] == Patch(Held(h)[p], offset, data)
  {
    ReadWithin(h.mem, p, offset, data);
  }

  lemma WriteRefines(h: Heap, p: nat, offset: nat, data: seq<byte>, h': Heap)
    requires Inv(h) && WriteStep(h, p, offset, data, h')
    ensures Inv(h') && Next(Held(h), Write(p, offset, data), Held(h'))
  {
    WriteHere(h, p, offset, data, h');
    forall r | r in h.live && r != p
      ensures SameAt(Held(h), Held(h'), r)
    {
      WriteSpares(h, p, offset, data, h', r);
    }
    WriteKeepsInv(h, p, offset, data, h');
    MapWrites(Held(h), Held(h'), p);
  }

  lemma MapWrites(live: Live, live': Live, p: nat)
    requires p in live && p in live' && live'.Keys <= live.Keys
    requires forall r :: r in live && r != p ==> SameAt(live, live', r)
    ensures live' == live[p := live'[p]]
  {
    forall r | r in live && r != p
      ensures r in live' && live'[r] == live[r]
    {
      assert SameAt(live, live', r);
    }
  }

  // One call of the TCC heap keeps its invariant and is a step of AllocSpec, for every size.
  lemma StepRefines(h: Heap, e: Event, h': Heap)
    requires Inv(h) && Step(h, e, h')
    ensures Inv(h') && Next(Held(h), e, Held(h'))
  {
    match e
    case Malloc(size, q) => MallocRefines(h, size, q, h');
    case Calloc(count, size, q) =>
      var total: nat :| Truncates(count * size, total) && CallocStep(h, total, q, h');
      CallocRefines(h, count, size, total, q, h');
    case Realloc(p, size, q) =>
      if p == 0 {
        MallocRefines(h, size, q, h');
      } else if size == 0 {
        var _ := HeldAt(h, p);
      } else {
        MoveRefines(h, p, size, q, h');
      }
    case Free(p) => if p != 0 { FreeRefines(h, p, h'); }
    case Write(p, offset, data) => WriteRefines(h, p, offset, data, h');
  }

  lemma StepServes(h: Heap, e: Event, h': Heap)
    requires Inv(h) && Step(h, e, h')
    ensures Serves(e, Held(h')) <==> Fails(e) || (AsksAtMost(e, WORD - 16) && RequestFits(h, e))
  {
    match e
    case Malloc(size, q) =>
      MallocRefines(h, size, q, h');
      Round16Holds(size);
    case Calloc(count, size, q) =>
      var total: nat :| Truncates(count * size, total) && CallocStep(h, total, q, h');
      CallocRefines(h, count, size, total, q, h');
    case Realloc(p, size, q) =>
      Round16Holds(size);
      if p == 0 {
        MallocRefines(h, size, q, h');
      } else if size == 0 {
        var _ := HeldAt(h, p);
      } else {
        MoveRefines(h, p, size, q, h');
      }
    case _ =>
  }

  // A stray block is in front of no memory: its pointer is to nothing at all, or to no bytes.
  lemma StrayHoldsNothing(h: Heap, size: nat, q: nat, h': Heap)
    requires Inv(h) && StrayStep(h, size, q, h')
    ensures !Inv(h') && (q in Held(h') ==> Held(h')[q] == [])
  {
    var m' := h.mem + ToLittleEndian(Round16(size), 8) + [];
    PowersOf256();
    assert m'[|h.mem|..|h.mem| + 8] == ToLittleEndian(Round16(size), 8);
    LittleEndianRoundTrip(Round16(size), 8);
    assert h'.chunks[|h'.chunks| - 1] == Chunk(|h.mem|, Round16(size));
  }

  lemma MallocOverrunServes(h: Heap, size: nat, q: nat, h': Heap)
    requires Inv(h) && (StrayStep(h, size, q, h') || (!Sizeable(size) && PlainMalloc(h, size, q, h')))
    ensures q != 0 && !Ample(Held(h'), q, size) && (!Sizeable(size) || !Room(h, size))
  {
    if StrayStep(h, size, q, h') {
      StrayHoldsNothing(h, size, q, h');
    } else {
      MallocRefines(h, size, q, h');
      Round16Holds(size);
    }
  }

  lemma FillOverrunServes(h: Heap, count: nat, size: nat, asked: nat, total: nat, q: nat, h': Heap)
    requires Inv(h) && asked == count * size && Truncates(asked, total) && FillOverruns(h, total, q, h')
    ensures q != 0 && !Serves(Calloc(count, size, q), Held(h')) && (!Sizeable(asked) || !Room(h, asked))
  {
    TruncatedValue(asked, total);
    MallocOverrunServes(h, total, q, h');
  }

  // A call that did not fail and did not grow in place gave what was asked for if and only if
  // that is at most 2^64 - 16 bytes and there is room for a block below 2^64.
  lemma CallServes(h: Heap, e: Event, h': Heap)
    requires Inv(h) && Call(h, e, h') && !GoesInPlace(h, e)
    ensures Serves(e, Held(h')) <==> Fails(e) || (AsksAtMost(e, WORD - 16) && RequestFits(h, e))
  {
    if Step(h, e, h') {
      StepServes(h, e, h');
    } else {
      match e
      case Malloc(size, q) => MallocOverrunServes(h, size, q, h');
      case Calloc(count, size, q) =>
        var total: nat :| Truncates(count * size, total) && FillOverruns(h, total, q, h');
        FillOverrunServes(h, count, size, count * size, total, q, h');
      case Realloc(p, size, q) => MallocOverrunServes(h, size, q, h');
    }
  }
}
