/** The libgloss heap as a list of blocks laid over memory: what each call does to the list, and
    what holds in every heap that a run can reach. The byte-level code is in Libgloss. */
module BlockList {
  import opened Bytes
  import opened AllocSpec
  import opened Common

  const BASE: nat := 0x4000_0000  // where the program break starts
  const HEADER: nat := 24         // sizeof(mem_block_t)

  // One mem_block_t: its address, the bytes after its header, and its free flag.
  datatype Node = Node(addr: nat, size: nat, free: bool) {
    function Ptr(): nat { addr + HEADER }
    function End(): nat { addr + HEADER + size }
  }

  // All of memory up to the program break, indexed by address, with the blocks in list order.
  datatype Heap = Heap(nodes: seq<Node>, mem: seq<byte>)

  // ----- Layout -----

  ghost predicate Before(a: Node, b: Node) {
    a.End() <= b.addr
  }

  // The blocks cover [lo, hi) without gap or overlap, and list order is address order.
  ghost predicate Tiled(ns: seq<Node>, lo: nat, hi: nat) {
    && (ns == [] ==> lo == hi)
    && (ns != [] ==> ns[0].addr == lo && ns[|ns| - 1].End() == hi)
    && (forall i {:trigger ns[i].End()} :: 0 <= i < |ns| - 1 ==> ns[i].End() == ns[i + 1].addr)
    && (forall i, j {:trigger Before(ns[i], ns[j])} :: 0 <= i < j < |ns| ==> Before(ns[i], ns[j]))
  }

  predicate Even8(n: Node) {
    n.addr % 8 == 0 && n.size % 8 == 0
  }

  ghost predicate Aligned(ns: seq<Node>) {
    forall i {:trigger Even8(ns[i])} :: 0 <= i < |ns| ==> Even8(ns[i])
  }

  // Of the first k neighbouring pairs none is free and free.
  ghost predicate NoFreePairs(ns: seq<Node>, k: int) {
    forall i :: 0 <= i < k && i < |ns| - 1 ==> !(ns[i].free && ns[i + 1].free)
  }

  ghost predicate NoAdjacentFree(ns: seq<Node>) {
    NoFreePairs(ns, |ns| - 1)
  }

  ghost function LiveNodes(ns: seq<Node>): set<Node> {
    set n | n in ns && !n.free
  }

  function NextAddr(ns: seq<Node>, i: nat): nat
    requires i < |ns|
  {
    if i + 1 < |ns| then ns[i + 1].addr else 0
  }

  // The address of the i-th block; NULL past the last.
  function AddrAt(ns: seq<Node>, i: nat): nat {
    if i < |ns| then ns[i].addr else 0
  }

  // The three fields of n's header are in memory.
  ghost predicate HeaderAt(m: seq<byte>, n: Node, next: nat) {
    && n.Ptr() <= |m|
    && Load(m, n.addr, 8) == n.size
    && Load(m, n.addr + 8, 8) == next
    && (Load(m, n.addr + 16, 4) != 0 <==> n.free)
  }

  ghost predicate Encoded(h: Heap) {
    forall i {:trigger NextAddr(h.nodes, i)} :: 0 <= i < |h.nodes| ==>
      HeaderAt(h.mem, h.nodes[i], NextAddr(h.nodes, i))
  }

  // The linked list in memory is h.nodes and tiles the heap from its base to the break.
  ghost predicate Sound(h: Heap) {
    && BASE <= |h.mem| < WORD
    && Tiled(h.nodes, BASE, |h.mem|)
    && Aligned(h.nodes)
    && Encoded(h)
  }

  // What holds between calls.
  ghost predicate Inv(h: Heap) {
    Sound(h) && NoAdjacentFree(h.nodes)
  }

  function Payload(m: seq<byte>, n: Node): seq<byte>
    requires n.End() <= |m|
  {
    m[n.Ptr()..n.End()]
  }

  // Every block lies between the base and the break.
  lemma InHeap(h: Heap, i: nat)
    requires Sound(h) && i < |h.nodes|
    ensures BASE <= h.nodes[i].addr && h.nodes[i].End() <= |h.mem|
  {
    assert i > 0 ==> Before(h.nodes[0], h.nodes[i]);
    assert i < |h.nodes| - 1 ==> Before(h.nodes[i], h.nodes[|h.nodes| - 1]);
  }

  // ----- Sizes -----

  // (size + 7) & ~7 on a 64-bit size_t.
  function Round8(size: nat): nat {
    (size + 7) % WORD / 8 * 8
  }

  // Rounding up does not wrap around.
  predicate Sizeable(size: nat) {
    size <= WORD - 8
  }

  lemma Round8Exact(size: nat)
    requires Sizeable(size)
    ensures Round8(size) == (size + 7) / 8 * 8
    ensures size <= Round8(size) < size + 8
  {
  }

  lemma Round8Aligned(size: nat)
    ensures Round8(size) % 8 == 0
  {
  }

  // The break moved up by one block is still a 64-bit address.
  predicate Room(h: Heap, size: nat) {
    |h.mem| + HEADER + Round8(size) < WORD
  }

  // The break that malloc_impl asks for when no block fits, in the machine's arithmetic.
  function Asked(h: Heap, size: nat): nat {
    (|h.mem| + (HEADER + Round8(size)) % WORD) % WORD
  }

  // It leaves one header and the rounded size above the old break just when the sum is a 64-bit
  // address; it leaves room for what was asked for just when rounding does not wrap around either.
  lemma BreakRequestExact(h: Heap, size: nat)
    requires 0 < size < WORD && BASE <= |h.mem| < WORD
    ensures Asked(h, size) == |h.mem| + HEADER + Round8(size) <==> Room(h, size)
    ensures |h.mem| + HEADER <= Asked(h, size) <==> Room(h, size)
    ensures |h.mem| + HEADER + size <= Asked(h, size) <==> Sizeable(size) && Room(h, size)
  {
    Reduced(|h.mem|, HEADER + Round8(size));
    if Sizeable(size) { Round8Exact(size); }
  }

  // A sum in the machine's arithmetic is the sum, or falls short by 2^64.
  lemma Reduced(a: nat, b: nat)
    requires a < WORD && b < WORD + HEADER
    ensures var s := (a + b % WORD) % WORD;
            (a + b < WORD ==> s == a + b) && (a + b >= WORD ==> s == a + b - WORD || s == a + b - 2 * WORD)
  {
    assert b % WORD == if b < WORD then b else b - WORD;
  }

  // ----- What the calls do -----

  predicate Fits(n: Node, size: nat) {
    n.free && n.size >= size
  }

  ghost predicate FirstFit(ns: seq<Node>, size: nat, k: nat) {
    && k < |ns| && Fits(ns[k], size)
    && forall j :: 0 <= j < k ==> !Fits(ns[j], size)
  }

  ghost predicate NoFit(ns: seq<Node>, size: nat) {
    forall i :: 0 <= i < |ns| ==> !Fits(ns[i], size)
  }

  // Blocks live before and after keep their bytes, and so does all memory below the heap.
  ghost predicate Keeps(h: Heap, h': Heap) {
    && BASE <= |h.mem| <= |h'.mem|
    && h'.mem[..BASE] == h.mem[..BASE]
    && forall n :: n in h.nodes && n in h'.nodes && !n.free && n.End() <= |h.mem| ==>
         Payload(h'.mem, n) == Payload(h.mem, n)
  }

  ghost predicate Reuses(h: Heap, size: nat, q: nat, h': Heap) {
    exists k: nat :: FirstFit(h.nodes, size, k)
      && q == h.nodes[k].Ptr()
      && h'.nodes == h.nodes[k := h.nodes[k].(free := false)]
      && |h'.mem| == |h.mem|
  }

  ghost predicate Grows(h: Heap, size: nat, q: nat, h': Heap) {
    && NoFit(h.nodes, size)
    && q == |h.mem| + HEADER
    && h'.nodes == h.nodes + [Node(|h.mem|, size, false)]
    && |h'.mem| == |h.mem| + HEADER + size
  }

  // malloc: the lowest block that fits; else a block at the break; else NULL with nothing changed.
  ghost predicate MallocStep(h: Heap, size: nat, q: nat, h': Heap) {
    if q == 0 then h' == h && (size == 0 || NoFit(h.nodes, Round8(size)))
    else
      && size > 0
      && (Reuses(h, Round8(size), q, h') || Grows(h, Round8(size), q, h'))
      && Keeps(h, h') && Encoded(h')
  }

  // No block fits, and a new one does not fit below 2^64.
  ghost predicate Wraps(h: Heap, size: nat) {
    NoFit(h.nodes, Round8(size)) && !Room(h, size)
  }

  // malloc when the kernel takes such a request, whose break came out too low: a header past the
  // break that the kernel was asked for, in front of no memory at all.
  ghost predicate StrayStep(h: Heap, size: nat, q: nat, h': Heap) {
    && size > 0 && Wraps(h, size)
    && q == |h.mem| + HEADER == |h'.mem|
    && h'.nodes == h.nodes + [Node(|h.mem|, Round8(size), false)]
    && Keeps(h, h') && Encoded(h')
  }

  // ms is ns with each maximal run of free blocks turned into one block.
  ghost predicate Merged(ns: seq<Node>, ms: seq<Node>, lo: nat, hi: nat) {
    && Tiled(ms, lo, hi) && Aligned(ms) && NoAdjacentFree(ms)
    && LiveNodes(ms) == LiveNodes(ns)
  }

  ghost predicate Holds(ns: seq<Node>, p: nat, k: nat) {
    k < |ns| && !ns[k].free && ns[k].Ptr() == p
  }

  ghost predicate FreeStep(h: Heap, p: nat, h': Heap) {
    if p == 0 then h' == h
    else
      && |h'.mem| == |h.mem|
      && Keeps(h, h') && Encoded(h')
      && exists k: nat :: Holds(h.nodes, p, k) &&
           Merged(h.nodes[k := h.nodes[k].(free := true)], h'.nodes, BASE, |h.mem|)
  }

  // Bytes written inside one live block.
  ghost predicate WriteStep(h: Heap, p: nat, offset: nat, data: seq<byte>, h': Heap) {
    exists k: nat :: Holds(h.nodes, p, k)
      && offset + |data| <= h.nodes[k].size
      && h.nodes[k].End() <= |h.mem|
      && h' == h.(mem := Patch(h.mem, p + offset, data))
  }

  ghost predicate CallocVia(h: Heap, total: nat, q: nat, h1: Heap, h': Heap) {
    MallocStep(h, total, q, h1) && WriteStep(h1, q, 0, seq(total, _ => 0), h')
  }

  ghost predicate CallocStep(h: Heap, total: nat, q: nat, h': Heap) {
    if q == 0 then MallocStep(h, total, q, h') else exists h1 :: CallocVia(h, total, q, h1, h')
  }

  // The bytes that realloc carries over from block p.
  ghost predicate Carried(h: Heap, p: nat, size: nat, data: seq<byte>) {
    exists k: nat :: Holds(h.nodes, p, k) && h.nodes[k].End() <= |h.mem|
      && data == Payload(h.mem, h.nodes[k])[..Min(h.nodes[k].size, size)]
  }

  ghost predicate MoveVia(h: Heap, p: nat, size: nat, q: nat, h1: Heap, data: seq<byte>, h2: Heap, h': Heap) {
    && MallocStep(h, size, q, h1)
    && Carried(h1, p, size, data)
    && WriteStep(h1, q, 0, data, h2)
    && FreeStep(h2, p, h')
  }

  // realloc to a nonzero size: malloc, copy, free; or NULL with nothing changed.
  ghost predicate MoveStep(h: Heap, p: nat, size: nat, q: nat, h': Heap) {
    && (exists k: nat :: Holds(h.nodes, p, k))
    && if q == 0 then MallocStep(h, size, q, h')
       else exists h1, data, h2 :: MoveVia(h, p, size, q, h1, data, h2, h')
  }

  // One call or client store, where every store of the call stays inside the memory that the
  // kernel granted and inside the block that it is meant for.
  ghost predicate Step(h: Heap, e: Event, h': Heap) {
    && |h'.mem| < WORD
    && match e
       case Malloc(size, q) => MallocStep(h, size, q, h')
       case Calloc(count, size, q) => exists total: nat :: Truncates(count * size, total) && CallocStep(h, total, q, h')
       case Realloc(p, size, q) =>
         if p == 0 then MallocStep(h, size, q, h')
         else if size == 0 then q == 0 && FreeStep(h, p, h')
         else MoveStep(h, p, size, q, h')
       case Free(p) => FreeStep(h, p, h')
       case Write(p, offset, data) => WriteStep(h, p, offset, data, h')
  }

  // malloc without a wrapped break.
  ghost predicate PlainMalloc(h: Heap, size: nat, q: nat, h': Heap) {
    |h'.mem| < WORD && MallocStep(h, size, q, h')
  }

  // malloc takes a free block of at least n bytes.
  ghost predicate FreeFor(ns: seq<Node>, size: nat, n: nat) {
    exists f: nat :: FirstFit(ns, size, f) && n <= ns[f].size
  }

  // What realloc copies from p's block fits the new one: see HeapLayout.ReallocCopyFits.
  ghost predicate CopyFits(h: Heap, p: nat, size: nat) {
    || Sizeable(size)
    || exists k: nat :: Holds(h.nodes, p, k)
         && (h.nodes[k].size == 0 || FreeFor(h.nodes, Round8(size), h.nodes[k].size))
  }

  // A call that has a block from malloc and whose next store, or the header store before that,
  // is outside the block or the memory granted; h' is the heap when malloc is done.
  ghost predicate Overruns(h: Heap, e: Event, h': Heap) {
    match e
    case Malloc(size, q) => StrayStep(h, size, q, h')
    case Calloc(count, size, q) => exists total: nat :: Truncates(count * size, total) && FillOverruns(h, total, q, h')
    case Realloc(p, size, q) =>
      if p == 0 then StrayStep(h, size, q, h')
      else (exists k: nat :: Holds(h.nodes, p, k)) && CopyOverruns(h, p, size, q, h')
    case _ => false
  }

  ghost predicate FillOverruns(h: Heap, total: nat, q: nat, h': Heap) {
    StrayStep(h, total, q, h') || (q != 0 && !Sizeable(total) && PlainMalloc(h, total, q, h'))
  }

  ghost predicate CopyOverruns(h: Heap, p: nat, size: nat, q: nat, h': Heap) {
    StrayStep(h, size, q, h') || (q != 0 && !CopyFits(h, p, size) && PlainMalloc(h, size, q, h'))
  }

  // Any call of the code, as far as its stores stay where they belong.
  ghost predicate Call(h: Heap, e: Event, h': Heap) {
    Step(h, e, h') || Overruns(h, e, h')
  }

  // The request is one that no block fits and that does not fit below 2^64.
  ghost predicate RequestWraps(h: Heap, e: Event) {
    match e
    case Malloc(size, _) => Wraps(h, size)
    case Calloc(count, size, _) => Wraps(h, count * size)
    case Realloc(_, size, _) => Wraps(h, size)
    case _ => false
  }

  // What a caller can check before the call: see HeapLayout.CallExact.
  ghost predicate Contained(h: Heap, e: Event) {
    match e
    case Malloc(size, _) => !Wraps(h, size)
    case Calloc(count, size, _) =>
      exists total: nat :: Truncates(count * size, total) && Sizeable(total) && !Wraps(h, total)
    case Realloc(p, size, _) => !Wraps(h, size) && (p == 0 || CopyFits(h, p, size))
    case _ => true
  }

  // ----- Each call keeps the layout -----

  lemma RetagLayout(ns: seq<Node>, k: nat, free: bool, lo: nat, hi: nat)
    requires Tiled(ns, lo, hi) && Aligned(ns) && k < |ns|
    ensures Tiled(ns[k := ns[k].(free := free)], lo, hi)
    ensures Aligned(ns[k := ns[k].(free := free)])
    ensures NoAdjacentFree(ns) && !free ==> NoAdjacentFree(ns[k := ns[k].(free := free)])
  {
    var ns' := ns[k := ns[k].(free := free)];
    forall i, j | 0 <= i < j < |ns|
      ensures Before(ns'[i], ns'[j])
    {
      assert Before(ns[i], ns[j]);
    }
    forall i | 0 <= i < |ns| - 1
      ensures ns'[i].End() == ns'[i + 1].addr
    {
      assert ns[i].End() == ns[i + 1].addr;
    }
    forall i | 0 <= i < |ns|
      ensures Even8(ns'[i])
    {
      assert Even8(ns[i]);
    }
  }

  lemma GrowLayout(ns: seq<Node>, size: nat, lo: nat, hi: nat)
    requires Tiled(ns, lo, hi) && Aligned(ns) && NoAdjacentFree(ns)
    requires hi % 8 == 0 && size % 8 == 0
    ensures Tiled(ns + [Node(hi, size, false)], lo, hi + HEADER + size)
    ensures Aligned(ns + [Node(hi, size, false)])
    ensures NoAdjacentFree(ns + [Node(hi, size, false)])
  {
    var ns' := ns + [Node(hi, size, false)];
    forall i, j | 0 <= i < j < |ns'|
      ensures Before(ns'[i], ns'[j])
    {
      if j < |ns| {
        assert Before(ns[i], ns[j]);
      } else {
        assert i < |ns| - 1 ==> Before(ns[i], ns[|ns| - 1]);
      }
    }
    forall i | 0 <= i < |ns'|
      ensures Even8(ns'[i])
    {
      assert i < |ns| ==> Even8(ns[i]);
    }
  }

  lemma BreakAligned(ns: seq<Node>, hi: nat)
    requires Tiled(ns, BASE, hi) && Aligned(ns)
    ensures hi % 8 == 0
  {
    if ns != [] {
      assert Even8(ns[|ns| - 1]);
    }
  }

  lemma MallocKeepsInv(h: Heap, size: nat, q: nat, h': Heap)
    requires Inv(h) && |h'.mem| < WORD && MallocStep(h, size, q, h')
    ensures Inv(h')
  {
    Round8Aligned(size);
    if q != 0 {
      if Grows(h, Round8(size), q, h') {
        BreakAligned(h.nodes, |h.mem|);
        GrowLayout(h.nodes, Round8(size), BASE, |h.mem|);
      } else {
        var k: nat :| FirstFit(h.nodes, Round8(size), k)
          && h'.nodes == h.nodes[k := h.nodes[k].(free := false)];
        RetagLayout(h.nodes, k, false, BASE, |h.mem|);
      }
    }
  }

  lemma FreeKeepsInv(h: Heap, p: nat, h': Heap)
    requires Inv(h) && FreeStep(h, p, h')
    ensures Inv(h')
  {
  }

  // A header survives any change of memory that leaves its 24 bytes alone.
  lemma HeaderFrame(m: seq<byte>, m': seq<byte>, n: Node, next: nat)
    requires HeaderAt(m, n, next)
    requires n.Ptr() <= |m'| && m'[n.addr..n.Ptr()] == m[n.addr..n.Ptr()]
    ensures HeaderAt(m', n, next)
  {
    LoadFrame(m, m', n.addr, n.Ptr(), n.addr, 8);
    LoadFrame(m, m', n.addr, n.Ptr(), n.addr + 8, 8);
    LoadFrame(m, m', n.addr, n.Ptr(), n.addr + 16, 4);
  }

  lemma HeaderOutside(m: seq<byte>, a: nat, data: seq<byte>, n: Node, next: nat)
    requires HeaderAt(m, n, next) && a + |data| <= |m|
    requires n.Ptr() <= a || a + |data| <= n.addr
    ensures HeaderAt(Patch(m, a, data), n, next)
  {
    PatchOutside(m, a, data, n.addr, n.Ptr());
    HeaderFrame(m, Patch(m, a, data), n, next);
  }

  lemma WriteKeepsInv(h: Heap, p: nat, offset: nat, data: seq<byte>, h': Heap)
    requires Inv(h) && WriteStep(h, p, offset, data, h')
    ensures Inv(h')
  {
    var k: nat :| Holds(h.nodes, p, k) && offset + |data| <= h.nodes[k].size
                  && h.nodes[k].End() <= |h.mem|;
    forall i | 0 <= i < |h.nodes|
      ensures HeaderAt(h'.mem, h.nodes[i], NextAddr(h.nodes, i))
    {
      assert i < k ==> Before(h.nodes[i], h.nodes[k]);
      assert k < i ==> Before(h.nodes[k], h.nodes[i]);
      HeaderOutside(h.mem, p + offset, data, h.nodes[i], NextAddr(h.nodes, i));
    }
  }

  // After malloc the new block is in the list, and a block held before is where it was.
  lemma MallocGives(h: Heap, size: nat, q: nat, h': Heap) returns (j: nat)
    requires Inv(h) && |h'.mem| < WORD && MallocStep(h, size, q, h') && q != 0
    ensures Holds(h'.nodes, q, j) && Round8(size) <= h'.nodes[j].size
    ensures forall p, k: nat :: Holds(h.nodes, p, k) ==>
              k != j && Holds(h'.nodes, p, k) && h'.nodes[k] == h.nodes[k]
  {
    if Grows(h, Round8(size), q, h') {
      j := |h.nodes|;
    } else {
      var k: nat :| FirstFit(h.nodes, Round8(size), k) && q == h.nodes[k].Ptr()
        && h'.nodes == h.nodes[k := h.nodes[k].(free := false)];
      j := k;
    }
  }
}
