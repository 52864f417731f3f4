/** How the header stores of malloc_impl and free_impl change the block list in memory. */
module HeaderWrites {
  import opened Bytes
  import opened BlockList

  // Memory changed in n's header at most.
  ghost predicate OnlyHeader(m: seq<byte>, m': seq<byte>, n: Node) {
    && n.Ptr() <= |m| == |m'|
    && m'[..n.addr] == m[..n.addr]
    && m'[n.Ptr()..] == m[n.Ptr()..]
  }

  lemma StoreInHeader(m0: seq<byte>, m: seq<byte>, n: Node, a: nat, k: nat, v: nat)
    requires OnlyHeader(m0, m, n) && n.addr <= a && a + k <= n.Ptr()
    ensures OnlyHeader(m0, Store(m, a, k, v), n)
  {
    PatchOutside(m, a, ToLittleEndian(v, k), 0, n.addr);
    PatchOutside(m, a, ToLittleEndian(v, k), n.Ptr(), |m|);
  }

  lemma OutsideHeader(m: seq<byte>, m': seq<byte>, n: Node, lo: nat, hi: nat)
    requires OnlyHeader(m, m', n) && lo <= hi <= |m|
    requires hi <= n.addr || n.Ptr() <= lo
    ensures m'[lo..hi] == m[lo..hi]
  {
    if hi <= n.addr {
      SubSlice(m, 0, n.addr, lo, hi);
      SubSlice(m', 0, n.addr, lo, hi);
    } else {
      SubSlice(m, n.Ptr(), |m|, lo, hi);
      SubSlice(m', n.Ptr(), |m|, lo, hi);
    }
  }

  lemma OtherHeaderKept(h: Heap, k: nat, m': seq<byte>, i: nat)
    requires Sound(h) && k < |h.nodes| && OnlyHeader(h.mem, m', h.nodes[k])
    requires i < |h.nodes| && i != k
    ensures HeaderAt(m', h.nodes[i], NextAddr(h.nodes, i))
  {
    InHeap(h, i);
    assert i < k ==> Before(h.nodes[i], h.nodes[k]);
    assert k < i ==> Before(h.nodes[k], h.nodes[i]);
    OutsideHeader(h.mem, m', h.nodes[k], h.nodes[i].addr, h.nodes[i].Ptr());
    HeaderFrame(h.mem, m', h.nodes[i], NextAddr(h.nodes, i));
  }

  lemma PayloadKept(h: Heap, k: nat, m': seq<byte>, n: Node)
    requires Sound(h) && k < |h.nodes| && OnlyHeader(h.mem, m', h.nodes[k])
    requires n in h.nodes && n.End() <= |h.mem|
    ensures Payload(m', n) == Payload(h.mem, n)
  {
    var i :| 0 <= i < |h.nodes| && h.nodes[i] == n;
    assert i < k ==> Before(h.nodes[i], h.nodes[k]);
    assert k < i ==> Before(h.nodes[k], h.nodes[i]);
    OutsideHeader(h.mem, m', h.nodes[k], n.Ptr(), n.End());
  }

  lemma HeaderWriteKeeps(h: Heap, k: nat, h': Heap)
    requires Sound(h) && k < |h.nodes| && OnlyHeader(h.mem, h'.mem, h.nodes[k])
    ensures Keeps(h, h')
  {
    InHeap(h, k);
    OutsideHeader(h.mem, h'.mem, h.nodes[k], 0, BASE);
    forall n | n in h.nodes && n.End() <= |h.mem|
      ensures Payload(h'.mem, n) == Payload(h.mem, n)
    {
      PayloadKept(h, k, h'.mem, n);
    }
  }

  // ----- curr->free = 0 and block->free = 1 -----

  function Retag(h: Heap, k: nat, free: bool): Heap
    requires k < |h.nodes| && h.nodes[k].Ptr() <= |h.mem|
  {
    Heap(h.nodes[k := h.nodes[k].(free := free)],
         Store(h.mem, h.nodes[k].addr + 16, 4, if free then 1 else 0))
  }

  lemma RetagStores(h: Heap, k: nat, free: bool)
    requires Sound(h) && k < |h.nodes|
    ensures h.nodes[k].Ptr() <= |h.mem|
    ensures OnlyHeader(h.mem, Retag(h, k, free).mem, h.nodes[k])
  {
    InHeap(h, k);
    StoreInHeader(h.mem, h.mem, h.nodes[k], h.nodes[k].addr + 16, 4, if free then 1 else 0);
  }

  lemma RetagEncoded(h: Heap, k: nat, free: bool, i: nat)
    requires Sound(h) && k < |h.nodes| && i < |h.nodes| && h.nodes[k].Ptr() <= |h.mem|
    ensures var h' := Retag(h, k, free);
            HeaderAt(h'.mem, h'.nodes[i], NextAddr(h'.nodes, i))
  {
    RetagStores(h, k, free);
    if i == k {
      RetagHeader(h.mem, h.nodes[k], NextAddr(h.nodes, k), free);
    } else {
      OtherHeaderKept(h, k, Retag(h, k, free).mem, i);
    }
  }

  lemma RetagSound(h: Heap, k: nat, free: bool)
    requires Sound(h) && k < |h.nodes|
    ensures h.nodes[k].Ptr() <= |h.mem|
    ensures Sound(Retag(h, k, free)) && Keeps(h, Retag(h, k, free))
  {
    RetagStores(h, k, free);
    var h' := Retag(h, k, free);
    HeaderWriteKeeps(h, k, h');
    RetagLayout(h.nodes, k, free, BASE, |h.mem|);
    forall i | 0 <= i < |h'.nodes|
      ensures HeaderAt(h'.mem, h'.nodes[i], NextAddr(h'.nodes, i))
    {
      RetagEncoded(h, k, free, i);
    }
  }

  lemma RetagHeader(m: seq<byte>, n: Node, next: nat, free: bool)
    requires HeaderAt(m, n, next)
    ensures HeaderAt(Store(m, n.addr + 16, 4, if free then 1 else 0), n.(free := free), next)
  {
    var v := if free then 1 else 0;
    PowersOf256();
    StoreHere(m, n.addr + 16, 4, v);
    StoreOutside(m, n.addr + 16, 4, v, n.addr, 8);
    StoreOutside(m, n.addr + 16, 4, v, n.addr + 8, 8);
  }

  // ----- Two neighbouring free blocks made one -----

  function MergedNode(a: Node, b: Node): Node {
    Node(a.addr, a.size + (HEADER + b.size), true)
  }

  function MergeAt(ns: seq<Node>, k: nat): seq<Node>
    requires k + 1 < |ns|
  {
    ns[..k] + [MergedNode(ns[k], ns[k + 1])] + ns[k + 2..]
  }

  lemma MergeLayout(ns: seq<Node>, k: nat, lo: nat, hi: nat)
    requires Tiled(ns, lo, hi) && Aligned(ns) && k + 1 < |ns|
    ensures Tiled(MergeAt(ns, k), lo, hi) && Aligned(MergeAt(ns, k))
  {
    var ms := MergeAt(ns, k);
    assert ns[k].End() == ns[k + 1].addr;
    forall i, j | 0 <= i < j < |ms|
      ensures Before(ms[i], ms[j])
    {
      assert Before(ns[if i < k then i else i + 1], ns[if j <= k then j else j + 1]);
    }
    forall i | 0 <= i < |ms|
      ensures Even8(ms[i])
    {
      assert Even8(ns[if i < k then i else i + 1]) && Even8(ns[k]);
    }
    forall i | 0 <= i < |ms| - 1
      ensures ms[i].End() == ms[i + 1].addr
    {
      assert ns[if i < k then i else i + 1].End() == ns[if i < k then i + 1 else i + 2].addr;
    }
  }

  lemma MergeHeader(m: seq<byte>, n: Node, oldNext: nat, size: nat, next: nat)
    requires HeaderAt(m, n, oldNext) && size < WORD && next < WORD
    ensures HeaderAt(Store(Store(m, n.addr, 8, size), n.addr + 8, 8, next), n.(size := size), next)
  {
    PowersOf256();
    var m1 := Store(m, n.addr, 8, size);
    StoreHere(m, n.addr, 8, size);
    StoreOutside(m, n.addr, 8, size, n.addr + 16, 4);
    StoreHere(m1, n.addr + 8, 8, next);
    StoreOutside(m1, n.addr + 8, 8, next, n.addr, 8);
    StoreOutside(m1, n.addr + 8, 8, next, n.addr + 16, 4);
  }

  // Memory after the two stores of the coalescing step at block k.
  ghost predicate MergeStored(h: Heap, k: nat, m: seq<byte>) {
    && k + 1 < |h.nodes|
    && OnlyHeader(h.mem, m, h.nodes[k])
    && HeaderAt(m, MergedNode(h.nodes[k], h.nodes[k + 1]), NextAddr(h.nodes, k + 1))
  }

  lemma MergeEncoded(h: Heap, k: nat, m: seq<byte>, i: nat)
    requires Sound(h) && MergeStored(h, k, m)
    requires i < |MergeAt(h.nodes, k)|
    ensures HeaderAt(m, MergeAt(h.nodes, k)[i], NextAddr(MergeAt(h.nodes, k), i))
  {
    if i != k {
      OtherHeaderKept(h, k, m, if i < k then i else i + 1);
    }
  }

  // One coalescing step keeps the list sound and every live block with its bytes.
  lemma MergeSound(h: Heap, k: nat, h': Heap)
    requires Sound(h) && MergeStored(h, k, h'.mem) && h'.nodes == MergeAt(h.nodes, k)
    ensures Sound(h') && Keeps(h, h')
  {
    HeaderWriteKeeps(h, k, h');
    MergeLayout(h.nodes, k, BASE, |h.mem|);
    forall i | 0 <= i < |h'.nodes|
      ensures HeaderAt(h'.mem, h'.nodes[i], NextAddr(h'.nodes, i))
    {
      MergeEncoded(h, k, h'.mem, i);
    }
  }

  lemma MergeMembers(ns: seq<Node>, k: nat)
    requires k + 1 < |ns| && ns[k].free && ns[k + 1].free
    ensures LiveNodes(MergeAt(ns, k)) == LiveNodes(ns)
    ensures NoFreePairs(ns, k) ==> NoFreePairs(MergeAt(ns, k), k)
  {
    assert ns == ns[..k] + [ns[k]] + [ns[k + 1]] + ns[k + 2..];
  }

  // The stores of the coalescing step, with the values read from the headers.
  method StoreMerge(m: seq<byte>, curr: nat, next: nat, ghost h: Heap, ghost k: nat) returns (m': seq<byte>)
    requires Sound(h) && m == h.mem && k + 1 < |h.nodes| && h.nodes[k].free
    requires curr == h.nodes[k].addr && next == h.nodes[k + 1].addr
    ensures MergeStored(h, k, m')
  {
    var size := ReadMergedSize(m, curr, next, h, k);
    var m1 := Store(m, curr, 8, size);
    var after := ReadNext(m, m1, curr, next, size, h, k);
    m' := Store(m1, curr + 8, 8, after);
    MergedHeader(h, k, size, after);
  }

  // curr->size + (sizeof(mem_block_t) + curr->next->size)
  method ReadMergedSize(m: seq<byte>, curr: nat, next: nat, ghost h: Heap, ghost k: nat) returns (size: nat)
    requires Sound(h) && m == h.mem && k + 1 < |h.nodes|
    requires curr == h.nodes[k].addr && next == h.nodes[k + 1].addr
    ensures size == MergedNode(h.nodes[k], h.nodes[k + 1]).size < WORD
    ensures curr + HEADER <= next && next + HEADER <= |m| && HeaderAt(m, h.nodes[k], NextAddr(h.nodes, k))
  {
    MergeReads(h, k);
    size := (Load(m, curr, 8) + (HEADER + Load(m, next, 8))) % WORD;
  }

  // curr->next->next, once curr->size is stored.
  method ReadNext(m: seq<byte>, m1: seq<byte>, curr: nat, next: nat, size: nat, ghost h: Heap, ghost k: nat)
    returns (after: nat)
    requires Sound(h) && m == h.mem && k + 1 < |h.nodes| && next == h.nodes[k + 1].addr
    requires size < WORD && curr + HEADER <= next && next + HEADER <= |m| && m1 == Store(m, curr, 8, size)
    ensures after == NextAddr(h.nodes, k + 1) < WORD
  {
    MergeReads(h, k);
    StoreOutside(m, curr, 8, size, next + 8, 8);
    after := Load(m1, next + 8, 8);
  }

  lemma MergedHeader(h: Heap, k: nat, size: nat, next: nat)
    requires k + 1 < |h.nodes| && h.nodes[k].free && HeaderAt(h.mem, h.nodes[k], NextAddr(h.nodes, k))
    requires size == MergedNode(h.nodes[k], h.nodes[k + 1]).size < WORD
    requires next == NextAddr(h.nodes, k + 1) < WORD
    ensures var a := h.nodes[k].addr;
            MergeStored(h, k, Store(Store(h.mem, a, 8, size), a + 8, 8, next))
  {
    var n := h.nodes[k];
    StoreInHeader(h.mem, h.mem, n, n.addr, 8, size);
    StoreInHeader(h.mem, Store(h.mem, n.addr, 8, size), n, n.addr + 8, 8, next);
    MergeHeader(h.mem, n, NextAddr(h.nodes, k), size, next);
    assert n.(size := size) == MergedNode(n, h.nodes[k + 1]);
  }

  lemma MergeReads(h: Heap, k: nat)
    requires Sound(h) && k + 1 < |h.nodes|
    ensures var n, next := h.nodes[k], h.nodes[k + 1].addr;
            && HeaderAt(h.mem, n, NextAddr(h.nodes, k))
            && n.End() == next && next + HEADER <= |h.mem|
            && (Load(h.mem, n.addr, 8) + (HEADER + Load(h.mem, next, 8))) % WORD
                 == MergedNode(n, h.nodes[k + 1]).size
            && Load(h.mem, next + 8, 8) == NextAddr(h.nodes, k + 1) < WORD
  {
    InHeap(h, k);
    InHeap(h, k + 1);
    if k + 2 < |h.nodes| { InHeap(h, k + 2); }
    assert h.nodes[k].End() == h.nodes[k + 1].addr;
    assert HeaderAt(h.mem, h.nodes[k], NextAddr(h.nodes, k));
    assert HeaderAt(h.mem, h.nodes[k + 1], NextAddr(h.nodes, k + 1));
  }

  // ----- A new block at the break -----

  // The new block's header written, and the last block linked to it.
  ghost predicate Appended(h: Heap, size: nat, m': seq<byte>) {
    && HeaderAt(m', Node(|h.mem|, size, false), 0)
    && if h.nodes == [] then m'[..|h.mem|] == h.mem
       else
         var last := h.nodes[|h.nodes| - 1];
         && last.Ptr() <= |h.mem|
         && m'[..|h.mem|] == Store(h.mem, last.addr + 8, 8, |h.mem|)
  }

  lemma LinkAppends(h: Heap, m: seq<byte>, size: nat)
    requires Sound(h) && h.nodes != [] && |h.mem| + HEADER <= |m|
    requires m[..|h.mem|] == h.mem && HeaderAt(m, Node(|h.mem|, size, false), 0)
    ensures var last := h.nodes[|h.nodes| - 1];
            last.Ptr() <= |h.mem| && Appended(h, size, Store(m, last.addr + 8, 8, |h.mem|))
  {
    InHeap(h, |h.nodes| - 1);
    var a := h.nodes[|h.nodes| - 1].addr + 8;
    HeaderOutside(m, a, ToLittleEndian(|h.mem|, 8), Node(|h.mem|, size, false), 0);
    StorePrefix(m, |h.mem|, a, 8, |h.mem|);
  }

  lemma LinkHeader(m: seq<byte>, n: Node, next: nat)
    requires HeaderAt(m, n, 0) && next < WORD
    ensures HeaderAt(Store(m, n.addr + 8, 8, next), n, next)
  {
    PowersOf256();
    StoreHere(m, n.addr + 8, 8, next);
    StoreOutside(m, n.addr + 8, 8, next, n.addr, 8);
    StoreOutside(m, n.addr + 8, 8, next, n.addr + 16, 4);
  }

  // The old part of memory once the last block is linked.
  lemma LinkedKeeps(h: Heap, m: seq<byte>)
    requires Sound(h) && h.nodes != []
    requires var last := h.nodes[|h.nodes| - 1];
             last.Ptr() <= |h.mem| && m == Store(h.mem, last.addr + 8, 8, |h.mem|)
    ensures OnlyHeader(h.mem, m, h.nodes[|h.nodes| - 1])
    ensures HeaderAt(m, h.nodes[|h.nodes| - 1], |h.mem|)
  {
    var k := |h.nodes| - 1;
    StoreInHeader(h.mem, h.mem, h.nodes[k], h.nodes[k].addr + 8, 8, |h.mem|);
    assert HeaderAt(h.mem, h.nodes[k], NextAddr(h.nodes, k));
    LinkHeader(h.mem, h.nodes[k], |h.mem|);
  }

  // The three stores into a fresh block's header.
  lemma FreshHeader(m: seq<byte>, a: nat, size: nat)
    requires a + HEADER <= |m| && size < WORD
    ensures var m' := Store(Store(Store(m, a, 8, size), a + 8, 8, 0), a + 16, 4, 0);
            HeaderAt(m', Node(a, size, false), 0) && m'[..a] == m[..a]
  {
    PowersOf256();
    var m1 := Store(m, a, 8, size);
    var m2 := Store(m1, a + 8, 8, 0);
    StoreHere(m, a, 8, size);
    StoreHere(m1, a + 8, 8, 0);
    StoreHere(m2, a + 16, 4, 0);
    StoreOutside(m1, a + 8, 8, 0, a, 8);
    StoreOutside(m2, a + 16, 4, 0, a, 8);
    StoreOutside(m2, a + 16, 4, 0, a + 8, 8);
  }

  lemma HeaderExtends(m: seq<byte>, b: nat, n: Node, next: nat)
    requires b <= |m| && HeaderAt(m[..b], n, next)
    ensures HeaderAt(m, n, next)
  {
    SubSlice(m, 0, b, n.addr, n.Ptr());
    HeaderFrame(m[..b], m, n, next);
  }

  lemma OldHeaders(h: Heap, size: nat, m: seq<byte>, i: nat)
    requires Sound(h) && i < |h.nodes|
    requires OnlyHeader(h.mem, m, h.nodes[|h.nodes| - 1])
    requires HeaderAt(m, h.nodes[|h.nodes| - 1], |h.mem|)
    ensures HeaderAt(m, h.nodes[i], NextAddr(h.nodes + [Node(|h.mem|, size, false)], i))
  {
    if i < |h.nodes| - 1 { OtherHeaderKept(h, |h.nodes| - 1, m, i); }
  }

  lemma GrowEncoded(h: Heap, size: nat, m': seq<byte>, i: nat)
    requires Sound(h) && Appended(h, size, m') && i <= |h.nodes|
    ensures var ns := h.nodes + [Node(|h.mem|, size, false)];
            HeaderAt(m', ns[i], NextAddr(ns, i))
  {
    if i < |h.nodes| {
      LinkedKeeps(h, m'[..|h.mem|]);
      OldHeaders(h, size, m'[..|h.mem|], i);
      HeaderExtends(m', |h.mem|, h.nodes[i], NextAddr(h.nodes + [Node(|h.mem|, size, false)], i));
    }
  }

  // Keeping carries over to a longer memory.
  lemma KeepsExtends(h: Heap, m: seq<byte>, h': Heap)
    requires Keeps(h, Heap(h.nodes, m)) && |m| == |h.mem| <= |h'.mem| && h'.mem[..|m|] == m
    ensures Keeps(h, h')
  {
    SubSlice(h'.mem, 0, |m|, 0, BASE);
    forall n | n in h.nodes && !n.free && n.End() <= |h.mem|
      ensures Payload(h'.mem, n) == Payload(h.mem, n)
    {
      SubSlice(h'.mem, 0, |m|, n.Ptr(), n.End());
    }
  }

  lemma GrowKeeps(h: Heap, size: nat, m': seq<byte>)
    requires Sound(h) && Appended(h, size, m')
    ensures Keeps(h, Heap(h.nodes + [Node(|h.mem|, size, false)], m'))
  {
    var m := m'[..|h.mem|];
    if h.nodes != [] {
      LinkedKeeps(h, m);
      HeaderWriteKeeps(h, |h.nodes| - 1, Heap(h.nodes, m));
    }
    KeepsExtends(h, m, Heap(h.nodes + [Node(|h.mem|, size, false)], m'));
  }

  lemma GrowStores(h: Heap, size: nat, h': Heap)
    requires Sound(h) && Appended(h, size, h'.mem) && h'.nodes == h.nodes + [Node(|h.mem|, size, false)]
    ensures Keeps(h, h') && Encoded(h')
    ensures AddrAt(h'.nodes, 0) == if h.nodes == [] then |h.mem| else AddrAt(h.nodes, 0)
  {
    GrowKeeps(h, size, h'.mem);
    forall i | 0 <= i < |h'.nodes|
      ensures HeaderAt(h'.mem, h'.nodes[i], NextAddr(h'.nodes, i))
    {
      GrowEncoded(h, size, h'.mem, i);
    }
  }

  // Growing the heap is one of malloc's outcomes, whether the break had room or wrapped around.
  lemma GrowStep(h: Heap, size: nat, h': Heap)
    requires Inv(h) && size > 0 && NoFit(h.nodes, Round8(size))
    requires |h'.mem| == if Room(h, size) then |h.mem| + HEADER + Round8(size) else |h.mem| + HEADER
    requires Appended(h, Round8(size), h'.mem)
    requires h'.nodes == h.nodes + [Node(|h.mem|, Round8(size), false)]
    ensures Room(h, size) ==> Inv(h') && MallocStep(h, size, |h.mem| + HEADER, h')
    ensures !Room(h, size) ==> StrayStep(h, size, |h.mem| + HEADER, h')
    ensures AddrAt(h'.nodes, 0) == if h.nodes == [] then |h.mem| else AddrAt(h.nodes, 0)
  {
    GrowStores(h, Round8(size), h');
    if Room(h, size) { MallocKeepsInv(h, size, |h.mem| + HEADER, h'); }
  }
}
