/** The heap of libgloss/syscalls.c: malloc, free, realloc and calloc over _sbrk, as code that
    walks and updates block headers stored in memory. */
module Libgloss {
  import opened Bytes
  import opened AllocSpec
  import opened BlockList
  import opened HeaderWrites
  import opened HeapLayout
  import opened Common

  // The kernel's answer to one brk call: refused, or granted with whatever bytes the new memory
  // then holds.
  datatype Brk = Refused | Granted(contents: nat -> byte)

  const FAILED: nat := WORD - 1  // (void *)-1
  const NULL: nat := 0

  lemma KeepsTrans(a: Heap, b: Heap, c: Heap)
    requires Keeps(a, b) && Keeps(b, c)
    requires LiveNodes(c.nodes) <= LiveNodes(b.nodes)
    ensures Keeps(a, c)
  {
    forall n | n in a.nodes && n in c.nodes && !n.free && n.End() <= |a.mem|
      ensures Payload(c.mem, n) == Payload(a.mem, n)
    {
      assert n in LiveNodes(c.nodes);
    }
  }

  class LibglossHeap {
    var mem: seq<byte>    // all memory up to the break, by address
    var heapEnd: nat      // _sbrk's heap_end
    var heapHead: nat     // heap_head
    ghost var nodes: seq<Node>

    ghost function Model(): Heap
      reads this
    {
      Heap(nodes, mem)
    }

    ghost predicate Linked()
      reads this
    {
      && Sound(Model())
      && heapEnd == |mem|
      && heapHead == AddrAt(nodes, 0)
    }

    ghost predicate Valid()
      reads this
    {
      Linked() && NoAdjacentFree(nodes)
    }

    constructor (image: seq<byte>)
      requires |image| == BASE
      ensures Valid() && nodes == [] && mem == image
    {
      mem, heapEnd, heapHead, nodes := image, BASE, NULL, [];
    }

    // What the three fields of the k-th header read as.
    lemma Fields(k: nat)
      requires Linked() && k < |nodes|
      ensures BASE <= nodes[k].addr && nodes[k].End() <= |mem|
      ensures Load(mem, nodes[k].addr, 8) == nodes[k].size
      ensures Load(mem, nodes[k].addr + 8, 8) == AddrAt(nodes, k + 1)
      ensures Load(mem, nodes[k].addr + 16, 4) != 0 <==> nodes[k].free
    {
      InHeap(Model(), k);
      assert HeaderAt(mem, nodes[k], NextAddr(nodes, k));
    }

    // The kernel maps what lies between the old break and the one asked for, if that is higher.
    method Sbrk(incr: nat, answer: Brk) returns (prev: nat)
      requires heapEnd == |mem| < FAILED
      modifies `mem, `heapEnd
      ensures prev == FAILED <==> answer.Refused?
      ensures answer.Refused? ==> mem == old(mem) && heapEnd == old(heapEnd)
      ensures answer.Granted? ==>
                && prev == old(heapEnd) && heapEnd == (prev + incr) % WORD
                && |mem| == (if heapEnd < prev then prev else heapEnd) && mem[..prev] == old(mem)
    {
      prev := heapEnd;
      match answer
      case Refused => return FAILED;
      case Granted(contents) =>
        heapEnd := (heapEnd + incr) % WORD;
        if heapEnd > prev {
          mem := mem + seq<byte>(heapEnd - prev, i requires 0 <= i => contents(i));
        }
    }

    // The fields of the header at curr.
    method Header(curr: nat, ghost k: nat) returns (size: nat, next: nat, free: bool)
      requires Linked() && k < |nodes| && curr == nodes[k].addr
      ensures size == nodes[k].size && next == AddrAt(nodes, k + 1) && free == nodes[k].free
      ensures next == NULL <==> k + 1 == |nodes|
    {
      Fields(k);
      if k + 1 < |nodes| { Fields(k + 1); }
      size, next, free := Load(mem, curr, 8), Load(mem, curr + 8, 8), Load(mem, curr + 16, 4) != 0;
    }

    // The search of malloc_impl: the address of the first block that fits, or NULL.
    method FindFit(size: nat) returns (curr: nat, ghost k: nat)
      requires Linked()
      ensures k <= |nodes| && curr == AddrAt(nodes, k)
      ensures k < |nodes| ==> FirstFit(nodes, size, k) && curr != NULL
      ensures curr == NULL <==> k == |nodes|
      ensures curr == NULL <==> NoFit(nodes, size)
    {
      curr, k := heapHead, 0;
      while curr != NULL
        invariant k <= |nodes| && curr == AddrAt(nodes, k)
        invariant forall j :: 0 <= j < k ==> !Fits(nodes[j], size)
        decreases |nodes| - k
      {
        var s, next, free := Header(curr, k);
        if free && s >= size {
          return;
        }
        curr := next;
        k := k + 1;
      }
      if k < |nodes| { Fields(k); }
    }

    // The walk to the last block.
    method FindLast(ghost h: Heap) returns (curr: nat)
      requires Sound(h) && h.nodes != [] && nodes == h.nodes && heapHead == AddrAt(nodes, 0)
      requires |h.mem| <= |mem| && mem[..|h.mem|] == h.mem
      ensures curr == nodes[|nodes| - 1].addr && curr + HEADER <= |h.mem|
    {
      curr := heapHead;
      ghost var k := 0;
      FieldsBelow(h, 0);
      while Load(mem, curr + 8, 8) != NULL
        invariant k < |nodes| && curr == nodes[k].addr && nodes[k].Ptr() <= |h.mem|
        invariant Load(mem, curr + 8, 8) == AddrAt(nodes, k + 1)
        decreases |nodes| - k
      {
        curr := Load(mem, curr + 8, 8);
        k := k + 1;
        FieldsBelow(h, k);
      }
      if k + 1 < |nodes| { InHeap(h, k + 1); }
    }

    // The last block linked to the new one.
    method LinkLast(block: nat, ghost h: Heap, size: nat)
      requires Sound(h) && h.nodes != [] && nodes == h.nodes && heapHead == AddrAt(nodes, 0)
      requires block == |h.mem| && block + HEADER <= |mem|
      requires mem[..block] == h.mem && HeaderAt(mem, Node(block, size, false), 0)
      modifies `mem
      ensures Appended(h, size, mem) && |mem| == old(|mem|)
    {
      var curr := FindLast(h);
      LinkAppends(h, mem, size);
      mem := Store(mem, curr + 8, 8, block);
    }

    lemma FieldsBelow(h: Heap, k: nat)
      requires Sound(h) && nodes == h.nodes && k < |nodes|
      requires |h.mem| <= |mem| && mem[..|h.mem|] == h.mem
      ensures BASE <= nodes[k].addr && nodes[k].End() <= |h.mem|
      ensures Load(mem, nodes[k].addr + 8, 8) == AddrAt(nodes, k + 1)
    {
      InHeap(h, k);
      assert HeaderAt(h.mem, nodes[k], NextAddr(nodes, k));
      SubSlice(mem, 0, |h.mem|, nodes[k].addr + 8, nodes[k].addr + 16);
    }

    // A granted request leaves the heap as malloc means to, unless its break wrapped around.
    method MallocImpl(size: nat, answer: Brk) returns (p: nat)
      requires Valid() && size < WORD
      modifies this
      ensures p == NULL <==> size == 0 || (answer.Refused? && NoFit(old(nodes), Round8(size)))
      ensures p == NULL || !Wraps(old(Model()), size) ==> Valid() && PlainMalloc(old(Model()), size, p, Model())
      ensures p != NULL && Wraps(old(Model()), size) ==>
                && StrayStep(old(Model()), size, p, Model())
                && heapEnd == Asked(old(Model()), size) < |mem|
    {
      if size == 0 { return NULL; }
      var rounded := Round8(size);
      var curr;
      ghost var k;
      curr, k := FindFit(rounded);
      if curr != NULL {
        p := TakeFit(curr, k, rounded, size);
        return;
      }
      p := Extend(size, rounded, answer);
    }

    // curr->free = 0
    method TakeFit(curr: nat, ghost k: nat, rounded: nat, size: nat) returns (p: nat)
      requires Valid() && size > 0 && rounded == Round8(size)
      requires FirstFit(nodes, rounded, k) && curr == nodes[k].addr
      modifies `mem, `nodes
      ensures Valid() && p != NULL && !NoFit(old(nodes), rounded)
      ensures PlainMalloc(old(Model()), size, p, Model())
    {
      ghost var h := Model();
      RetagSound(h, k, false);
      Reused(h, k, size);
      mem := Store(mem, curr + 16, 4, 0);
      nodes := nodes[k := nodes[k].(free := false)];
      assert Model() == Retag(h, k, false);
      p := curr + HEADER;
    }

    static lemma Reused(h: Heap, k: nat, size: nat)
      requires Inv(h) && size > 0 && FirstFit(h.nodes, Round8(size), k) && h.nodes[k].Ptr() <= |h.mem|
      requires Sound(Retag(h, k, false)) && Keeps(h, Retag(h, k, false))
      ensures PlainMalloc(h, size, h.nodes[k].Ptr(), Retag(h, k, false)) && Inv(Retag(h, k, false))
      ensures AddrAt(Retag(h, k, false).nodes, 0) == AddrAt(h.nodes, 0) && !NoFit(h.nodes, Round8(size))
    {
      RetagLayout(h.nodes, k, false, BASE, |h.mem|);
      assert Reuses(h, Round8(size), h.nodes[k].Ptr(), Retag(h, k, false));
    }

    // The new block's header and its link from the list.
    method AddBlock(block: nat, size: nat, ghost h: Heap)
      requires Sound(h) && nodes == h.nodes && heapHead == AddrAt(nodes, 0)
      requires block == |h.mem| && block + HEADER <= |mem| && size < WORD && mem[..block] == h.mem
      modifies `mem, `heapHead
      ensures Appended(h, size, mem) && |mem| == old(|mem|)
      ensures heapHead == if nodes == [] then block else old(heapHead)
    {
      FreshHeader(mem, block, size);
      if nodes != [] { InHeap(h, 0); }
      mem := Store(mem, block, 8, size);
      mem := Store(mem, block + 8, 8, NULL);
      mem := Store(mem, block + 16, 4, 0);
      if heapHead == NULL {
        heapHead := block;
      } else {
        LinkLast(block, h, size);
      }
    }

    // The second half of malloc_impl: a new block at the break.
    method Extend(size: nat, rounded: nat, answer: Brk) returns (p: nat)
      requires Valid() && 0 < size < WORD && rounded == Round8(size)
      requires NoFit(nodes, rounded)
      modifies this
      ensures p == NULL <==> answer.Refused?
      ensures p == NULL || Room(old(Model()), size) ==> Valid() && PlainMalloc(old(Model()), size, p, Model())
      ensures p != NULL && !Room(old(Model()), size) ==>
                && StrayStep(old(Model()), size, p, Model())
                && heapEnd == Asked(old(Model()), size) < |mem|
    {
      ghost var h := Model();
      var block := MoveBreak(size, rounded, answer);
      if block == FAILED { return NULL; }
      AddBlock(block, rounded, h);
      GrowStep(h, size, Heap(nodes + [Node(block, rounded, false)], mem));
      nodes := nodes + [Node(block, rounded, false)];
      p := block + HEADER;
    }

    // The break moved for a new block. The header stores go ahead even where they lie past the
    // memory asked for: the bytes there, which the page of the break may have, come into the model.
    method MoveBreak(size: nat, rounded: nat, answer: Brk) returns (block: nat)
      requires Valid() && 0 < size < WORD && rounded == Round8(size)
      modifies `mem, `heapEnd
      ensures block == FAILED <==> answer.Refused?
      ensures answer.Refused? ==> mem == old(mem) && heapEnd == old(heapEnd)
      ensures answer.Granted? ==>
                && block == old(|mem|) && heapEnd == Asked(old(Model()), size)
                && |mem| == (if Room(old(Model()), size) then block + HEADER + rounded else block + HEADER)
                && mem[..block] == old(mem)
                && (if Room(old(Model()), size) then heapEnd == |mem| else heapEnd < |mem|)
    {
      BreakAligned(nodes, |mem|);
      BreakRequestExact(Model(), size);
      var total := (HEADER + rounded) % WORD;
      block := Sbrk(total, answer);
      if answer.Granted? { Reach(block + HEADER, answer.contents); }
    }

    method Reach(end: nat, contents: nat -> byte)
      modifies `mem
      ensures |mem| == if old(|mem|) < end then end else old(|mem|)
      ensures mem[..old(|mem|)] == old(mem)
    {
      if |mem| < end {
        mem := mem + seq<byte>(end - |mem|, i requires 0 <= i => contents(i));
      }
    }

    // malloc_impl as realloc and calloc call it.
    method MallocInside(size: nat, answer: Brk) returns (p: nat, stray: bool)
      requires Valid() && size < WORD
      modifies this
      ensures p == NULL <==> size == 0 || (answer.Refused? && NoFit(old(nodes), Round8(size)))
      ensures stray <==> p != NULL && Wraps(old(Model()), size)
      ensures stray ==> StrayStep(old(Model()), size, p, Model())
      ensures !stray ==> Valid() && PlainMalloc(old(Model()), size, p, Model())
    {
      p := MallocImpl(size, answer);
      stray := heapEnd != |mem|;
    }

    method FreeImpl(p: nat)
      requires Valid()
      requires p == NULL || exists k: nat :: Holds(nodes, p, k)
      modifies this
      ensures Valid()
      ensures FreeStep(old(Model()), p, Model())
    {
      if p == NULL { return; }
      ghost var h := Model();
      ghost var k: nat :| Holds(nodes, p, k);
      var block := p - HEADER;
      MarkFree(block, k);
      ghost var h1 := Model();
      Coalesce();
      Freed(h, k, h1, Model());
    }

    // block->free = 1
    method MarkFree(block: nat, ghost k: nat)
      requires Linked() && k < |nodes| && block == nodes[k].addr
      modifies `mem, `nodes
      ensures Linked()
      ensures old(nodes[k].Ptr() <= |mem|) && Model() == Retag(old(Model()), k, true)
      ensures Keeps(old(Model()), Model())
    {
      RetagSound(Model(), k, true);
      mem := Store(mem, block + 16, 4, 1);
      nodes := nodes[k := nodes[k].(free := true)];
    }

    static lemma Freed(h: Heap, k: nat, h1: Heap, h': Heap)
      requires Sound(h) && k < |h.nodes| && !h.nodes[k].free
      requires h.nodes[k].Ptr() <= |h.mem| && h1 == Retag(h, k, true)
      requires Keeps(h, h1) && Keeps(h1, h') && |h'.mem| == |h.mem|
      requires Sound(h') && Merged(h1.nodes, h'.nodes, BASE, |h.mem|)
      ensures FreeStep(h, h.nodes[k].Ptr(), h')
    {
      KeepsTrans(h, h1, h');
      assert Holds(h.nodes, h.nodes[k].Ptr(), k);
    }

    // curr takes in its neighbour next.
    method Absorb(curr: nat, next: nat, ghost k: nat)
      requires Linked() && k + 1 < |nodes| && nodes[k].free && nodes[k + 1].free
      requires curr == nodes[k].addr && next == nodes[k + 1].addr
      modifies `mem, `nodes
      ensures Linked() && |mem| == old(|mem|)
      ensures nodes == MergeAt(old(nodes), k)
      ensures Keeps(old(Model()), Model())
    {
      ghost var h := Model();
      mem := StoreMerge(mem, curr, next, h, k);
      nodes := MergeAt(nodes, k);
      MergeSound(h, k, Model());
    }

    // The coalescing pass of free_impl, from any sound list.
    method Coalesce()
      requires Linked()
      modifies `mem, `nodes
      ensures Valid()
      ensures |mem| == old(|mem|)
      ensures Merged(old(nodes), nodes, BASE, |mem|)
      ensures Keeps(old(Model()), Model())
    {
      var curr := heapHead;
      ghost var k := 0;
      if nodes != [] { Fields(0); }
      while curr != NULL
        invariant Linked() && |mem| == old(|mem|)
        invariant nodes == [] ==> curr == NULL
        invariant nodes != [] ==> k < |nodes| && curr == nodes[k].addr
        invariant NoFreePairs(nodes, k)
        invariant LiveNodes(nodes) == LiveNodes(old(nodes))
        invariant Keeps(old(Model()), Model())
        decreases |nodes| - k
      {
        var _, next, free := Header(curr, k);
        if next == NULL { break; }
        var _, _, nextFree := Header(next, k + 1);
        if free && nextFree {
          ghost var h := Model();
          MergeMembers(nodes, k);
          Absorb(curr, next, k);
          KeepsTrans(old(Model()), h, Model());
        } else {
          curr := next;
          k := k + 1;
        }
      }
      if nodes != [] { Fields(k); }
    }

    // ----- The public interface -----

    method Malloc(size: nat, answer: Brk) returns (p: nat)
      requires Valid() && size < WORD
      modifies this
      ensures Call(old(Model()), AllocSpec.Malloc(size, p), Model())
      ensures p == NULL || Contained(old(Model()), AllocSpec.Malloc(size, p)) ==>
                Valid() && Step(old(Model()), AllocSpec.Malloc(size, p), Model())
      ensures p == NULL <==> size == 0 || (answer.Refused? && NoFit(old(nodes), Round8(size)))
    {
      p := MallocImpl(size, answer);
    }

    method Free(p: nat)
      requires Valid()
      requires p == NULL || exists k: nat :: Holds(nodes, p, k)
      modifies this
      ensures Valid()
      ensures Step(old(Model()), AllocSpec.Free(p), Model())
    {
      FreeImpl(p);
    }

    // The result says whether the model stopped where a store would have left its block.
    method Realloc(p: nat, size: nat, answer: Brk) returns (q: nat, overran: bool)
      requires Valid() && size < WORD
      requires p == NULL || exists k: nat :: Holds(nodes, p, k)
      modifies this
      ensures overran <==> q != NULL && !Contained(old(Model()), AllocSpec.Realloc(p, size, q))
      ensures overran ==> Overruns(old(Model()), AllocSpec.Realloc(p, size, q), Model())
      ensures !overran ==> Valid() && Step(old(Model()), AllocSpec.Realloc(p, size, q), Model())
      ensures q == NULL <==> size == 0 || (answer.Refused? && NoFit(old(nodes), Round8(size)))
    {
      if p == NULL {
        q, overran := MallocInside(size, answer);
        return;
      }
      if size == 0 {
        FreeImpl(p);
        return NULL, false;
      }
      ghost var k: nat :| Holds(nodes, p, k);
      ghost var h := Model();
      q, overran := MallocInside(size, answer);
      if q != NULL && !overran {
        overran := MoveInto(p, size, q, h, k);
      }
    }

    // realloc once malloc gave the block q.
    method MoveInto(p: nat, size: nat, q: nat, ghost h: Heap, ghost k: nat) returns (overran: bool)
      requires Inv(h) && Valid() && PlainMalloc(h, size, q, Model()) && 0 < size < WORD
      requires p != NULL && q != NULL && Holds(h.nodes, p, k)
      modifies this
      ensures overran <==> !CopyFits(h, p, size)
      ensures overran ==> Model() == old(Model())
      ensures !overran ==> Valid() && MoveStep(h, p, size, q, Model())
    {
      ghost var j := MallocGives(h, size, q, Model());
      ghost var i := ReallocCopyFits(h, size, q, Model(), p, k);
      SamePointer(nodes, BASE, |mem|, q, i, j);
      var fits := CheckCopy(p, size, q, k, j);
      if !fits { return true; }
      CopyAndFree(p, size, q, h, k, j);
      return false;
    }

    // Whether the copy stays inside q's block.
    method CheckCopy(p: nat, size: nat, q: nat, ghost k: nat, ghost j: nat) returns (fits: bool)
      requires Valid() && Holds(nodes, p, k) && Holds(nodes, q, j)
      ensures fits <==> Min(nodes[k].size, size) <= nodes[j].size
    {
      var oldSize, _, _ := Header(p - HEADER, k);
      var newSize, _, _ := Header(q - HEADER, j);
      fits := Min(oldSize, size) <= newSize;
    }

    // The second half of realloc: copy what fits of p's block into q's, then free p.
    method CopyAndFree(p: nat, size: nat, q: nat, ghost h: Heap, ghost k: nat, ghost j: nat)
      requires Valid() && MallocStep(h, size, q, Model())
      requires p != NULL && q != NULL
      requires Holds(nodes, p, k) && Holds(h.nodes, p, k) && Holds(nodes, q, j) && j != k
      requires Min(nodes[k].size, size) <= nodes[j].size
      modifies this
      ensures Valid()
      ensures MoveStep(h, p, size, q, Model())
    {
      ghost var h1 := Model();
      ghost var data := CopyOver(p, size, q, k, j);
      ghost var h2 := Model();
      FreeImpl(p);
      assert MoveVia(h, p, size, q, h1, data, h2, Model());
    }

    method CopyOver(p: nat, size: nat, q: nat, ghost k: nat, ghost j: nat) returns (ghost data: seq<byte>)
      requires Valid() && Holds(nodes, p, k) && Holds(nodes, q, j) && j != k
      requires Min(nodes[k].size, size) <= nodes[j].size
      modifies `mem
      ensures Valid() && Holds(nodes, p, k)
      ensures Carried(old(Model()), p, size, data)
      ensures WriteStep(old(Model()), q, 0, data, Model())
    {
      ghost var h := Model();
      data := CopyBlock(p, size, q, k, j);
      WriteKeepsInv(h, q, 0, data, Model());
    }

    method CopyBlock(p: nat, size: nat, q: nat, ghost k: nat, ghost j: nat) returns (ghost data: seq<byte>)
      requires Valid() && Holds(nodes, p, k) && Holds(nodes, q, j) && j != k
      requires Min(nodes[k].size, size) <= nodes[j].size
      modifies `mem
      ensures Carried(old(Model()), p, size, data)
      ensures WriteStep(old(Model()), q, 0, data, Model())
      ensures |mem| == old(|mem|)
    {
      TwoBlocks(k, j);
      var block := p - HEADER;
      var oldSize, _, _ := Header(block, k);
      var copySize := if oldSize < size then oldSize else size;
      data := mem[p..p + copySize];
      SubSlice(mem, p, p + oldSize, p, p + copySize);
      assert data == Payload(mem, nodes[k])[..copySize];
      assert Carried(Model(), p, size, data);
      mem := CopyBytes(mem, q, p, copySize);
    }

    lemma TwoBlocks(k: nat, j: nat)
      requires Linked() && k < |nodes| && j < |nodes| && j != k
      ensures nodes[k].End() <= |mem| && nodes[j].End() <= |mem|
      ensures Before(nodes[j], nodes[k]) || Before(nodes[k], nodes[j])
    {
      InHeap(Model(), k);
      InHeap(Model(), j);
      assert j < k ==> Before(nodes[j], nodes[k]);
      assert k < j ==> Before(nodes[k], nodes[j]);
    }

    // memset(p, 0, n) on a block that holds at least n bytes.
    method ZeroBlock(p: nat, n: nat, ghost j: nat)
      requires Valid() && Holds(nodes, p, j) && n <= nodes[j].size
      modifies `mem
      ensures Valid()
      ensures WriteStep(old(Model()), p, 0, seq(n, _ => 0), Model())
    {
      ghost var h := Model();
      InHeap(h, j);
      mem := FillBytes(mem, p, 0, n);
      assert WriteStep(h, p, 0, seq(n, _ => 0), Model());
      WriteKeepsInv(h, p, 0, seq(n, _ => 0), Model());
    }

    method Calloc(count: nat, size: nat, answer: Brk) returns (p: nat, overran: bool)
      requires Valid()
      modifies this
      ensures overran <==> p != NULL && !Contained(old(Model()), AllocSpec.Calloc(count, size, p))
      ensures overran ==> Overruns(old(Model()), AllocSpec.Calloc(count, size, p), Model())
      ensures !overran ==> Valid() && Step(old(Model()), AllocSpec.Calloc(count, size, p), Model())
      ensures exists total: nat :: Truncates(count * size, total)
                && (p == NULL <==> total == 0 || (answer.Refused? && NoFit(old(nodes), Round8(total))))
    {
      var total := Product(count, size);
      ghost var h := Model();
      p, overran := Zeroed(total, answer);
      ContainedProduct(h, count, size, total, p);
    }

    // calloc once the product is known.
    method Zeroed(total: nat, answer: Brk) returns (p: nat, overran: bool)
      requires Valid() && total < WORD
      modifies this
      ensures overran <==> p != NULL && (Wraps(old(Model()), total) || !Sizeable(total))
      ensures overran ==> FillOverruns(old(Model()), total, p, Model())
      ensures !overran ==> Valid() && CallocStep(old(Model()), total, p, Model())
      ensures p == NULL <==> total == 0 || (answer.Refused? && NoFit(old(nodes), Round8(total)))
    {
      p, overran := MallocInside(total, answer);
      if p != NULL && !overran {
        overran := FillNew(total, p, old(Model()));
      }
    }

    // calloc once malloc gave the block p.
    method FillNew(total: nat, p: nat, ghost h: Heap) returns (overran: bool)
      requires Inv(h) && Valid() && PlainMalloc(h, total, p, Model()) && total < WORD && p != NULL
      modifies `mem
      ensures overran <==> !Sizeable(total)
      ensures overran ==> Model() == old(Model())
      ensures !overran ==> Valid() && CallocStep(h, total, p, Model())
    {
      ghost var h1 := Model();
      ghost var j := MallocGives(h, total, p, h1);
      FillFits(h, total, h1, j);
      var size, _, _ := Header(p - HEADER, j);
      if size < total { return true; }
      ZeroBlock(p, total, j);
      assert CallocVia(h, total, p, h1, Model());
      return false;
    }
  }

  lemma FillFits(h: Heap, total: nat, h1: Heap, j: nat)
    requires Sound(h1) && j < |h1.nodes| && Round8(total) <= h1.nodes[j].size && total < WORD
    ensures total <= h1.nodes[j].size <==> Sizeable(total)
  {
    InHeap(h1, j);
    if Sizeable(total) { Round8Exact(total); }
  }

  lemma ContainedProduct(h: Heap, count: nat, size: nat, total: nat, p: nat)
    requires Truncates(count * size, total)
    ensures Contained(h, AllocSpec.Calloc(count, size, p)) <==> Sizeable(total) && !Wraps(h, total)
  {
    if Contained(h, AllocSpec.Calloc(count, size, p)) {
      var t: nat :| Truncates(count * size, t) && Sizeable(t) && !Wraps(h, t);
      TruncatesOnce(count * size, total, t);
    }
  }

  lemma SamePointer(ns: seq<Node>, lo: nat, hi: nat, q: nat, i: nat, j: nat)
    requires Tiled(ns, lo, hi) && Holds(ns, q, i) && Holds(ns, q, j)
    ensures i == j
  {
    assert i < j ==> Before(ns[i], ns[j]);
    assert j < i ==> Before(ns[j], ns[i]);
  }

  // malloc(2^64 - 7) on a fresh heap with a willing kernel returns a pointer to a block of no bytes.
  method WrappedRequest(image: seq<byte>, contents: nat -> byte) returns (heap: LibglossHeap, p: nat)
    requires |image| == BASE
    ensures heap.Valid() && p == 0x4000_0018 && heap.nodes == [Node(0x4000_0000, 0, false)]
  {
    heap := new LibglossHeap(image);
    ghost var h := heap.Model();
    p := heap.Malloc(WORD - 7, Granted(contents));
    HugeRequest(h, p, heap.Model());
  }

  // malloc(2^64 - 16) on a fresh heap asks for eight bytes, gets them, and returns a pointer past
  // them to a block whose header says 2^64 - 16.
  method StrayRequest(image: seq<byte>, contents: nat -> byte) returns (heap: LibglossHeap, p: nat)
    requires |image| == BASE
    ensures p == 0x4000_0018 && heap.heapEnd == 0x4000_0008
    ensures heap.nodes == [Node(0x4000_0000, WORD - 16, false)] && |heap.mem| == p
    ensures Load(heap.mem, 0x4000_0000, 8) == WORD - 16
  {
    heap := new LibglossHeap(image);
    FreshWraps(heap.Model());
    p := heap.MallocImpl(WORD - 16, Granted(contents));
    assert HeaderAt(heap.mem, heap.nodes[0], NextAddr(heap.nodes, 0));
  }

  lemma FreshWraps(h: Heap)
    requires h.nodes == [] && |h.mem| == BASE
    ensures Sizeable(WORD - 16) && Wraps(h, WORD - 16) && Asked(h, WORD - 16) == BASE + 8
    ensures Round8(WORD - 16) == WORD - 16
  {
  }
}
