/** The heap of apps/tcc/tcc.c: tcc_simple_realloc and the malloc family over it, as code that
    writes headers into memory above the old break. */
module TccHeap {
  import opened Bytes
  import opened AllocSpec
  import opened Arena
  import opened ArenaRuns
  import opened Common

  const NULL: nat := 0

  // What a new block's payload holds before anyone writes to it.
  function Fresh(cap: nat, contents: nat -> byte): (s: seq<byte>)
    ensures |s| == cap
  {
    seq(cap, i requires 0 <= i => contents(HEADER + i))
  }

  // A copy of n bytes from below into a payload at the end of memory.
  lemma CopiedIn(m: seq<byte>, header: seq<byte>, payload: seq<byte>, p: nat, n: nat)
    requires p + n <= |m| && n <= |payload|
    ensures var data := m[p..p + n] + payload[n..];
            && (m + header + payload)[p..p + n] == m[p..p + n]
            && Patch(m + header + payload, |m| + |header|, m[p..p + n]) == m + header + data
            && |data| == |payload| && data[..n] == m[p..p + n]
  {
  }

  // A fill of the first n bytes of a payload at the end of memory.
  lemma FilledIn(m: seq<byte>, header: seq<byte>, payload: seq<byte>, n: nat)
    requires n <= |payload|
    ensures var data := seq<byte>(n, _ => 0) + payload[n..];
            && Patch(m + header + payload, |m| + |header|, seq<byte>(n, _ => 0)) == m + header + data
            && |data| == |payload|
  {
  }

  // The header of a new block stored in front of its payload.
  lemma HeaderStored(m: seq<byte>, n: nat, cap: nat, contents: nat -> byte)
    ensures Store(m + seq<byte>(HEADER + n, i requires 0 <= i => contents(i)), |m|, 8, cap)
         == m + ToLittleEndian(cap, 8) + Fresh(n, contents)
  {
  }

  lemma EndMoves(data: nat, cap: nat)
    requires cap < WORD
    ensures data + cap < WORD ==> (data + cap) % WORD == data + cap
    ensures data + cap >= WORD ==> (data + cap) % WORD != data
  {
  }

  lemma ContainedProduct(h: Heap, count: nat, size: nat, total: nat, p: nat)
    requires Truncates(count * size, total)
    ensures Contained(h, AllocSpec.Calloc(count, size, p)) <==> Sizeable(total) && Room(h, total)
  {
    if Contained(h, AllocSpec.Calloc(count, size, p)) {
      var t: nat :| Truncates(count * size, t) && Sizeable(t) && Room(h, t);
      TruncatesOnce(count * size, total, t);
    }
  }

  class BumpHeap {
    const base: nat       // what brk(0) answers
    var mem: seq<byte>    // all memory up to the heap end, by address
    var heapEnd: nat      // tcc_heap_end; 0 until the first allocation
    ghost var chunks: seq<Chunk>
    ghost var live: set<nat>

    ghost function Model(): Heap
      reads this
    {
      Heap(base, chunks, mem, live)
    }

    ghost predicate Valid()
      reads this
    {
      && Inv(Model())
      && (heapEnd == |mem| || (heapEnd == 0 && chunks == []))
    }

    constructor (start: nat, image: seq<byte>)
      requires 0 < start == |image| < WORD
      ensures Valid() && Initial(Model()) && mem == image
    {
      base, mem, heapEnd, chunks, live := start, image, 0, [], {};
    }

    // A new block with the given capacity at the heap end. The kernel answers the brk call with
    // reply; new memory then holds what contents says. A reply that the code takes for a grant
    // stands for the whole block, or, where the request wrapped around, for its header alone.
    method Bump(cap: nat, reply: nat, contents: nat -> byte) returns (data: nat)
      requires Valid() && cap % 16 == 0 && cap < WORD
      modifies `mem, `heapEnd, `chunks
      ensures data == NULL <==> reply == WORD - 1 || reply < old(|mem|)
      ensures data == NULL ==> Valid() && mem == old(mem) && chunks == old(chunks)
      ensures data != NULL ==>
                && data == old(|mem|) + HEADER && heapEnd == (data + cap) % WORD
                && chunks == old(chunks) + [Chunk(old(|mem|), cap)]
                && if data + cap < WORD
                   then Valid() && mem == old(mem) + ToLittleEndian(cap, 8) + Fresh(cap, contents)
                   else mem == old(mem) + ToLittleEndian(cap, 8) + [] && heapEnd != |mem|
    {
      if heapEnd == 0 {
        heapEnd := base;
      }
      if reply == WORD - 1 || reply < heapEnd { return NULL; }
      var header := heapEnd;
      var room := header + HEADER + cap < WORD;
      var n := if room then cap else 0;
      if room {
        ExtendInv(Model(), cap, Fresh(cap, contents), live);
      }
      HeaderStored(mem, n, cap, contents);
      mem := mem + seq<byte>(HEADER + n, i requires 0 <= i => contents(i));
      mem := Store(mem, header, 8, cap);
      chunks := chunks + [Chunk(header, cap)];
      data := header + HEADER;
      heapEnd := (data + cap) % WORD;
      EndMoves(data, cap);
    }

    // tcc_simple_realloc(0, size)
    method Malloc(size: nat, reply: nat, contents: nat -> byte) returns (p: nat)
      requires Valid() && size < WORD
      modifies this
      ensures p == NULL <==> size == 0 || reply == WORD - 1 || reply < old(|mem|)
      ensures p == NULL ==> Model() == old(Model())
      ensures p == NULL || Room(old(Model()), size) ==>
                Valid() && Step(old(Model()), AllocSpec.Malloc(size, p), Model())
      ensures p != NULL && !Room(old(Model()), size) ==>
                && Overruns(old(Model()), AllocSpec.Malloc(size, p), Model())
                && heapEnd == (p + Round16(size)) % WORD != |mem|
    {
      if size == 0 { return NULL; }
      Round16Holds(size);
      ghost var h := Model();
      p := Bump(Round16(size), reply, contents);
      if p != NULL {
        live := live + {p};
        if Room(h, size) {
          assert AllocStep(h, size, p, Fresh(Round16(size), contents), h.live + {p}, Model());
          MallocRefines(h, size, p, Model());
        }
      }
    }

    // free only forgets the pointer.
    method Free(p: nat)
      requires Valid() && (p == NULL || p in live)
      modifies `live
      ensures Valid()
      ensures Step(old(Model()), AllocSpec.Free(p), Model())
    {
      if p != NULL { live := live - {p}; }
    }

    // ptr_addr + old_total == tcc_heap_end
    method EndsHere(ptr: nat, oldSize: nat) returns (b: bool)
      requires Valid() && ptr in live && Readable(mem, ptr) && oldSize == Cap(mem, ptr)
      ensures b <==> TestsInPlace(mem, ptr)
    {
      ghost var _ := HeldAt(Model(), ptr);
      b := (ptr + (oldSize + HEADER) % WORD) % WORD == heapEnd;
    }

    // tcc_simple_realloc(ptr, size). The result says whether the model stopped where a store
    // would have left its block, or the block grew in place.
    method Realloc(ptr: nat, size: nat, reply: nat, contents: nat -> byte) returns (q: nat, overran: bool)
      requires Valid() && size < WORD && reply < WORD && (ptr == NULL || ptr in live)
      modifies this
      ensures overran <==> q != NULL && !Contained(old(Model()), AllocSpec.Realloc(ptr, size, q))
      ensures overran ==> Overruns(old(Model()), AllocSpec.Realloc(ptr, size, q), Model())
      ensures !overran ==> Valid() && Step(old(Model()), AllocSpec.Realloc(ptr, size, q), Model())
      ensures size == 0 ==> q == ptr
      ensures size > 0 ==> (q == NULL <==> reply == WORD - 1 || reply < old(|mem|))
      ensures q == NULL || size == 0 ==> Model() == old(Model())
    {
      if size == 0 { return ptr, false; }
      if ptr == NULL {
        q := Malloc(size, reply, contents);
        return q, q != NULL && heapEnd != |mem|;
      }
      ghost var _ := HeldAt(Model(), ptr);
      var oldSize := Load(mem, ptr - HEADER, 8);
      var copySize := if oldSize < size then oldSize else size;
      var inPlace := EndsHere(ptr, oldSize);
      if inPlace {
        q := GrowInPlace(ptr, size, reply, contents);
        return q, q != NULL;
      }
      q, overran := MoveBlock(ptr, size, copySize, reply, contents);
    }

    // The branch of tcc_simple_realloc that keeps the block where it is.
    method GrowInPlace(ptr: nat, size: nat, reply: nat, contents: nat -> byte) returns (q: nat)
      requires Valid() && 0 < size < WORD && reply < WORD && ptr != NULL && ptr in live && Readable(mem, ptr)
      modifies this
      ensures q == NULL <==> reply == WORD - 1 || reply < old(|mem|)
      ensures q == NULL ==> Valid() && Model() == old(Model())
      ensures q != NULL ==> InPlaceStep(old(Model()), ptr, size, q, Model()) && heapEnd == |mem| == reply
    {
      ghost var i := HeldAt(Model(), ptr);
      if reply == WORD - 1 || reply < heapEnd { return NULL; }
      var m := Store(mem, ptr - HEADER, 8, Round16(size));
      mem := m + seq<byte>(reply - heapEnd, i requires 0 <= i => contents(i));
      assert mem[..|m|] == m;
      chunks := chunks[i := Chunk(chunks[i].addr, Round16(size))];
      heapEnd := reply;
      q := ptr;
    }

    // The last part of tcc_simple_realloc: a new block and a copy.
    method MoveBlock(ptr: nat, size: nat, copySize: nat, reply: nat, contents: nat -> byte)
      returns (q: nat, overran: bool)
      requires Valid() && 0 < size < WORD && ptr != NULL && ptr in live
      requires Readable(mem, ptr) && copySize == Min(Cap(mem, ptr), size)
      modifies this
      ensures q == NULL <==> reply == WORD - 1 || reply < old(|mem|)
      ensures q == NULL ==> Model() == old(Model())
      ensures overran <==> q != NULL && !(Room(old(Model()), size) && CopyFits(old(mem), ptr, size))
      ensures overran ==> CopyOverruns(old(Model()), ptr, size, q, Model())
      ensures !overran ==> Valid() && |mem| < WORD && MoveStep(old(Model()), ptr, size, q, Model())
    {
      ghost var h := Model();
      Round16Holds(size);
      ReallocCopyFits(h, ptr, size);
      q := Bump(Round16(size), reply, contents);
      if q == NULL { return q, false; }
      if heapEnd != |mem| || q + copySize > |mem| {
        live := live + {q};
        assert Room(h, size) ==>
            AllocStep(h, size, q, Fresh(Round16(size), contents), h.live + {q}, Model());
        return q, true;
      }
      mem := CopyBytes(mem, q, ptr, copySize);
      live := live - {ptr} + {q};
      Moved(h, ptr, size, q, copySize, Fresh(Round16(size), contents), Model());
      return q, false;
    }

    static lemma Moved(h: Heap, p: nat, size: nat, q: nat, n: nat, payload: seq<byte>, h': Heap)
      requires Inv(h) && |h'.mem| < WORD && p in h.live && Readable(h.mem, p) && p != NULL && size > 0
      requires q == |h.mem| + HEADER && n == Min(Cap(h.mem, p), size) <= |payload| == Round16(size)
      requires h' == Extended(h, Round16(size), payload, h.live - {p} + {q}).(mem := h'.mem)
      requires var m := h.mem + ToLittleEndian(Round16(size), 8) + payload; h'.mem == Patch(m, q, m[p..p + n])
      ensures MoveStep(h, p, size, q, h') && Inv(h')
    {
      CopiedIn(h.mem, ToLittleEndian(Round16(size), 8), payload, p, n);
      var data := h.mem[p..p + n] + payload[n..];
      assert AllocStep(h, size, q, data, h.live - {p} + {q}, h');
      assert Carries(h, p, size, data);
      MoveRefines(h, p, size, q, h');
    }

    method Calloc(count: nat, size: nat, reply: nat, contents: nat -> byte) returns (p: nat, overran: bool)
      requires Valid()
      modifies this
      ensures overran <==> p != NULL && !Contained(old(Model()), AllocSpec.Calloc(count, size, p))
      ensures overran ==> Overruns(old(Model()), AllocSpec.Calloc(count, size, p), Model())
      ensures !overran ==> Valid() && Step(old(Model()), AllocSpec.Calloc(count, size, p), Model())
      ensures p == NULL <==> Truncates(count * size, 0) || reply == WORD - 1 || reply < old(|mem|)
      ensures p == NULL ==> Model() == old(Model())
    {
      var total := Product(count, size);
      ghost var h := Model();
      p, overran := Zeroed(total, reply, contents);
      ContainedProduct(h, count, size, total, p);
      if Truncates(count * size, 0) { TruncatesOnce(count * size, total, 0); }
    }

    // calloc once the product is known.
    method Zeroed(total: nat, reply: nat, contents: nat -> byte) returns (p: nat, overran: bool)
      requires Valid() && total < WORD
      modifies this
      ensures p == NULL <==> total == 0 || reply == WORD - 1 || reply < old(|mem|)
      ensures p == NULL ==> Model() == old(Model())
      ensures overran <==> p != NULL && !(Sizeable(total) && Room(old(Model()), total))
      ensures overran ==> FillOverruns(old(Model()), total, p, Model())
      ensures !overran ==> Valid() && |mem| < WORD && CallocStep(old(Model()), total, p, Model())
    {
      ghost var h := Model();
      p := Malloc(total, reply, contents);
      Round16Holds(total);
      if p == NULL { return p, false; }
      if heapEnd != |mem| || p + total > |mem| { return p, true; }
      ghost var data :| AllocStep(h, total, p, data, h.live + {p}, Model());
      mem := FillBytes(mem, p, 0, total);
      Cleared(h, total, p, data, Model());
      return p, false;
    }

    static lemma Cleared(h: Heap, total: nat, p: nat, data: seq<byte>, h': Heap)
      requires Inv(h) && |h'.mem| < WORD && 0 < total <= |data| == Round16(total) && p == |h.mem| + HEADER
      requires h' == Extended(h, Round16(total), data, h.live + {p}).(mem := h'.mem)
      requires h'.mem == Patch(h.mem + ToLittleEndian(Round16(total), 8) + data, p, seq<byte>(total, _ => 0))
      ensures CallocStep(h, total, p, h') && Inv(h')
    {
      FilledIn(h.mem, ToLittleEndian(Round16(total), 8), data, total);
      var zeroed := seq<byte>(total, _ => 0) + data[total..];
      assert AllocStep(h, total, p, zeroed, h.live + {p}, h');
      assert ZeroPrefix(zeroed, total);
      NewBlock(h, total, p, zeroed, h');
    }
  }

  // malloc(2^64 - 15) on a fresh heap with a willing kernel returns a pointer to a block of no bytes.
  method WrappedRequest(start: nat, image: seq<byte>, contents: nat -> byte) returns (heap: BumpHeap, p: nat)
    requires 0 < start == |image| < WORD - HEADER - 1
    ensures heap.Valid() && p == start + 8 && heap.chunks == [Chunk(start, 0)]
  {
    heap := new BumpHeap(start, image);
    p := heap.Malloc(WORD - 15, start + HEADER, contents);
  }

  // malloc(2^64 - 16) on a fresh heap asks for an address below it; the reply of a kernel that then
  // answers with the end it has is taken for a grant, and the block has no bytes either.
  method StrayRequest(start: nat, image: seq<byte>, contents: nat -> byte) returns (heap: BumpHeap, p: nat)
    requires HEADER <= start == |image| < WORD - 1
    ensures p == start + 8 == |heap.mem| && heap.chunks == [Chunk(start, WORD - 16)]
    ensures heap.heapEnd == start - 8
  {
    heap := new BumpHeap(start, image);
    assert Round16(WORD - 16) == WORD - 16 && !Room(heap.Model(), WORD - 16);
    p := heap.Malloc(WORD - 16, start, contents);
    assert (p + (WORD - 16)) % WORD == start - HEADER;
  }
}
