# LiwusOS: heaps and PNG codec, modelled and proved in Dafny

LiwusOS programs allocate from one of two user-space heaps, and its icons go through a small PNG
codec. This project models all three and proves what they promise. `dafny verify dfyconfig.toml` checks it.

**The libgloss heap** (`libgloss/syscalls.c`). A first-fit allocator over `_sbrk`. Block headers of
24 bytes lie in memory and form a linked list, and every `free` runs a coalescing pass.
`Libgloss.LibglossHeap` is that code over a byte memory: it loads and stores little-endian header
fields at addresses. `BlockList` says what each call does to the list of blocks, `HeaderWrites`
connects header stores to the list, `HeapRuns` proves that every run is a run of the common
specification `AllocSpec`, and `HeapLayout` proves facts about the list as a whole.

**The TCC heap** (`apps/tcc/tcc.c`). A bump allocator with 8-byte headers whose `free` does nothing.
`TccHeap.BumpHeap` is the code, `Arena` and `ArenaRuns` are its blocks and runs; it is proved
against the same `AllocSpec`. `TccArgs` is the argument rewriting in `main`.

**The PNG codec** (`scripts/convert_chicago95_icons.py`). `PngFilter` and `PngRows` undo the scanline
filters in place, `PngChunks` is the chunk loop, `PngGather` says what it makes of a file's chunks, `PngPlace` and `PngDecode` sample and place pixels,
`PngReadBack` proves that plain images of every color type are read back, `PngInterlace` is about the
pass table, `PngWriter` is `_write_png`, and `Resolve` follows pointer files.

## How the model stands to the code

- Memory is one byte sequence indexed by address that ends at the program break. A granted `brk`
  makes it longer, with arbitrary bytes in the new part. Everything below the heap is in the sequence
  too, and is proved untouched (`RunKeepsBelow`).
- Each call takes the kernel's answer to its `brk` as a parameter, so every theorem holds for every
  pattern of grants and refusals. For TCC the answer is the raw word that the code tests.
- A caller passes only pointers it holds, writes only inside its blocks, and nobody else moves the
  break.
- Arithmetic on sizes and breaks is written modulo 2^64 where the code computes it, and calls are
  modelled for all 64-bit sizes. Two things can wrap around: rounding the size up, and the sum that
  gives the new break. The kernel may well grant a break that wrapped around, since it is an ordinary
  address (`src/kernel/mm/vmm.c:283` even answers a break that is too low with the old one). malloc then
  hands out a block with a header and no memory (`StrayStep`), and the break is too low (`Asked`).
- `Step` is a call whose stores all stay inside the memory granted and inside the block they are meant
  for. `Overruns` is any other call that the code can make, up to the store that leaves its place, with
  the in-place branch of the TCC `realloc`. `Call` is either. `CallExact` says, by a condition on the heap
  before the call, which of the two a call is.
- A run is a sequence of `Step`s from a fresh heap. `RunGoesOn` says exactly with which calls a run goes
  on. Nothing is claimed about a program that goes on after an overrun.
- `AllocSpec.Next` is what holds of every step; `AllocSpec.Serves` says in addition that the block is as
  large as asked for, and `CallServes` gives the exact condition for that, over all calls.
- The TCC code takes every reply to `brk` for a grant that is not -1 and not below the old heap end,
  even one equal to it. The model takes each such reply to have mapped the whole request, if the
  request did not wrap around.
- A header that lies across the very end of the 64-bit address space is stored at the addresses past it.
- `zlib` and the checksum are function parameters. The decoder never looks at checksums.
- A Python exception is an `Err` with its cause; `None` entries of the pixel list are `None`.

## Where the code and its documentation differ

- README.md:1587 says that the TCC heap grows the last block in place. The test for that compares
  with the wrong address: it holds of a block exactly when the last block follows it and is empty
  (`TestsInPlaceExactly`), never of the last block itself. Blocks are empty only after a request that
  wrapped around (`WrapTestsInPlace`), so in every other run the test fails for every block
  (`NeverExpandsInPlace`) and every successful `realloc` of a block moves. Where the test does hold, the
  block grows over the header of the next one (`InPlaceCovers`, `InPlaceLetsIn`).
- README.md:1589 says that TCC allocations are 16-byte aligned. Sizes are; with the 8-byte header only
  every second payload is (`PayloadAlignment`).
- The interlace table's last entry takes every pixel instead of the odd rows. Section 2.6 of RFC 2083
  gives (0, 1, 1, 2). The first six passes are then overwritten (`SixPassesLost`), and a conforming
  interlaced image decodes if and only if it has no pixels (`ConformingInterlacedDecodes`).
- In gray and RGB images tRNS names one color that is transparent (section 4.2.9 of RFC 2083). The
  decoder reads the chunk and gives that color alpha 255 all the same (`KeyIgnored`). A sample is that
  of the standard if and only if it does not have that color (`SampleMeans`, `AnyEncoderReadsBack`).
- `malloc` of one of the seven largest sizes rounds to 0 and may hand out a block that is too small
  (`WrappedRequest`); in the TCC heap these are the fifteen largest. Where no free block fits, other
  sizes fail too: on a fresh heap `malloc(2^64 - 16)` asks for 8 bytes, gets them, and returns a pointer
  16 bytes past them (`StrayRequest`). The block holds the request if and only if the size is at most
  2^64 - 8 and a free block fits or the new break is below 2^64 (`CapacityMeetsRequest`, `CallServes`).
- `calloc` does not look for overflow (`CallocOverflows`); it serves count * size bytes under the same
  condition on the product (`CallServes`). `realloc` may copy past the new block (`CopyOverrunsHere`);
  `ReallocCopyFits` says exactly when.

## Model

| member | source | states |
|---|---|---|
| AllocSpec.NeverOverlap | libgloss/syscalls.c:250-277 | in every run of the client interface that starts with nothing held, held blocks never overlap |
| AllocSpec.OwnerReadsOwnWrites | libgloss/syscalls.c:250-277 | a block not given back, failed reallocs included, stays held at full capacity and holds exactly its owner's stores, whatever else the run does |
| AllocSpec.OwnerReadsFrom | libgloss/syscalls.c:250-277 | the same between any two points of a run |
| AllocSpec.CallocComposes | libgloss/syscalls.c:272-277 | malloc followed by a zero fill meets the specification of calloc, and serves the request when the product did not wrap |
| AllocSpec.ReallocComposes | libgloss/syscalls.c:259-270 | malloc, copy of min(capacity, size) bytes, free meets the specification of realloc |
| AllocSpec.FreesDrain | libgloss/syscalls.c:252 | what is still held after a series of frees is what was held and not freed |
| Bytes.LittleEndianRoundTrip | libgloss/syscalls.c:193-197 | a header field of any width reads back as it was stored |
| Bytes.BigEndianRoundTrip | scripts/convert_chicago95_icons.py:225-228 | struct.pack and struct.unpack of a big-endian integer are inverse |
| Bytes.LittleEndianParts | libgloss/syscalls.c:193-197 | what a stored field means: of two parts side by side the second counts for 256 to the length of the first, in every width |
| Bytes.BigEndianParts | scripts/convert_chicago95_icons.py:62 | what a packed integer means: of two parts side by side the first counts for 256 to the length of the second, in every width |
| Bytes.CopyBytes | libgloss/syscalls.c:49-54 | the byte loop of memcpy writes the n source bytes to the destination and changes nothing else |
| Bytes.FillBytes | libgloss/syscalls.c:56-60 | the byte loop of memset writes n copies and changes nothing else |
| BlockList.BreakRequestExact | libgloss/syscalls.c:203-216 | in 64-bit arithmetic the break asked of _sbrk is the old one plus header plus rounded size if and only if that is below 2^64, otherwise it leaves no room for the header; it leaves room for the size asked for if and only if, besides, that is at most 2^64 - 8 |
| BlockList.MallocKeepsInv | libgloss/syscalls.c:201-231 | malloc of any size, in all outcomes but the stray one, keeps tiling, alignment, headers and "no two neighbouring free blocks" |
| BlockList.WriteKeepsInv | libgloss/syscalls.c:193-197 | a store inside a live block changes no header |
| BlockList.MallocGives | libgloss/syscalls.c:201-231 | the new block is in the list with room for the rounded size, at another place than every block held before, which all stay where they were |
| HeaderWrites.RetagSound | libgloss/syscalls.c:207-209 | storing the free flag changes that one block in the list and no live byte |
| HeaderWrites.StoreMerge | libgloss/syscalls.c:242-243 | the two stores of a coalescing step, with the values read from memory, touch one header only and make it that of the joined block |
| HeaderWrites.MergeSound | libgloss/syscalls.c:241-243 | after those stores the list in memory is the old one with two blocks joined, and every live byte is as before |
| HeaderWrites.GrowStep | libgloss/syscalls.c:214-230 | for any size, the header stores of a new block and the link from the last one are a step of malloc that keeps the whole invariant when the break has room, and the stray outcome when it wrapped around; every old block and header is kept in both |
| Libgloss.LibglossHeap.Sbrk | libgloss/syscalls.c:183-190 | on refusal nothing changes; on a grant the break moves by the increment modulo 2^64, and memory keeps its old part and reaches to the higher of both breaks |
| Libgloss.LibglossHeap.FindFit | libgloss/syscalls.c:205-212 | the walk over headers in memory finds the first free block that is large enough, or shows that there is none |
| Libgloss.LibglossHeap.LinkLast | libgloss/syscalls.c:226-228 | the walk to the end links the new block behind the last one |
| Libgloss.LibglossHeap.MallocImpl | libgloss/syscalls.c:201-231 | for every 64-bit size and every answer memory and list change as one of: first fit taken, block added at the break, nothing with NULL, or, exactly when no block fits and the granted break wrapped around, a stray block; NULL exactly for size 0 or when no block fits and the break is refused |
| Libgloss.LibglossHeap.Coalesce | libgloss/syscalls.c:239-247 | from any sound list the single pass ends with no two neighbouring free blocks, the same live blocks and all their bytes |
| Libgloss.LibglossHeap.FreeImpl | libgloss/syscalls.c:233-248 | the block is free and merged with its neighbours; every other live block and its bytes are as before |
| Libgloss.LibglossHeap.Malloc | libgloss/syscalls.c:251 | one malloc step of the specified heap for every 64-bit size and every answer of the kernel, unless the granted break wrapped around; NULL exactly as in malloc_impl |
| Libgloss.LibglossHeap.Free | libgloss/syscalls.c:252 | one free step of the specified heap |
| Libgloss.LibglossHeap.Realloc | libgloss/syscalls.c:259-270 | malloc, copy, coalescing free; on failure nothing changes; size 0 frees; NULL allocates; for every size, with the exact condition under which a store leaves its block, and for NULL |
| Libgloss.LibglossHeap.Calloc | libgloss/syscalls.c:272-277 | a block whose first bytes, as many as count * size in 64-bit arithmetic, are zero, also when a used block is taken again; for every product, with the exact condition under which the fill leaves the block, and for NULL |
| Libgloss.WrappedRequest | libgloss/syscalls.c:201-231 | malloc(2^64 - 7) on a fresh heap returns a pointer, and its block has no bytes |
| Libgloss.StrayRequest | libgloss/syscalls.c:201-231 | malloc(2^64 - 16) on a fresh heap moves the break by 8 and returns a pointer 24 above the old break, to a block whose header says 2^64 - 16 |
| HeapRuns.MallocRefines | libgloss/syscalls.c:201-231 | a block returned by malloc, other than a stray one, is clear of all held blocks, has at least the rounded size, and leaves their bytes alone |
| HeapRuns.FreeRefines | libgloss/syscalls.c:233-248 | free takes exactly the freed block from the client's view, bytes of all others included |
| HeapRuns.MoveRefines | libgloss/syscalls.c:259-270 | realloc keeps the first min(capacity, size) bytes through malloc, copy and coalescing free |
| HeapRuns.CallocRefines | libgloss/syscalls.c:272-277 | calloc's bytes are zero in the client's view, and the block holds count * size bytes if and only if that is at most 2^64 - 8 and a block fits or there is room for one |
| HeapRuns.StepRefines | libgloss/syscalls.c:201-277 | every call that stays inside its block keeps the heap invariant and is a step of the common specification |
| HeapRuns.CallServes | libgloss/syscalls.c:201-277 | over all calls, overruns included: a call that did not fail gave all the bytes asked for, zeroed for calloc, if and only if it asked for at most 2^64 - 8 and a free block fits or the new break is below 2^64 |
| HeapRuns.StrayHoldsNothing | libgloss/syscalls.c:214-230 | a stray block has no bytes for the client, and the heap invariant is lost |
| HeapRuns.RunKeepsInv | libgloss/syscalls.c:183-277 | every heap of every run is tiled in list order from base to break, aligned to 8, encoded in memory and coalesced |
| HeapRuns.RunRefines | libgloss/syscalls.c:201-277 | every run, for all answers of the kernel, is a run of the common specification, as long as every call stays inside its block |
| HeapRuns.RunServes | libgloss/syscalls.c:201-277 | the same for every call that can be made at any point of any run |
| HeapRuns.RunKeepsBelow | libgloss/syscalls.c:183-277 | no run changes a byte below the heap |
| HeapRuns.ClientSafety | libgloss/syscalls.c:201-277 | on real memory: held blocks are apart and hold what their owners stored, between any two points of any run |
| HeapLayout.Canonical | libgloss/syscalls.c:238-247 | two tilings with the same live blocks and no neighbouring free blocks are equal: coalescing has one possible outcome |
| HeapLayout.SameHoldingsSameList | libgloss/syscalls.c:201-248 | heaps of any two runs with the same break and the same held pointers and capacities have the same block list |
| HeapLayout.FreesCommute | libgloss/syscalls.c:233-248 | freeing two blocks in either order gives the same list |
| HeapLayout.FullRecovery | libgloss/syscalls.c:201-248 | after any run, freeing every held block in any order leaves one free block from base to break, or a heap never grown |
| HeapLayout.RecoveredServes | libgloss/syscalls.c:201-231 | such a heap serves a request without moving the break if and only if the rounded size and one header fit |
| HeapLayout.MergedCovers | libgloss/syscalls.c:238-247 | after coalescing a free block surrounds each block that was free |
| HeapLayout.FreedRoomReused | libgloss/syscalls.c:201-248 | right after a free, a request no larger than the freed block succeeds without moving the break |
| HeapLayout.LowestFit | libgloss/syscalls.c:205-230 | malloc serves the lowest fitting block; only when there is none it grows, by exactly header plus rounded size, or fails with nothing changed |
| HeapLayout.CallExact | libgloss/syscalls.c:201-277 | a call of the code keeps its stores inside granted memory and its own block if and only if it fails or meets a condition on sizes and free blocks before the call |
| HeapLayout.RunGoesOn | libgloss/syscalls.c:201-277 | a run goes on with a call if and only if the call fails or meets that condition |
| HeapLayout.CapacityMeetsRequest | libgloss/syscalls.c:203-209 | the block holds the request, in granted memory, if and only if the size is at most 2^64 - 8 and a free block fits or the new break is below 2^64 |
| HeapLayout.HugeRequest | libgloss/syscalls.c:201-231 | every successful malloc(2^64 - 7) on a fresh heap makes a block list of one empty block |
| HeapLayout.ReallocCopyFits | libgloss/syscalls.c:259-270 | the bytes that realloc copies fit the new block if and only if the size is at most 2^64 - 8, or the old block is empty, or the first free block there is holds as many |
| HeapLayout.CopyOverrunsHere | libgloss/syscalls.c:259-270 | with one block of 8 bytes held and none free, realloc to 2^64 - 7 copies 8 bytes into an empty block |
| HeapLayout.CallocOverflows | libgloss/syscalls.c:272-275 | calloc(2^32 + 1, 2^32) computes a total of 2^32 |
| HeapLayout.NothingLost | libgloss/syscalls.c:193-248 | in every heap of every run headers and sizes add up to break minus base, and the header before each held pointer says its capacity and "in use" |
| HeapLayout.PayloadsClear | libgloss/syscalls.c:193-248 | in every heap of every run a held payload meets no header and no other block |
| TccHeap.BumpHeap.Bump | apps/tcc/tcc.c:58-69 | a block of any capacity is appended behind all old memory, which does not change; without its memory exactly when the request wrapped around; NULL exactly when the reply is 2^64 - 1 or below the old heap end |
| TccHeap.BumpHeap.Malloc | apps/tcc/tcc.c:113-115 | one malloc step of the specified heap for every 64-bit size, unless the granted request wrapped around; NULL, with nothing changed, exactly for size 0 or a reply that is 2^64 - 1 or below the heap end |
| TccHeap.BumpHeap.Free | apps/tcc/tcc.c:116-118 | the pointer is forgotten and no byte changes |
| TccHeap.BumpHeap.Realloc | apps/tcc/tcc.c:48-110 | a fresh block with the old bytes, or the in-place branch where its test holds; size 0 gives the pointer back unchanged; for other sizes NULL, with nothing changed, exactly for a reply that is 2^64 - 1 or below the heap end; with the exact condition under which a store leaves its block |
| TccHeap.BumpHeap.GrowInPlace | apps/tcc/tcc.c:80-88 | the branch stores the new capacity in the header, moves the heap end to the reply and changes no other old byte; NULL, with nothing changed, exactly for a reply that is 2^64 - 1 or below the heap end |
| TccHeap.BumpHeap.Calloc | apps/tcc/tcc.c:122-130 | a fresh block whose first bytes, as many as count * size in 64-bit arithmetic, are zero; for every product, with the exact condition under which the fill leaves the block; NULL, with nothing changed, exactly when the product is 0 or the reply is 2^64 - 1 or below the heap end |
| TccHeap.WrappedRequest | apps/tcc/tcc.c:48-70 | malloc(2^64 - 15) on a fresh heap returns a pointer, and its block has no bytes |
| TccHeap.StrayRequest | apps/tcc/tcc.c:48-70 | malloc(2^64 - 16) on a fresh heap, answered with the old heap end, returns a block without memory and moves the heap end down |
| Arena.ExtendInv | apps/tcc/tcc.c:62-69 | adding a block keeps the tiling, all headers and the alignment phase |
| Arena.StepRefines | apps/tcc/tcc.c:48-130 | every call that stays inside its block and does not grow in place keeps the heap invariant and is a step of the common specification |
| Arena.CallocRefines | apps/tcc/tcc.c:122-130 | calloc's bytes are zero in the client's view, and the block holds count * size bytes if and only if that is at most 2^64 - 16 and there is room for a block |
| Arena.RequestExact | apps/tcc/tcc.c:62-63 | in 64-bit arithmetic the heap end asked for is above the old one, by header and rounded size, if and only if that is below 2^64 |
| Arena.Round16Holds | apps/tcc/tcc.c:51 | the rounded size is a multiple of 16, at least the size exactly when that is at most 2^64 - 16, and then less than 16 above it |
| Arena.CallServes | apps/tcc/tcc.c:48-130 | over all calls, overruns included, but the in-place branch: a call that did not fail gave all the bytes asked for, zeroed for calloc, if and only if it asked for at most 2^64 - 16 and the new heap end is below 2^64 |
| Arena.StrayHoldsNothing | apps/tcc/tcc.c:62-69 | a block whose request wrapped around has no bytes for the client, and the heap invariant is lost |
| ArenaRuns.RunKeepsInv | apps/tcc/tcc.c:46-110 | in every heap of every run of calls that stay inside their blocks, the blocks tile from the first break to the heap end with their capacities in the words before them |
| ArenaRuns.RunRefines | apps/tcc/tcc.c:48-130 | every such run, for all answers of the kernel, is a run of the common specification |
| ArenaRuns.RunServes | apps/tcc/tcc.c:48-130 | the same as CallServes for every call that can be made at any point of any run |
| ArenaRuns.CallExact | apps/tcc/tcc.c:48-130 | a call of the code keeps its stores inside granted memory and its own block, and does not grow in place, if and only if it fails or meets a condition on sizes and headers before the call |
| ArenaRuns.RunGoesOn | apps/tcc/tcc.c:48-130 | a run goes on with a call if and only if the call fails or meets that condition |
| ArenaRuns.RunKeepsBelow | apps/tcc/tcc.c:46-130 | no run changes a byte below the heap |
| ArenaRuns.ClientSafety | apps/tcc/tcc.c:48-130 | on real memory: held blocks are apart and hold what their owners stored, between any two points of any such run |
| ArenaRuns.TestsInPlaceExactly | apps/tcc/tcc.c:77-80 | in 64-bit arithmetic the expand-in-place test holds of a block if and only if the last block comes right after it and is empty |
| ArenaRuns.WrapTestsInPlace | apps/tcc/tcc.c:51-80 | after malloc(n) and malloc(2^64 - 15) it does hold of the first block |
| ArenaRuns.InPlaceRewrites | apps/tcc/tcc.c:80-88 | growing in place changes the capacity word, is never a step of the common specification, and serves the client if and only if the size is at most 2^64 - 16 and the reply left memory for it |
| ArenaRuns.InPlaceCovers | apps/tcc/tcc.c:77-88 | a block that grows in place takes in the header of the empty block behind it |
| ArenaRuns.InPlaceLetsIn | apps/tcc/tcc.c:77-88 | a store by its owner inside the block then sets the other block's capacity to any value |
| ArenaRuns.ReallocCopyFits | apps/tcc/tcc.c:72-108 | the bytes that realloc copies fit the new block if and only if the size is at most 2^64 - 16 or the old block is empty |
| ArenaRuns.NeverExpandsInPlace | apps/tcc/tcc.c:77-80 | in every run that never asked for more than 2^64 - 16 bytes the test is false for every block of every heap |
| ArenaRuns.ReallocMoves | apps/tcc/tcc.c:72-110 | a successful realloc returns a block past all old memory that starts with the old bytes; no old byte changes |
| ArenaRuns.CapacityForever | apps/tcc/tcc.c:65-68 | the word before any pointer ever returned keeps its capacity for the rest of the run, as long as no block grows in place |
| ArenaRuns.PayloadAlignment | apps/tcc/tcc.c:51-68 | the k-th block starts at base + 8k modulo 16, so over an aligned base a payload is 16-byte aligned if and only if k is odd |
| TccArgs.NeedStatic | apps/tcc/tcc.c:228-232 | true exactly when no argument after the program name is -c, -S or -E |
| TccArgs.Rewrite | apps/tcc/tcc.c:227-245 | the new vector of 32 slots is the longest fitting prefix of program name, optional -static in slot 1 and arguments, NULL-terminated in bounds with no unset slot; nothing is dropped if and only if argc is at most 30 (31 without -static) |
| PngFilter.PaethIsNearest | scripts/convert_chicago95_icons.py:113-115 | the chosen byte is the one, and the only one, nearest to a + b - c with ties in the order left, up, up-left |
| PngFilter.ReconReconstructs | scripts/convert_chicago95_icons.py:98-116 | the left-to-right computation gives at every byte the filtered byte plus the prediction from bytes already undone |
| PngFilter.SectionSix | scripts/convert_chicago95_icons.py:98-116 | the equations of section 6 of RFC 2083 in plain arithmetic, at every byte and for every type: plus left, plus up, plus half their sum rounded down, plus the nearest of three, modulo 256, with 0 outside the image |
| PngFilter.ReconPrefix | scripts/convert_chicago95_icons.py:98-116 | undoing the first bytes of a line does not depend on the others |
| PngFilter.ReconUnique | scripts/convert_chicago95_icons.py:98-116 | those equations have one solution |
| PngFilter.ReconAfterFilter | scripts/convert_chicago95_icons.py:98-116 | undoing any filter after applying it is the identity, for every width and pixel size |
| PngFilter.FilterAfterRecon | scripts/convert_chicago95_icons.py:98-116 | applying any filter after undoing it is the identity |
| PngFilter.UnfilterSub | scripts/convert_chicago95_icons.py:98-100 | the in-place loop, which starts at bpp, computes the reconstruction for type 1 |
| PngFilter.UnfilterUp | scripts/convert_chicago95_icons.py:101-103 | the in-place loop computes the reconstruction for type 2 |
| PngFilter.UnfilterAverage | scripts/convert_chicago95_icons.py:104-107 | the in-place loop computes the reconstruction for type 3 |
| PngFilter.UnfilterPaeth | scripts/convert_chicago95_icons.py:108-116 | the in-place loop computes the reconstruction for type 4 |
| PngFilter.Unfilter | scripts/convert_chicago95_icons.py:98-118 | the line is reconstructed for types 0 to 4, and every other type is an error |
| PngRows.DecodePass | scripts/convert_chicago95_icons.py:89-121 | the loop that eats rows off the data gives exactly the specified rows, rest and errors |
| PngRows.DecodeAfterEncode | scripts/convert_chicago95_icons.py:89-121 | rows written with any mix of filter types decode to themselves and use up exactly their bytes |
| PngRows.EncodeAfterDecode | scripts/convert_chicago95_icons.py:89-121 | full rows that decode were written with some filter types, and encoding with those gives the data back |
| PngRows.RowsStop | scripts/convert_chicago95_icons.py:92-118 | after any number of full rows, data that has ended, an unknown filter type or a cut row that is not the last gives its error |
| PngRows.ShortRow | scripts/convert_chicago95_icons.py:92-120 | a last row that is cut off gives the first bytes of its line and leaves no data |
| PngChunks.ParseChunks | scripts/convert_chicago95_icons.py:56-79 | the chunk loop ends, and gathers what the recursive reading of the file does, errors included |
| PngChunks.ParseSerialized | scripts/convert_chicago95_icons.py:61-79 | on a file made of well-formed chunks the loop has the effect of the chunk list up to IEND, and any bytes may follow once there is an IEND |
| PngChunks.PaletteReadsBack | scripts/convert_chicago95_icons.py:69-70 | the three strided slices zipped together give back the palette; stray bytes at the end are ignored |
| PngChunks.TriplesAt | scripts/convert_chicago95_icons.py:70 | entry i of the palette is bytes 3i, 3i + 1 and 3i + 2, and there are a third as many as bytes |
| PngChunks.PairsAt | scripts/convert_chicago95_icons.py:75 | transparency value i is 256 times byte 2i plus byte 2i + 1, and there are half as many as bytes |
| PngChunks.ValuesReadBack | scripts/convert_chicago95_icons.py:74-75 | 16-bit transparency values unpack to what was packed |
| PngChunks.FramingIrrelevant | scripts/convert_chicago95_icons.py:66-79 | the outcome depends only on the IHDR, PLTE and tRNS chunks before IEND and on the joined IDAT data |
| PngChunks.SameContentParsesAlike | scripts/convert_chicago95_icons.py:61-79 | two files that agree on those parse alike, whatever the cutting into IDATs, other chunks, checksums or bytes after IEND |
| PngGather.TagNames | scripts/convert_chicago95_icons.py:66-78 | the five tags are the ASCII texts IHDR, PLTE, tRNS, IDAT and IEND |
| PngGather.HeaderFields | scripts/convert_chicago95_icons.py:66-68 | where width, height, depth, color type and interlacing lie in any 13 bytes |
| PngGather.Gathers | scripts/convert_chicago95_icons.py:56-79 | any chunks that are all acceptable set header and palette to those of the last IHDR and PLTE, transparency to that of the last tRNS as the IHDR before it has it read, and the data to all IDATs joined |
| PngGather.GatherFails | scripts/convert_chicago95_icons.py:66-75 | the first IHDR that is not 13 bytes, or tRNS of odd length without a palette type in force, is the error, whatever follows |
| PngGather.FileGathers | scripts/convert_chicago95_icons.py:56-79 | the same for the bytes of a whole file, with anything after IEND |
| PngGather.ImageGathers | scripts/convert_chicago95_icons.py:56-79 | a file with an IHDR and, where given, PLTE and tRNS as RFC 2083 packs them, and any IDATs and other chunks, parses to exactly that header, palette, transparency and joined data, for palette and other color types |
| PngGather.CutFile | scripts/convert_chicago95_icons.py:61-79 | a file that ends inside a chunk: fewer than four bytes of it are an error, without the whole tag nothing happens, else the data that is there counts |
| PngDecode.FramingKeepsImage | scripts/convert_chicago95_icons.py:53-147 | such files decode to the same image or the same error |
| PngDecode.DrawLine | scripts/convert_chicago95_icons.py:145-146 | one line of samples is written to its row, or the first bad sample is the error |
| PngDecode.DrawPass | scripts/convert_chicago95_icons.py:144-146 | the nested loops write all samples of a pass, or fail |
| PngDecode.RunPasses | scripts/convert_chicago95_icons.py:139-146 | the passes run one after the other on what is left of the data; passes without pixels are skipped |
| PngDecode.DecodePng | scripts/convert_chicago95_icons.py:53-147 | the whole decoder gives the specified image or error for every byte sequence |
| PngDecode.HeaderErrors | scripts/convert_chicago95_icons.py:81-82 | data that does not inflate is the first error after the chunks, a missing header or a color type other than 0, 2, 3, 4 and 6 the second, and no other file gives either |
| PngDecode.SampleFails | scripts/convert_chicago95_icons.py:123-137 | a sample fails exactly where its bytes or its palette entry are missing, except that RGBA gives the bytes there are |
| PngDecode.StandardStride | scripts/convert_chicago95_icons.py:82-83 | for every depth and color type of RFC 2083 bpp is the bits of a pixel in bytes, rounded up |
| PngPlace.CountExact | scripts/convert_chicago95_icons.py:140-141 | the rounded-up divisions count exactly the positions of the pass inside the image |
| PngPlace.RowsHit | scripts/convert_chicago95_icons.py:144-146 | every sample of a pass ends up in bounds at the position that the pass table gives |
| PngPlace.RowsMiss | scripts/convert_chicago95_icons.py:144-146 | every position outside the pass keeps its pixel |
| PngInterlace.SixPasses | scripts/convert_chicago95_icons.py:86-87 | the first six passes share no position and together hold exactly the even rows |
| PngInterlace.OddRowsMissing | scripts/convert_chicago95_icons.py:84-146 | when the first six passes have run, a pixel is still None if and only if its row is odd |
| PngInterlace.SixPassesLost | scripts/convert_chicago95_icons.py:86-87 | an interlaced image decodes to what a plain one with the data left by the first six passes would |
| PngInterlace.RowsConsume | scripts/convert_chicago95_icons.py:92-96 | rows that decode used exactly their bytes, and all but the last were there in full |
| PngInterlace.ConformingInterlacedDecodes | scripts/convert_chicago95_icons.py:81-147 | data of at most the size that section 2.6 of RFC 2083 prescribes for whole bytes, so every conforming image, decodes if and only if the image has no pixels |
| PngReadBack.SampleMeans | scripts/convert_chicago95_icons.py:123-137 | a sample is the pixel of RFC 2083 if and only if it is not the gray or RGB color that tRNS makes transparent |
| PngReadBack.KeyIgnored | scripts/convert_chicago95_icons.py:71-75 | a gray pixel v reads [v, v, v, 255] although a tRNS chunk with the value v was parsed, where the standard gives alpha 0 |
| PngReadBack.LineMeans | scripts/convert_chicago95_icons.py:123-137 | every sample of a line is the color its bytes mean for the color type, with the alpha of the standard unless the pixel has the tRNS color of a gray or RGB image |
| PngReadBack.AnyEncoderReadsBack | scripts/convert_chicago95_icons.py:81-147 | an 8-bit plain image of any color type, written with any choice of filters, decodes and uses up exactly its bytes; its pixels are those of the standard if and only if none has the tRNS color |
| PngReadBack.FileReadsBack | scripts/convert_chicago95_icons.py:53-147 | the same for a whole file whose chunks parse and whose data inflates to such rows: width, height and every pixel |
| PngReadBack.ImageReadsBack | scripts/convert_chicago95_icons.py:53-147 | from the chunks on: such a file of any color type decodes to width, height and every pixel, those of the standard if and only if none has the tRNS color |
| PngReadBack.PaletteImage | scripts/convert_chicago95_icons.py:53-147 | a palette file reads back each pixel as its PLTE color and its tRNS value, or 255 past the end of tRNS |
| PngWriter.WriteRows | scripts/convert_chicago95_icons.py:229-233 | the row loop writes filter byte 0 and the row's bytes, top to bottom |
| PngWriter.WritePng | scripts/convert_chicago95_icons.py:225-239 | there is a file exactly when width, height and data length are below 2^32; byte for byte it is the signature and IHDR, IDAT and IEND with length, tag, data and the checksum of tag and data, and the 13 header bytes for 8-bit RGB |
| PngGather.HeaderReadsBack | scripts/convert_chicago95_icons.py:66-68 | an IHDR with any fields unpacks to those fields |
| PngWriter.RawIsEncoded | scripts/convert_chicago95_icons.py:229-233 | the writer's rows are those of an encoder that uses filter type 0 throughout |
| PngWriter.DataReadBack | scripts/convert_chicago95_icons.py:81-147 | the writer's rows are h * (1 + 3w) bytes; the decoder reads every pixel of the image from them and leaves no byte; rows of width 0 are not read at all |
| PngWriter.WriteThenRead | scripts/convert_chicago95_icons.py:225-239 | decoding a written file gives width, height and every pixel with alpha 255, for every image |
| Resolve.ResolvePointer | scripts/convert_chicago95_icons.py:39-50 | the loop ends on every finite set of files; it returns the PNG on the chain exactly when one is reached, and fails to open exactly the missing file reached; every other chain is a ValueError. The files opened are given: each but the last is at most 4096 bytes, does not start like a PNG and points to the next, and none but the last is opened twice |
| Resolve.IsPngExactly | scripts/convert_chicago95_icons.py:44 | a file is taken for a PNG exactly when it has 8 bytes and starts with the first two of the signature that the writer writes |
| Resolve.ResolveWritten | scripts/convert_chicago95_icons.py:39-50 | a file that the writer made is found at its own path, whatever else is on the disk |
| Resolve.OneEnd | scripts/convert_chicago95_icons.py:42-50 | a chain of pointers stops in at most one place |
| Resolve.LoopNeverEnds | scripts/convert_chicago95_icons.py:46-48 | a chain that comes back to a path never reaches a place to stop |

## Left out

- Libgloss.LibglossHeap.Realloc: where the copy leaves the new block, or malloc handed out a stray one, the model stops after malloc; what the stray stores hit is not modelled. The same holds for the fill of Calloc.
- TccHeap.BumpHeap.Realloc: where the copy leaves the new block, or its request wrapped around, the model stops once the block is made; the same holds for the fill of Calloc.
- What a program does after an overrun or after growing in place: a run ends with such a call.
- The public `sbrk` used by applications between calls: it would break the contiguity that coalescing relies on.
- `__libc_init_malloc_arena`, debug output and the compiler itself in `apps/tcc/tcc.c`.
- The `_r` variants of the TCC allocator: they repeat malloc, free, realloc and calloc.
- Syscall wrappers and stubs in `libgloss/syscalls.c`, and the kernel behind them (page mapping, scheduler, file systems, network): foreign calls or separate subsystems.
- `to_argb`, the generated C header and the contact sheet: they would only add easy members.
- Deflate and CRC: library code, taken as parameters.
- Path decoding, joining and normalizing in `resolve`: one function parameter.
- PNG depths other than 8: the decoder is modelled as it computes for any depth, but no claim is made that its samples are then the intended ones.
- Resolve.ResolvePointer: a file that cannot be read for another reason than being absent is not told apart from an absent one.
