# libinac-ce core, modelled in Dafny

This project models five parts of the libinac-ce C runtime as pure Dafny functions over immutable data, and proves properties of them.

- **Result codes** (`result_codes.dfy`, `error_text.dfy`). A result code is a 64-bit word. From the top bit down it holds:
  - an error flag;
  - a version and a revision;
  - errno;
  - eight user bits;
  - an adjective, a negate bit and a subject.

  The model covers packing, the accessors, clearing and the user bits. It also covers the word selection of `ina_err_strerror`: the noun, the negation word and the adjective, and the order they are printed in.
- **Chunked bump arena** (`align.dfy`, `mempool.dfy`).
  - A pool is a chain of chunks, head first. Each chunk has a size, a front cursor `pos` and a back cursor `end`.
  - The pool also keeps the index of the `current` chunk.
  - `dalloc` allocates from the front and `nalloc` from the back. `ralloc` resizes the last front block of the head chunk.
  - Also modelled: `info`, `reset`, `clear`, `merge`, and pool creation.
  - Sizes are 64-bit `size_t`. Wrap-around is written out where the code can wrap.
- **Dynamic strings** (`dyn_string.dfy`, `wildcard.dfy`).
  - A string is its content bytes, its reserved size, and a tag saying whether it lives on the heap or in a pool.
  - Operations modelled: the constructors, copy and append, comparison, case flipping, truncate, trim, substrings, `split`, the `tok` tokenizer, the search wrappers and the `*`/`?` wildcard matcher.
- **Doubly linked list** (`list.dfy`, `list_sort.dfy`).
  - Nodes live in a map from addresses to `{next, prev, data}`. A list header and that map describe a sequence of node addresses.
  - Modelled: insertion at either end, removal, the stack of recycled nodes, `foreach`, `find`, `tail`, `concat`, and the recursive merge sort.
- **Command-line scanner** (`options.dfy`): how `ina_app_init` cuts each argument into an option name and an inline value, looks the name up, and records values. Also `ina_opt_isset`.

The library keeps the last result code in a thread-local variable. Here every operation returns its code instead. Sizes of memory blocks are explicit. A NULL pointer argument is `None` wherever the code tests for NULL.

Where the code and the library's description of itself disagree, the model follows the code:
- `ina_list_foreach` returns the callback's code for the last element when no callback fails, not `SUCCESS`.
- `ina_list_pop_data` reads the first element without removing it.
- `ina_str_rchr` never finds the terminator.
- `ina_mempool_reset` leaves every `end` cursor where it was.

The `*AsWritten` members model code that is defective as written. The member of the same name without that suffix is the corrected version, which the rest of the model uses. See "## Findings".

## Model

| member | source | states |
|---|---|---|
| MemAlign.Align | include/libinac-ce/memory.h:45-48 | The result is a multiple of 16, at least `n` and less than `n + 16`. When `n + 15` overflows `size_t`, the result is 0. |
| MemAlign.GetAlignedSize | include/libinac-ce/memory.h:82-85 | The result is a multiple of 16 within 16 above the query, absent overflow. |
| MemAlign.ClearLowBits | include/libinac-ce/memory.h:48 | Masking off the low four bits rounds down to the nearest multiple of 16. |
| MemAlign.AlignFixesAligned | include/libinac-ce/memory.h:48 | An already aligned size is returned unchanged. |
| MemAlign.AlignIdempotent | include/libinac-ce/memory.h:48 | Aligning twice is aligning once. |
| MemAlign.GetAlignedSizeIsAlign | include/libinac-ce/memory.h:82-85 | The inline function equals the macro on every input. |
| MemAlign.AlignIsLeastMultiple | include/libinac-ce/memory.h:48 | The aligned size is the least multiple of 16 not below `n`. |
| MemAlign.AlignMonotone | include/libinac-ce/memory.h:48 | Alignment is monotone below the overflow point. |
| ResultCodes.Adjective | include/libinac-ce/error.h:40-45 | An adjective code reads back its adjective, with no subject, no negation and no error flag. |
| ResultCodes.Negate | include/libinac-ce/error.h:49 | A `NOT_` code sets the negate bit and keeps the adjective, the subject and the error flag. |
| ResultCodes.Pack | include/libinac-ce/error.h:570-578 | A packed code always fails. |
| ResultCodes.Raise | include/libinac-ce/error.h:577-591 | `INA_ERROR(x)` always yields a failing code. |
| ResultCodes.PackRoundTrip | include/libinac-ce/error.h:25-45 | The accessors recover the adjective, the negate flag, the subject and the low 16 bits of errno from a packed code. They find the error flag set and no user bits. |
| ResultCodes.PackVersionRoundTrip | include/libinac-ce/error.h:34-37 | Version, revision and errno read back exactly when each fits its field. |
| ResultCodes.ClearRc | include/libinac-ce/error.h:510-513 | The cleared code succeeds, and only the error flag can differ from the input. |
| ResultCodes.ClearRcIdempotent | include/libinac-ce/error.h:510-513 | Clearing twice is clearing once, and a succeeding code is left alone. |
| ResultCodes.SetUBits | include/libinac-ce/error.h:536-539 | Exactly bits 24..31 are replaced, and they read back as the given byte. |
| ResultCodes.GetUBits | include/libinac-ce/error.h:551-554 | Returns the user-bits field. |
| ResultCodes.UBitsRoundTrip | include/libinac-ce/error.h:536-554 | Get after set returns the bits set, and setting user bits does not change failure. |
| ResultCodes.CompositeCodes | include/libinac-ce/error.h:432-436 | `INVALID` is `NOT_VALID` and `POOL_FULL` is `FULL` on the pool subject. `INVALID_ARGUMENT`, `OUT_OF_MEMORY` and `OPERATION_INVALID` decode to their words. |
| ResultCodes.NegatedAdjectives | include/libinac-ce/error.h:211-367 | Every `NOT_X` is `NOT` or-ed with `X`: it differs from `X`, and clearing the negate bit gives `X` back. |
| ResultCodes.Errno | include/libinac-ce/error.h:38 | The errno field is 16 bits wide, and putting it back at bits 32..47 over the other bits gives the code. |
| ResultCodes.NFlag | include/libinac-ce/error.h:40 | The negate flag is 0 or 1, and is 1 exactly when bit 15 (`INA_ERR_NOT`) is set. |
| ResultCodes.Subject | include/libinac-ce/error.h:43 | The subject is below 2^15, and putting it back over the other bits gives the code. |
| ResultCodes.Failed | include/libinac-ce/error.h:581 | A code fails exactly when its error flag reads 1. |
| ResultCodes.Succeeded | include/libinac-ce/error.h:583 | A code succeeds exactly when its error flag reads 0. |
| ErrorText.RegisterDict | src/error.c:33-38 | Registering a dictionary installs the new callback and returns the previous one. |
| ErrorText.RegisterReturnsPrevious | src/error.c:33-38 | A second registration returns the callback the first one installed. |
| ErrorText.SubjectCase | src/error.c:40-90 | The switch names exactly the subjects 0..42 other than 20 (SOCKET), and names only subject 0 with the empty word. |
| ErrorText.AdjectiveName | src/error.c:106-241 | Adjective 0 and numbers above 157 (CHANGED) have no case and read as the empty word. |
| ErrorText.SubjectName | src/error.c:40-90 | A known subject gets its fixed name. An unknown one gets the dictionary's answer, or `??` when no dictionary is registered. |
| ErrorText.KnownSubjectsIgnoreDictionary | src/error.c:40-90 | A subject the switch names does not depend on the dictionary. |
| ErrorText.NegationWord | src/error.c:102-104 | The negation word is `NOT` exactly when bit 15 is set, and empty otherwise. |
| ErrorText.MessageWords | src/error.c:92-257 | A succeeding code has no words. A failing code gets noun, negation, adjective, or negation, adjective, noun when the order test holds. |
| ErrorText.Headline | src/error.c:258-263 | The three words are joined with one space after each non-empty word of the first two. |
| ErrorText.StrError | src/error.c:258-263 | A succeeding code gives the empty message. A failing code gives the headline of its words. |
| ErrorText.SpecialOrderIff | src/error.c:251-257 | The special order is chosen exactly for adjectives A, NO, NO_SUCH and ENOUGH, and only when user bit 24 is clear. |
| ErrorText.NegatedComparisonsNeverMatch | src/error.c:251-257 | The `NOT_A` and `NOT_ENOUGH` comparisons can never hold, because the mask excludes bit 15. |
| ErrorText.OrderIgnoresNegation | src/error.c:251-257 | Setting or clearing the negate bit does not change the order. |
| ErrorText.ExampleInvalidArgument | src/error.c:92-263 | `INVALID_ARGUMENT` reads "ARGUMENT NOT VALID". |
| ErrorText.ExampleOutOfMemory | src/error.c:92-263 | `OUT_OF_MEMORY` reads "MEMORY OUT OF". |
| ErrorText.ExamplePoolFull | src/error.c:92-263 | `POOL_FULL` reads "POOL FULL". |
| ErrorText.ExampleNoSuchFile | src/error.c:92-263 | NO_SUCH puts the adjective first: "NO SUCH FILE". |
| ErrorText.ExampleNotAFile | src/error.c:92-263 | NOT_A reads "NOT A FILE". |
| ErrorText.ExampleNotEnoughMemory | src/error.c:92-263 | NOT_ENOUGH reads "NOT ENOUGH MEMORY". |
| ErrorText.ExampleSharedPool | src/error.c:106-241 | An adjective with no case (SHARED) prints as empty and leaves a trailing space. |
| ErrorText.ExampleUnknownSubject | src/error.c:84-89 | FULL on a subject the switch does not name, with no dictionary, reads "?? FULL". |
| ErrorText.ExampleCleared | src/error.c:97-100 | A cleared code has an empty message. |
| MemPool.AllocAligned | src/memory.c:30-43 | Size 0 returns NULL and clears the code. Alignment 0 returns NULL with INVALID_ARGUMENT. Otherwise a block is returned. |
| MemPool.Capacity | src/memory.c:106-109 | The chunk size is aligned, at least the request and at least 1024 bytes, or 0 when alignment overflows. |
| MemPool.New | src/memory.c:102-149 | Size 0 fails with INVALID_ARGUMENT. A size whose alignment wraps fails with OUT_OF_MEMORY. Otherwise the result is one empty chunk: `pos` 0, `end` equal to its size, at least 1024 bytes, and zero-filled unless NOZEROFILL is set. |
| MemPool.RequestSizeRule | src/memory.c:312-314 | A request is rounded up to 16 unless the flag word is exactly BESTFIT. A dynamic pool always works with aligned sizes. |
| MemPool.FitsExact | src/memory.c:318-319 | The room test with its wrap-around half holds exactly when `pos + n <= end`. |
| MemPool.GrowthSize | src/memory.c:332-336 | A new chunk is sized to the request under AUTOSIZE or when the request exceeds the head size. Otherwise it is sized to the head size, which is never below the request. |
| MemPool.ChildChunkIsNew | src/memory.c:337-345 | The chunk appended on growth is empty, valid and large enough for the request. |
| MemPool.GrantHere | src/memory.c:351-353 | Allocating from a current chunk that has room returns its `pos` and advances it. |
| MemPool.GrantGrown | src/memory.c:330-353 | Allocating from a newly appended last chunk is a front grant. |
| MemPool.GrantFurther | src/memory.c:320-323 | Moving `current` to an existing child keeps the front-grant description. |
| MemPool.DallocFrom | src/memory.c:316-353 | The retry loop either grants a front block or refuses with POOL_FULL. It refuses exactly when the pool is fixed and the current chunk lacks room. |
| MemPool.Dalloc | src/memory.c:303-354 | The rounded request is granted at the old `pos` of the serving chunk, and that `pos` advances by the rounded size. Every chunk skipped from `current` on lacked room, and every other chunk is unchanged. The only refusal is POOL_FULL, exactly when a fixed pool's current chunk lacks room. |
| MemPool.BackHere | src/memory.c:397-398 | Allocating from the back of a current chunk with room returns `end - n` and lowers `end`. |
| MemPool.BackGrown | src/memory.c:377-398 | When the pool grows, the block is cut from the back of a fresh chunk that replaces the current chunk's successor. |
| MemPool.NallocSized | src/memory.c:369-399 | A head `end` below the size gives SIZE\|INVALID. A full fixed pool gives POOL_FULL. Otherwise a back grant is made. |
| MemPool.Nalloc | src/memory.c:357-400 | The block ends at the old `end` of the current chunk, or at the end of a new chunk that replaces every chunk after the current one. It is refused exactly when the head's `end` is below the rounded size, or a fixed pool's current chunk lacks room. |
| MemPool.ResizeInPlace | src/memory.c:427-433 | The head's `pos` moves by `new - old`, and its size and `end` stay the same. On a shrink the vacated `old - new` bytes are zeroed. No byte outside the old or new block changes. |
| MemPool.ResizeInPlaceKeeps | src/memory.c:427-433 | When the exact room test holds, `size_t` arithmetic does not wrap: `pos` becomes `pos - old + new`, and the first min(old, new) bytes of the block are kept. |
| MemPool.ExactTestPassesWritten | src/memory.c:427 | Wherever the exact room test passes, the test as written passes too. |
| MemPool.RallocRoutes | src/memory.c:419-496 | The route ralloc chooses, carried out, yields what each branch of the code yields: the bogus-size refusal, the in-place resize or OUT_OF_MEMORY for the last front block, and for any other block the kept block, the move, or POOL_FULL. |
| MemPool.RouteCases | src/memory.c:419-496 | Which of the branches of `ralloc` is taken, stated as the tests the code makes: bogus size, last front block (fits or not), no growth, growth that fits, growth that does not. |
| MemPool.InPlaceHead | src/memory.c:427-433 | The head is resized in place, and only the head's cursor and the bytes of the block change. |
| MemPool.MovedHead | src/memory.c:465-471 | The old bytes are copied to the head's `pos`, which moves past the new size. Nothing else changes. |
| MemPool.TakeRoute | src/memory.c:419-496 | Each branch's outcome: SIZE\|INVALID, OUT_OF_MEMORY or POOL_FULL refusals; the old block kept; a block resized at its address; or a block moved to the head's `pos`. A grant touches only the head. |
| MemPool.InPlaceResizes | src/memory.c:425-434 | Resizing the last front block of the head in place grants a live block of the new size that starts with the old contents. The chain and `current` are unchanged. |
| MemPool.MoveResizes | src/memory.c:461-472 | Growing another block, when the head's front has room, grants a live block of the new size that starts with the old contents. |
| MemPool.TakeRouteResizes | src/memory.c:425-472 | Every granting route yields a live block of the new size that starts with the old contents. |
| MemPool.Ralloc | src/memory.c:402-496 | An `end` below the old size gives SIZE\|INVALID. The head's last front block is resized in place when `pos - old + new <= end`: same address, `pos` moved by `new - old`, vacated bytes zeroed. When it does not fit, the result is OUT_OF_MEMORY. Any other block is kept when it does not grow. A growing block moves to the old `pos` when it fits, and otherwise the result is POOL_FULL. A grant is a resized block, and nothing but the head's cursor and the bytes of the old or new block change. |
| MemPool.GetInfo | src/memory.c:280-301 | `children` is the chain length minus one, and the flags are the head's. `size` and `used` are the sums of sizes and of `pos + (size - end)`. |
| MemPool.UsedBounded | src/memory.c:289-300 | A chain never reports more bytes used than it holds. |
| MemPool.Reset | src/memory.c:259-277 | Every `pos` becomes 0 and `current` becomes the head. Each `end` and the chain length are unchanged. |
| MemPool.Clear | src/memory.c:238-257 | Clear is a reset that also zero-fills every byte of every chunk. |
| MemPool.Merge | src/memory.c:180-197 | NULL dest gives INVALID_ARGUMENT, NULL src is a no-op, and SHARED on either side gives OPERATION\|INVALID. Otherwise the chain is dest's head, src's head, then dest's former children. |
| MemPool.FrontGrantAccounts | src/memory.c:289-300 | A front grant of `n` bytes adds exactly `n` to the bytes used. The pool size grows only by an appended chunk. |
| MemPool.DallocAccounts | src/memory.c:280-354 | After `dalloc`, `info` reports `used` grown by the rounded size and at most one more child. |
| MemPool.FrontGrantFresh | src/memory.c:351-353 | A front block is live and disjoint from every block live before. |
| MemPool.BackGrantFresh | src/memory.c:397-398 | A back block is live and disjoint from every block live before, up to the current chunk. |
| MemPool.DallocRefusal | src/memory.c:318-349 | A dynamic pool never refuses `dalloc`. A fixed one refuses exactly when its current chunk lacks room. |
| MemPool.NewThenDalloc | src/memory.c:303-354 | The first allocation from a new pool starts at byte 0 of the head. |
| MemPool.ResetAccounts | src/memory.c:259-301 | After a reset the pool size and child count are unchanged, and only back allocations are counted as used. |
| MemPool.ResetIdempotent | src/memory.c:238-277 | Resetting twice is resetting once, and the same holds for clearing. |
| MemPool.ResetThenDalloc | src/memory.c:259-277 | After a reset, an allocation that fits before the head's `end` is served from byte 0 of the head. |
| MemPool.ClearIsZeroingReset | src/memory.c:238-277 | Clear leaves the cursors a reset leaves, with every byte zero. |
| MemPool.MergeAccounts | src/memory.c:180-197 | A merge adds exactly src's head chunk to the pool size and to the bytes used. |
| MemPool.RallocAgreesWithoutWrap | src/memory.c:425-434 | Where `pos + new_size` does not wrap, ralloc as written and the corrected ralloc agree. |
| MemPool.RallocAsWritten | src/memory.c:402-496 | As written: an `end` below the old size gives SIZE\|INVALID, and the last front block is resized in place whenever the wrapping room test passes, with `pos` moved modulo 2^64. A grant touches only the head. |
| MemPool.RallocWrapsAround | src/memory.c:427 | A concrete pool in which the room test as written wraps and grants a block that is not live. The corrected ralloc refuses with OUT_OF_MEMORY. |
| DynString.Strlen | src/string.c:152-172 | The index of the first NUL, or the whole length when there is none. |
| DynString.CString | src/string.c:152-172 | The C string is a NUL-free prefix, and is the whole input when it has no NUL. |
| DynString.Length | src/string.c:320-326 | NULL has length 0. Otherwise the length is the content length. |
| DynString.SizeOf | src/string.c:328-334 | NULL has size 0. Otherwise the size is the reserved size. |
| DynString.Available | src/string.c:336-342 | Length, spare room and terminator add up to the reserved size. NULL reports 0. |
| DynString.New | src/string.c:76-87 | An empty heap string with room for exactly `len` more bytes. |
| DynString.NewUsingPool | src/string.c:89-101 | An empty pooled string with room for `len` bytes, carved by `dalloc` from the pool. It fails with POOL_FULL exactly when `dalloc` refuses. |
| DynString.FromBlk | src/string.c:103-124 | A NULL block gives INVALID_ARGUMENT. Otherwise the content is the first `len` bytes of the block, with no spare room. |
| DynString.FromBlkUsingPoolAsWritten | src/string.c:126-150 | As written, a success is an empty string with room for `len` bytes: the copied bytes are not counted in its length. |
| DynString.FromBlkUsingPool | src/string.c:126-150 | Corrected: a NULL pool or block gives INVALID_ARGUMENT. Otherwise the content is the first `len` bytes of the block, carved by `dalloc`. It fails with POOL_FULL exactly when `dalloc` refuses. |
| DynString.PooledBlockLosesLength | src/string.c:126-150 | On every pool with `len > 0`, the constructor as written reports length 0 where the corrected one reports `len`. |
| DynString.FromCStr | src/string.c:152-172 | The content is the C string, or empty for NULL, with no spare room. |
| DynString.FromCStrUsingPool | src/string.c:174-196 | The content is the C string, or empty for NULL, carved by `dalloc` for its length plus terminator and header. It fails with POOL_FULL exactly when `dalloc` refuses. |
| DynString.Dup | include/libinac-ce/string.h:120-126 | NULL exactly for NULL. Otherwise the result is a heap string holding the C string, with no spare room. |
| DynString.EnsureSize | src/string.c:39-52 | The resulting size exceeds `need`. A string with more than `need` spare bytes keeps its size, and a string whose content fits in `need` is never shrunk. |
| DynString.NCpy | src/string.c:209-226 | A NULL source leaves the string unchanged. Otherwise the content becomes the first `n` bytes of the source. |
| DynString.NCat | src/string.c:228-244 | A NULL source leaves the string unchanged. Otherwise the first `n` source bytes are appended and the size never shrinks. |
| DynString.Cpy | include/libinac-ce/string.h:351-354 | `ncpy` with the source's own length: the content becomes the source's. |
| DynString.Cat | include/libinac-ce/string.h:434-437 | `ncat` with the source's own length: the source's content is appended. |
| DynString.CpyThenCat | include/libinac-ce/string.h:434-437 | Copying `a` then appending `b` gives the content `a ++ b`. |
| DynString.MemCmp | src/string.c:302-318 | The result is zero exactly when the first `n` bytes agree. |
| DynString.MemCmpAntisymmetric | src/string.c:302-318 | Swapping the arguments negates the result. |
| DynString.MemCmpFirstDifference | src/string.c:302-318 | The first differing byte decides the result. The model returns the difference of the two bytes, whose sign is what C promises. |
| DynString.CmpAntisymmetric | src/string.c:302-318 | Swapping the two strings negates the comparison. |
| DynString.Cmp | src/string.c:302-318 | Equal contents compare 0. A result of 0 means the contents agree on their common length and the longer one, if any, continues with a NUL. |
| DynString.CmpZeroIff | src/string.c:302-318 | Strings without embedded NULs compare equal exactly when their contents are equal. |
| DynString.CmpFirstDifference | src/string.c:302-318 | The first differing byte decides the comparison, with the sign of that byte difference. |
| DynString.CmpProperPrefix | src/string.c:302-318 | A proper prefix compares less, unless the longer string continues with a NUL. |
| DynString.CmpEmbeddedNul | src/string.c:302-318 | "a\0" and "a" compare equal: the comparison reads only the terminator past the shorter content. |
| DynString.CaseFlipBytes | src/string.c:344-368 | `toupper` maps bytes 0x60..0x7F down by 32, so 'a'..'z' become 'A'..'Z'. `tolower` maps 0x40..0x5F up by 32. Neither produces or removes a NUL. |
| DynString.UpperBytes | src/string.c:344-355 | Every byte before the first NUL is upper-flipped. The rest is untouched. |
| DynString.LowerBytes | src/string.c:357-368 | Every byte before the first NUL is lower-flipped. The rest is untouched. |
| DynString.ToUpper | src/string.c:344-355 | NULL is returned as is. Otherwise every byte before the first NUL is upper-flipped, the rest are untouched, and size and backing are kept. |
| DynString.ToLower | src/string.c:357-368 | NULL is returned as is. Otherwise every byte before the first NUL is lower-flipped, the rest are untouched, and size and backing are kept. |
| DynString.FlipKeepsStrlen | src/string.c:344-368 | Case flipping keeps the first NUL where it was. |
| DynString.ToUpperIdempotent | src/string.c:344-355 | Upper-casing twice is upper-casing once. |
| DynString.LowerUndoesUpper | src/string.c:344-368 | Lower-casing undoes upper-casing on text with no bytes from 0x40..0x5F. |
| DynString.UpperAfterLower | src/string.c:344-368 | Upper-casing forgets a previous lower-casing. |
| DynString.Truncate | src/string.c:370-378 | The content is cut at `pos`, and the reserved size and backing are unchanged. |
| DynString.Lead | src/string.c:389-394 | The forward scan stops at the first byte not in `chars`. |
| DynString.BackStop | src/string.c:395-400 | The backward scan stops at the last byte not in `chars`. |
| DynString.TrimBytes | src/string.c:380-408 | Every dropped leading and trailing byte is in `chars`, and the kept slice starts and ends with bytes not in `chars`. |
| DynString.Trim | src/string.c:380-408 | A NULL `chars` leaves the string unchanged. Otherwise the content becomes the trimmed slice, and size and backing are kept. |
| DynString.TrimKeepsTrimmed | src/string.c:380-408 | A slice whose end bytes are outside `chars` is left alone. |
| DynString.TrimIdempotent | src/string.c:380-408 | Trimming twice is trimming once. |
| DynString.TrimEmptyIff | src/string.c:380-408 | Everything is trimmed exactly when every byte is in `chars`. |
| DynString.SubstrLenAsWritten | src/string.c:410-436 | As written, the length is 0 for an empty string, reversed bounds or a start past the end, and never exceeds `len - start`. |
| DynString.SubstrLen | src/string.c:410-436 | Corrected: the length is zero exactly in those cases. Otherwise it is `end - start + 1` with `end` clamped to the last byte. |
| DynString.SubstrLenAgrees | src/string.c:410-436 | The two agree except when `start` is 0 and `end` is SIZE_MAX. |
| DynString.SubstrWholeRangeIsEmpty | src/string.c:410-436 | With `start` 0 and `end` SIZE_MAX, the code as written yields an empty substring where the whole string is meant. |
| DynString.Substr | src/string.c:447-455 | A fresh heap string holding bytes `start..end` clamped to the content. It is empty for reversed bounds or a start past the end. |
| DynString.Split | src/string.c:457-534 | NULL or empty input or separator gives NULL and count 0. Otherwise count is the number of tokens. |
| DynString.SplitFrom | src/string.c:476-516 | The scan always yields at least one token: the last one runs to the end of the input. |
| DynString.SplitFromJoins | src/string.c:476-516 | The scan from any point yields tokens that join back into the rest of the input. |
| DynString.SplitJoins | src/string.c:457-534 | Joining the tokens with the separator reproduces the input. |
| DynString.SplitFromTokensFree | src/string.c:476-516 | No token but the last contains the separator. |
| DynString.SplitTokensFree | src/string.c:457-534 | Every token but the last is free of the separator. |
| DynString.SplitIgnoresLastByte | src/string.c:476-516 | A separator in the last byte is not split off: "a," gives the single token "a,". |
| DynString.Skip | src/string.c:566-576 | The number of leading delimiter bytes. |
| DynString.Span | src/string.c:577-586 | The number of leading non-delimiter bytes. |
| DynString.TokText | src/string.c:548-593 | Returns the first run of non-delimiters, with the cursor just past the delimiter that ends it, or past the end. Returns NULL when the text is all delimiters. |
| DynString.Tok | src/string.c:548-593 | A NULL or empty separator returns NULL and keeps the cursor. Otherwise it scans the given text, or the saved cursor when the text is NULL. |
| DynString.TokStep | src/string.c:566-590 | One scan removes exactly the leading delimiters, the token and one delimiter. |
| DynString.TokAll | src/string.c:548-593 | Calling `tok` until it stops yields only non-empty tokens free of delimiters. |
| DynString.TokAllFlatten | src/string.c:548-593 | The tokens from repeated `tok` calls concatenate to the text with its delimiters removed. |
| DynString.TokLastTokenPastEnd | src/string.c:587-588 | The last token leaves the cursor past the terminator. |
| DynString.Find | include/libinac-ce/string.h:259-268 | `strstr`: the first index where the needle occurs, or none when it never occurs. |
| DynString.StrStr | include/libinac-ce/string.h:259-268 | NULL when either string is NULL or the needle is empty. Otherwise it returns the first occurrence, and finds one whenever the needle occurs. |
| DynString.StrCStr | include/libinac-ce/string.h:283-292 | The same, with a C string needle. |
| DynString.LastIndex | include/libinac-ce/string.h:307-313 | `strrchr`: the last index holding the byte, or none. |
| DynString.Rchr | include/libinac-ce/string.h:296-313 | NULL for the NUL byte, despite the header's promise. Otherwise it returns the last occurrence before the terminator, or NULL when there is none. |
| Wildcard.EmptyText | include/libinac-ce/string.h:709-716 | An exhausted text matches exactly the patterns made of stars alone. |
| Wildcard.StarRun | include/libinac-ce/string.h:709-716 | A star matches any run: the text matches `*rest` iff some suffix matches `rest`. |
| Wildcard.StarStar | src/string.c:716-718 | Two stars in a row match what one star matches. |
| Wildcard.SkipStars | src/string.c:716-718 | Skips to the first non-star after a run of stars. |
| Wildcard.FastForward | src/string.c:725-733 | Finds the next text byte equal to the pattern byte, reports exhaustion, or reports a read past the terminator when started at the terminator. |
| Wildcard.Advance | src/string.c:766-783 | Both cursors advance. At the end of the text, the match holds iff only stars remain. |
| Wildcard.StepAsWritten | src/string.c:712-784 | One pass of the loop as written keeps the loop invariant and lowers the termination measure. |
| Wildcard.StepSound | src/string.c:712-784 | Each pass as written keeps the soundness invariant and reports a match only when the pattern matches. |
| Wildcard.RunAsWritten | src/string.c:712-784 | From a state that can only lead to a real match, a run as written reports a match only when the pattern matches. |
| Wildcard.MatchAsWritten | src/string.c:702-785 | The matcher as written never reports a false match. |
| Wildcard.StepFixed | src/string.c:712-784 | One pass of the corrected loop keeps its invariant, lowers the measure, and never reads past a terminator. |
| Wildcard.StepKeeps | src/string.c:712-784 | Each corrected pass keeps "the pattern matches iff some reachable state matches", and decides correctly when it stops. |
| Wildcard.RunFixedDecides | src/string.c:712-784 | The corrected loop reports a match iff the pattern matches. |
| Wildcard.FixedMatches | src/string.c:702-785 | The corrected matcher's verdict on two C strings equals the meaning of the pattern. |
| Wildcard.WildcardMatch | src/string.c:702-785 | Returns SUCCESS iff the pattern matches the text, and TEXT\|NOT_MATCH otherwise. |
| Wildcard.AsWrittenMissesMatch | src/string.c:738-760 | "aaab" matches "*a?b", but the loop as written reports no match. |
| Wildcard.AsWrittenReadsPastEnd | src/string.c:738-760 | "aa" vs "*a": the loop as written steps past both terminators. |
| Wildcard.AsWrittenEmptyText | src/string.c:766-770 | With an empty text, the first pass as written reads past the terminator. |
| Wildcard.CommentExamples | src/string.c:717-781 | The examples in the loop's comments hold for the corrected matcher. |
| Wildcard.MississippiExample | src/string.c:758 | "mississippi" matches "*sip*". |
| ListSort.SplitAt | src/list.c:22-34 | The fast/slow split leaves the first `ceil(n/2)` nodes in the first half. |
| ListSort.Merge | src/list.c:36-58 | The merge holds every node of both halves: it is a multiset union of the same length. |
| ListSort.MergeSort | src/list.c:60-70 | The sort returns a permutation of its input. |
| ListSort.MergeAbove | src/list.c:36-58 | A lower bound of both inputs bounds the merge. |
| ListSort.TakenFirst | src/list.c:47-51 | When the first head is taken it bounds the second list. |
| ListSort.TakenSecond | src/list.c:52-57 | When the second head is taken it bounds the first list. |
| ListSort.MergeSorted | src/list.c:36-58 | Merging two sorted lists gives a sorted list. |
| ListSort.MergeSortSorts | src/list.c:60-70 | With a strict weak order the merge sort sorts. |
| ListSort.TiesReverse | src/list.c:47-57 | The sort is not stable: with all data equal, two nodes come out reversed. |
| List.Seek | src/list.c:305-313 | Walking `next` pointers reaches the first node whose datum has the property. |
| List.SeekIsFirst | src/list.c:305-313 | The pointer walk from the head finds the first match in the data sequence. |
| List.InsertTail | src/list.c:258-276 | The node becomes the last: the data gain it at the end, the count rises by 1, and the head's `prev` names it. |
| List.InsertHeadAsWritten | src/list.c:239-257 | On an empty list the node becomes the sole element. On a non-empty list the count rises but the head is unchanged. |
| List.InsertHead | src/list.c:239-257 | Corrected: the node becomes the first, the data gain it at the front, and the count rises by 1. |
| List.InsertHeadAsWrittenLosesNode | src/list.c:244-250 | On a non-empty list the code as written leaves the head in place, so no node sequence is described. |
| List.Remove | src/list.c:278-297 | Removal changes no datum and leaves the removed node itself as it was. The count drops by 1 and the rest of the header is kept. |
| List.RemoveUnlinks | src/list.c:278-297 | Removing the `i`-th node leaves the other nodes listed in order, with other nodes untouched. |
| List.RemoveFirst | src/list.c:283-287 | Removing the head leaves the other nodes as a valid list in order, and touches no node outside the list. |
| List.RemoveLast | src/list.c:288-292 | Removing the last node leaves the other nodes as a valid list in order, so the head's `prev` names the new last node. |
| List.RemoveInner | src/list.c:288-296 | Removing an inner node leaves the other nodes as a valid list in order. |
| List.RemoveKeepsData | src/list.c:278-297 | The remaining data are the old data without the `i`-th element. |
| List.New | src/list.c:79-95 | A new list is empty and recycles up to 256 nodes. A NOMALLOC list has no pool and no recycled-node array. |
| List.NewIsEmpty | src/list.c:79-95 | A new list describes the empty sequence, and its recycled stack is well formed. |
| List.NodeNew | src/list.c:119-131 | Pops the most recently recycled node when there is one. Otherwise it carves a fresh node from the list's pool. |
| List.NodeNewKeepsGood | src/list.c:119-131 | The node handed out is neither listed nor recycled, and the list is unchanged. |
| List.NodeFreeAsWritten | src/list.c:133-142 | As written, a free below `max_recyclable` stores at index `last_free + 1`, which can be past the array. That case is None. |
| List.FreeAllAsWritten | src/list.c:133-142 | While the array has room, each free pushes one node. |
| List.DefaultListOverflows | src/list.c:133-142 | A default list's 256th recycled node is written past its array of 256 slots. |
| List.NoMallocListOverflows | src/list.c:133-142 | A NOMALLOC list has no array, yet its first free writes into it. |
| List.NodeFree | src/list.c:133-142 | Corrected: pushes the node when a slot exists, and otherwise leaves the list unchanged. |
| List.NodeFreeKeepsRecycled | src/list.c:133-142 | Freeing an unlisted node keeps the recycled stack well formed. |
| List.FreeThenNew | src/list.c:119-142 | Recycling is last-in first-out: a freed node is the next one handed out. |
| List.NewWithData | include/libinac-ce/list.h:56-70 | The node obtained carries the given datum. |
| List.InsertTailData | include/libinac-ce/list.h:64-70 | The datum is appended to the list's data. |
| List.InsertHeadData | include/libinac-ce/list.h:56-62 | The datum is put in front of the list's data. |
| List.PopData | include/libinac-ce/list.h:74-81 | Returns the first datum and the current code, without removing the node. |
| List.PopAfterInsertHead | include/libinac-ce/list.h:56-81 | Pop after insert-head returns the datum inserted. |
| List.RemoveData | src/list.c:299-316 | NULL data gives INVALID_ARGUMENT. Success holds iff the datum is listed. Otherwise the result is NOT_EXISTS and nothing changes. |
| List.RemoveDataRemovesFirst | src/list.c:299-316 | On success, exactly the first node carrying the datum is removed. |
| List.RecycleRemoved | src/list.c:299-316 | The removed node may go on the recycled stack. |
| List.ForeachFrom | src/list.c:318-330 | The walk returns the code of the first failing callback, or the last callback's code. |
| List.Foreach | src/list.c:318-330 | Returns the first failing callback code. If none fails it returns the last element's code, and SUCCESS on an empty list. |
| List.FindAsWritten | src/list.c:379-394 | A NULL argument gives INVALID_ARGUMENT. Success holds iff some datum compares equal. Otherwise the result is NOT_FOUND. |
| List.FindDataAsWritten | include/libinac-ce/list.h:85-93 | Succeeds exactly when `find` does, and otherwise fails with `find`'s code. |
| List.Find | src/list.c:379-394 | Corrected: returns the first node whose datum compares equal, with the same codes. |
| List.FindData | include/libinac-ce/list.h:85-93 | Returns the first matching datum on success, and `find`'s code otherwise. |
| List.FindDataAsWrittenReadsStale | include/libinac-ce/list.h:85-93 | As written, success returns whatever the node pointer held, not the matching datum. |
| List.TailAsWritten | src/list.c:227-237 | Returns the head node, or EMPTY. |
| List.Tail | src/list.c:227-237 | Corrected: returns the last node, or EMPTY. |
| List.TailAsWrittenGivesHead | src/list.c:227-237 | With two or more nodes, the code as written returns the first node, not the last. |
| List.Concat | src/list.c:332-362 | An empty src changes nothing. Otherwise src ends empty with no pool, and dest takes src's pool when it had none. |
| List.Append | src/list.c:341-356 | The relinking step adds the counts. |
| List.ConcatJoins | src/list.c:332-362 | Afterwards dest lists its own nodes followed by src's, and the data concatenate. |
| List.AppendHeap | src/list.c:341-356 | Appending links dest's last node to src's first node and back, and points dest's head `prev` at src's last node. No other link and no datum changes. |
| List.AppendLinks | src/list.c:341-356 | Appending yields a valid list of dest's nodes followed by src's, whose data concatenate. Nodes outside both lists are untouched. |
| List.Relink | src/list.c:36-58 | Relinking changes only links of the listed nodes. |
| List.RelinkLinks | src/list.c:36-58 | Each relinked node's `next` and `prev` name its neighbours in the new order. |
| List.SortAsWritten | src/list.c:396-404 | Only the head and links change, and lists of fewer than two nodes are untouched. |
| List.Sort | src/list.c:396-404 | Corrected: only the head and links change, and short lists are untouched. |
| List.SortedEntriesFaithful | src/list.c:396-404 | Every entry the sort returns is a listed node carrying its own datum. |
| List.SortedNodesListed | src/list.c:396-404 | The sorted order has as many nodes as the list, with no node twice. |
| List.RelinkValid | src/list.c:396-404 | Relinking with the head's `prev` naming the last node yields a valid list. |
| List.RelinkHeadless | src/list.c:47-57 | Relinking two or more nodes with a NULL head `prev` yields no valid list. |
| List.SortLinks | src/list.c:396-404 | The corrected sort links the sorted nodes into a valid list. |
| List.SortSorts | src/list.c:396-404 | The corrected sort makes the data a permutation of the input, sorted under a strict weak order. It touches no other node. |
| List.SortTouchesListed | src/list.c:396-404 | Sorting touches only listed nodes. |
| List.SortAsWrittenLosesTail | src/list.c:47-57 | As written, the sorted head's `prev` is NULL, so the result is no valid list. |
| Options.IndexOf | src/lib.c:185-212 | The index of the first occurrence, or the length. |
| Options.Tokenize | src/lib.c:185-214 | An argument is an option iff a '-' occurs before the first '='. The name has no '=', and an inline value exists iff the argument contains '='. |
| Options.ScanArg | src/lib.c:185-214 | The scanning loop computes exactly the reference tokenization. |
| Options.TokenizeExamples | src/lib.c:187-212 | "-name=value" and "--name" give the expected name and value. |
| Options.TokenizeEdgeCases | src/lib.c:185-214 | "=-..." is not an option, and "-" is an option with an empty name. |
| Options.ShortFrom | src/lib.c:88-94 | The first entry with this non-empty short name. |
| Options.LongFrom | src/lib.c:96-100 | The first entry with this long name. |
| Options.OptGet | src/lib.c:471-487 | Corrected lookup: short names first, then long names. The result is None iff neither matches. |
| Options.OptGetAsWritten | src/lib.c:471-487 | As written, every hit reads through the NULL node pointer. The only non-crashing outcome is a miss. |
| Options.Defaults | src/lib.c:140-176 | Each value starts as its option's default. |
| Options.ScanFrom | src/lib.c:179-241 | A failure is always OPTION\|INVALID, and only some argument naming an unknown option causes one. A successful scan keeps one value per option and every value already set. A flag ends with its previous value or "on". |
| Options.FlagGetsOn | src/lib.c:237-238 | A flag on the command line gets the value "on". |
| Options.ValueFromNextArgument | src/lib.c:226-236 | A valued option without '=' takes the next argument. With '=' it takes the inline value. |
| Options.NextArg | src/lib.c:226-236 | The loop always moves forward: past the next argument when it was taken as a value, otherwise to it. |
| Options.VisitsBounds | src/lib.c:179-241 | The loop only looks at arguments between its start and the end. |
| Options.Apply | src/lib.c:219-238 | After one argument, an entry it supplies holds the supplied value, and every other entry is unchanged. |
| Options.ScanStep | src/lib.c:179-241 | One turn at any position: an unknown option fails with OPTION\|INVALID, and otherwise the value it supplies is recorded and the scan resumes where the loop goes next. |
| Options.ScanFromValues | src/lib.c:179-241 | The scan fails exactly when the loop looks at an argument naming an unknown option. On success, each entry holds the value of the last argument that supplied one, and entries never supplied keep their value. |
| Options.AppInitAsWritten | src/lib.c:243-247 | As written, the scan from argument 1 fails, with OPTION\|INVALID, exactly when it meets an unknown option. On success each option holds the last value given for it, or its default. Options left unset are not checked. |
| Options.AppInit | src/lib.c:243-247 | Corrected: succeeds exactly when the code as written succeeds and every non-flag option with a short name has a value. The only failure code is OPTION\|INVALID. |
| Options.AppInitAsWrittenAcceptsUnset | src/lib.c:80-87 | A string option that is never given passes as written, but the corrected version rejects it. |
| Options.IsSet | src/lib.c:384-397 | Returns SUCCESS iff the option exists and is not an unset flag. Otherwise it returns OPTION\|NOT_EXISTS. |
| Options.GivenFlagIsSet | src/lib.c:384-397 | A flag given on the command line is reported as set. |

## Left out

- Shared-memory pools (`__ina_shm_open`/`__ina_shm_close`, src/memory.c:499-653): these are OS I/O and cross-process atomics. SHARED appears only as the flag `merge` refuses. Creating a shared pool is excluded by a precondition.
- `ina_mempool_shrink` and `ina_mempool_free`: the first reads freed memory and the second loops forever on a childless chunk. Neither is part of this model.
- The pointer arithmetic of `ina_mem_alloc_aligned`, `ina_mem_realloc` and `ina_mem_free` is heap plumbing. Only the argument checks are modelled, and `malloc` is assumed to succeed.
- MemPool.Ralloc: the two branches that spill a resized block into a new chunk (src/memory.c:436-456, 473-493) are excluded by a precondition. They copy into the head chunk after moving `current`, and they ignore creation failure.
- MemPool.New: the label string and the error path of a failing `malloc` are not modelled.
- MemPool.Dalloc and MemPool.Nalloc: child creation cannot fail in the model, because sizes are aligned and `malloc` succeeds. The NULL dereference in `nalloc` after a failed child creation is therefore unreachable.
- The pooled-string marker: `__INA_POOLED` is decimal 80000000 and the mask clears only bit 30. The model carries an explicit heap/pool tag instead. `ina_str_ncat_using_pool`, `ina_str_ncatcstr*` and `ina_str_substr_using_pool` go through that mask and are not modelled.
- DynString.NCpy, DynString.NCat: modelled for heap strings only. On a pooled string the code calls heap `realloc` on pool memory.
- DynString.EnsureSize: states only the resulting size. The `realloc` call is assumed to succeed.
- `ina_str_sprintf`/`snprintf`/`vsnprintf`, `ina_str_assign_buf`/`release_buf`/`adjust_len`, `ina_str_free` and `ina_str_split_free_tokens` are libc formatting and raw buffer handling.
- DynString.Tok: restricted to 7-bit input, because the bitmap is indexed with a signed `char`.
- DynString.FromCStrUsingPool: the content is taken to end where the copied text ends. The code never writes `str[len] = '\0'` (src/string.c:191-195), unlike its heap twin, so on pool memory reused after a reset the C string runs on into stale bytes. The model holds content, not raw pool bytes, so that is not represented. `ina_str_new_fromblk_using_pool` has the same gap.
- DynString.MemCmp: modelled as the difference of the first differing bytes. C promises only the sign of a non-zero result, so only the sign is program behaviour; DynString.Cmp inherits this.
- DynString.Tok: requires that a NULL text is not passed once the saved cursor is past the terminator. After the last token the code leaves the cursor one past the terminator (src/string.c:587-588), and a further call with NULL text reads beyond the string. DynString.TokLastTokenPastEnd exhibits the cursor; the read itself is not modelled.
- Wildcard.WildcardMatch: an empty text is given the meaning of the pattern, where the code as written reads past its terminator.
- `ina_list_resize`, `ina_list_free`, `ina_list_count`, `ina_list_head`, `ina_list_usage`, `ina_list_foreach_arg` and `ina_list_new_from_hashtable` are left out. They are bookkeeping, a copy that leaves dangling `next` pointers, or code behind an absent header.
- The NULL-argument checks of the list functions (`INA_VERIFY_NOT_NULL`) are not modelled, and neither is `malloc` failure in `ina_list_new`.
- List.NodeNew: requires a recycled node or a pool. On a list made with INA_LIST_CF_NOMALLOC and no recycled node, the code passes the list's NULL pool to `ina_mempool_dalloc` (src/list.c:129), which asserts it non-NULL. Such lists are meant to hold only nodes the caller supplies. The same precondition carries over to List.NewWithData, List.InsertTailData and List.InsertHeadData.
- List.NewWithData: inherits the List.NodeNew precondition (a recycled node or a pool).
- List.InsertTailData: inherits the List.NodeNew precondition (a recycled node or a pool).
- List.InsertHeadData: inherits the List.NodeNew precondition (a recycled node or a pool).
- List.PopData: requires a non-empty list. On an empty list `ina_list_pop_data` dereferences the NULL head (include/libinac-ce/list.h:77-78).
- List.Sort: the ERR_EMPTY branch of `ina_list_sort` is unreachable for a valid list and is not modelled.
- Signals, `atexit`, `ina_init`/`ina_exit`, `readlink` of /proc and usage printing in src/lib.c are OS interaction.
- Options.ScanFrom: takes the inline value as intended. The `buf[100]` copies can overflow, and the inline copy at src/lib.c:234 is not NUL-terminated, so it can carry stale bytes. The scanner's `tolower` is also not modelled; it only matters for '-' and '=' in non-ASCII locales.
- Options.IsSet: a NULL option name (INVALID_ARGUMENT) is not modelled. The typed value accessors (`ina_opt_get_int` and the others) are not modelled either.
- Options.OptGet: the scanner and `ina_opt_isset` use the corrected lookup. As written, every hit reads through a NULL pointer (see Findings).
- The thread-local global result code is replaced by return values. `INA_ERR_UNAVAILABLE` is dropped because it names an undefined symbol.
- ResultCodes.Raise: packs version and revision 0, as a build outside the library does. Inside the library, `INA_RC_PACK` puts `INA_VERSION_HEX` at bit 48.
- ErrorText.AdjectiveName: the contract names only the numbers outside 1..157. Which numbers inside that range lack a case (17, 26, 30 and 21 others) is stated by the body alone.
- ErrorText.StrError: the " - 0x… error=…" suffix that `snprintf` appends is not modelled.

## Findings

| source | as written | input that shows it | evidently intended | confidence | as-written member | corrected member |
|---|---|---|---|---|---|---|
| src/memory.c:427 | The in-place room test `pos + new_size - old_size <= end` is computed on `size_t` and can wrap. | A 2048-byte head with `pos` 1024, resizing its last 16-byte block to 2^64-16. | Refuse when the new size does not fit (OUT_OF_MEMORY on a fixed pool). | not executed | MemPool.RallocWrapsAround | MemPool.Ralloc |
| src/string.c:126-150 | `ina_str_new_fromblk_using_pool` copies the bytes but never sets `len`. | Any block with `len > 0`. | Length `len`, as the heap constructor sets it. | not executed | DynString.PooledBlockLosesLength | DynString.FromBlkUsingPool |
| src/string.c:410-436 | `(end - start) + 1` wraps to 0 for `start` 0 and `end` SIZE_MAX. | `substr(s, 0, SIZE_MAX)` on a non-empty string. | The whole string. | not executed | DynString.SubstrWholeRangeIsEmpty | DynString.SubstrLen |
| src/string.c:738-760 | After a mismatch the matcher can jump past the bookmark and miss a match. | Text "aaab", pattern "*a?b". | SUCCESS. | not executed | Wildcard.AsWrittenMissesMatch | Wildcard.WildcardMatch |
| src/string.c:745-760 | The retry steps over the text terminator and reads past both strings. | Text "aa", pattern "*a". | SUCCESS without reading past the terminators. | not executed | Wildcard.AsWrittenReadsPastEnd | Wildcard.WildcardMatch |
| src/list.c:133-142 | `node_free` stores at index `last_free + 1` while `last_free < max_recyclable`, one past an array of `max_recyclable` slots. On a NOMALLOC list there is no array at all. | 256 frees on a default list; one free on a NOMALLOC list. | Store only into existing slots. | not executed | List.DefaultListOverflows | List.NodeFree |
| src/list.c:244-250 | `insert_head` on a non-empty list never moves `head` to the new node. | Insert one node in front of a one-node list. | The new node becomes the head. | not executed | List.InsertHeadAsWrittenLosesNode | List.InsertHead |
| include/libinac-ce/list.h:85-93 | `ina_list_find` never writes `*node`, so `find_data` dereferences the caller's uninitialised pointer. | A one-node list whose datum compares equal. | Return the first matching datum. | not executed | List.FindDataAsWrittenReadsStale | List.FindData |
| src/list.c:227-237 | `ina_list_tail` returns the head. | Any list of two nodes. | Return the last node, `head->prev`. | not executed | List.TailAsWrittenGivesHead | List.Tail |
| src/list.c:47-57 | The merge leaves the new head's `prev` NULL, where the list expects the last node. | Sorting any list of two nodes. | The head's `prev` names the last node. | not executed | List.SortAsWrittenLosesTail | List.SortSorts |
| src/lib.c:80-87 | `__ina_check_options` records OPTION\|INVALID but returns SUCCESS, so `foreach` never fails and the validation has no effect. | A string option "-s" that the command line never gives. | `ina_app_init` fails with OPTION\|INVALID. | not executed | Options.AppInitAsWrittenAcceptsUnset | Options.AppInit |
| src/lib.c:471-487 | `__ina_opt_get` reads `node->data` after `ina_list_find`, which never writes `node`, so `node` is still NULL. | Any argument naming a registered option. | Return the option found. | not executed | Options.OptGetAsWritten | Options.OptGet |
