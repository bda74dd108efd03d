# Verified models of the embedded components

Dafny models of seven components of the repository, with proofs of what each of them is for.
Code that works in place is modelled in place: classes with the fields of the source, arrays,
and loops with invariants, each proved against a specification function about which the
properties are then proved. `dafny verify dfyconfig.toml` checks the whole project.

- **LZARI decompressor** (`Lzari*.dfy`). `LzariCoder` is the interval arithmetic, `LzariModel`
  the adaptive tables, `LzariStream` the meaning of a stream: tokens, their expansion, the
  decoder as a function of the code bits, and an encoder specified over the same tables and the
  same interval formula (the repository has none). `LzariDecompress` is the code itself, with
  32-bit values, the four tables, the ring and the bit reader. Decoding inverts encoding.
- **TLV store** (`Flash*.dfy`, `Tlv*.dfy`). `FlashBank` models two banks by the contract of
  `hal_flash_bank.h` and records the image after every call; `FlashMemory` is the write loop of
  the in-memory flash as it stands. `TlvLayout` has the log as a list of entries and its map,
  `TlvStore` the driver, `TlvRuns` whole runs in which power may fail at any flash call, also
  during recovery.
- **Run loop** (`Timers.dfy`, `RunLoop.dfy`, `WakeUp.dfy`): timers under 32-bit time with
  handlers that re-arm and remove timers while time passes, in both time bases; and the sleep
  handshake with the tick and UART interrupts as a state machine under every interleaving of
  nested interrupts.
- **SHA-1** (`Sha1Spec.dfy`, `Sha1.dfy`): the streaming code against FIPS 180-1.
- **SPI transport** (`RingBuffer.dfy`, `SpiTransport.dfy`): both byte streams of the EM9304
  driver under every interleaving of polls and DMA completions, on the ring buffer over its array.
- **Firmware upload** (`FirmwareUpload.dfy`): the callback chain of the ATWILC3000 download
  together with a controller that carries out its commands.
- **Bad-block table** (`BadBlockTable.dfy`, `BadBlocks.dfy`): redundant copies, the merge that
  recovers damaged ones, and initialisation.

`Words`, `Arith` and `SeqFacts` hold machine words, arithmetic and sequence facts.

## What the proofs found

Where the code does not meet what is expected of it, the model keeps the code as it is and the
exact condition is proved.

- The ring of the decompressor leaves 60 cells uninitialised
  (`code/src/Decompress/decompress.c:126-129`). The output depends on them exactly if some match
  reaches back before the first space (`LzariStream.OutputDeterminedIffDefined`, for every source).
- The write loop of the in-memory flash skips 0xFF bytes without moving on
  (`btstack/platform/embedded/hal_flash_bank_memory.c:92`), against the contract in
  `hal_flash_bank.h`; it meets the contract exactly on data in which no 0xFF byte precedes
  another value (`FlashMemory.MeetsContractIffNoGap`), and on cells already written also where
  only zeros move onto zeros (`FlashMemory.MeetsContractIff`). The two writes that append an entry to
  the store get through unchanged exactly if its value and length have no such byte and its tag
  none at all (`FlashMemory.AppendMeetsIff`). A migration copies header and value together in pieces
  of 32 bytes, which arrive unchanged exactly if no piece has such a byte
  (`FlashMemory.CopyMeetsIff`); an entry may be appended well and spoiled by a migration
  (`FlashMemory.MigrationGap`).
- A TLV bank filled to its last byte is given up by the next start-up
  (`btstack/platform/embedded/btstack_tlv_flash_bank.c:379-406`), which writes an empty log of
  epoch 0 to bank 0 and leaves bank 1 alone; with at least 8 free bytes the map is kept
  (`TlvStore.TagStore.Init`, both cases). What results is a store that the next start-up finds
  again if and only if bank 1 has no header or epoch 3. With epoch 1 there, the next start-up
  returns to the log of bank 1 and drops everything stored since (or gives it up again, when that
  is the full bank), unless a migration has erased bank 1 in between
  (`TlvStore.MigrationSettles`); with epochs 0 and 2 it finds no current bank and starts empty again
  (`TlvStore.NextPick`, `TlvStore.OldBankReturns`, `TlvStore.StaleAfterGivingUp`).
- The upper bits of a tick are right up to 2^31 from now, twice what the comment in
  `btstack/platform/embedded/btstack_run_loop_embedded.c:122` promises
  (`Timers.ReconstructedIff`).
- A pass need not end. A timer that a handler adds is run by the same pass, once it heads the list,
  if its deadline is not after the time the pass captured, or is 2^31 counts or more after it and
  so taken for due (`Timers.TakenForDueIff`). A handler that adds its timer again without setting
  it, or sets it that far ahead, keeps the pass going for ever (`RunLoop.EndlessAddPass`,
  `RunLoop.EndlessPass`). As long as the deadlines that handlers add lie after the captured time by
  less than 2^31 counts, the pass ends and runs what is due, once and on time
  (`RunLoop.Loop.ProcessTimers`).
- An EM9304 that is ready and announces a read of nothing leaves the transport waiting forever: the
  DMA call refuses an empty transfer and no completion comes
  (`SpiTransport.Transport.CheckReadStatus`, `SpiTransport.Transport.Conservation`,
  `SpiTransport.Transport.Run`, `SpiTransport.StuckReachable`).
- Only the chosen information block is erased before the bad-block table is saved, so that flagged
  pages of an older table in the other blocks stay and spoil the merge exactly if they have a bit
  the saved table lacks (`BadBlocks.WornTableReadIff`, `BadBlocks.LeftoverSpoils`).
- Empty blocks are never reported as sent or received by the SPI transport.
- The ATWILC3000 upload without a baud rate still sends a baud-rate command, for rate 0, so that
  the rates agree afterwards exactly if a rate was given; and with flow control asked for, a
  driver without `set_flowcontrol` and a rate other than 115200 it ends in a call through a null
  pointer instead of the done callback (`FirmwareUpload.Upload.Run`,
  `FirmwareUpload.NullCallReachable`).

## Model

| member | source | states |
|---|---|---|
| LzariCoder.NarrowBounded | code/src/Decompress/decompress.c:133-136 | every slot of a table whose total is at most 0x7FFF gets a non-empty interval inside the current one, and low < high <= 0x20000 still holds |
| LzariCoder.NarrowScales | code/src/Decompress/decompress.c:135-136 | the bounds of a slot are its cumulative counts scaled to the interval and rounded down |
| LzariCoder.RenormWidth | code/src/Decompress/decompress.c:137-162 | renormalising multiplies the width by exactly 2 per bit taken in |
| LzariCoder.RenormAtMost17 | code/src/Decompress/decompress.c:137-162 | a renormalisation takes in at most 17 bits |
| LzariCoder.RenormInside | code/src/Decompress/decompress.c:137-162 | the code window lies in the interval after renormalising exactly if it did before |
| LzariCoder.ExcessHighest | code/src/Decompress/decompress.c:137-152 | renormalising stops exactly when the interval lies in none of the lower, middle and upper halves of the range, and otherwise doubles it within the highest half it lies in |
| LzariCoder.QuotientFindsSlot | code/src/Decompress/decompress.c:133-136 | the quotient looked up lies in a slot exactly if the code window lies in the interval of that slot |
| LzariCoder.SlotUnique | code/src/Decompress/decompress.c:133-136 | the code window lies in the interval of at most one slot |
| LzariCoder.SlotExists | code/src/Decompress/decompress.c:133-136 | the code window lies in the interval of some slot, so a lookup never fails |
| LzariCoder.ProductFits | code/src/Decompress/decompress.c:134-136 | with an interval of at most 0x20000 and counts of at most 0x7FFF every product stays 2^17 below 2^32 |
| LzariModel.UpdateValid | code/src/Decompress/decompress.c:44-72 | an update keeps counts sorted and at least 1, the two rank tables mutually inverse and the total at most 0x7FFF |
| LzariModel.UpdateCounts | code/src/Decompress/decompress.c:44-72 | seen as a map from characters to counts, an update adds 1 to the decoded character after any halving and changes nothing else |
| LzariModel.UpdateRanks | code/src/Decompress/decompress.c:57-68 | the decoded character takes the first rank with its count, the character that was there takes the rank left, and no other character moves |
| LzariModel.AgedOrdered | code/src/Decompress/decompress.c:48-57 | halving keeps the counts sorted and brings the total below the cap |
| LzariModel.InitialValid | code/src/Decompress/decompress.c:110-121 | the initial tables satisfy the invariant |
| LzariModel.InitialOrder | code/src/Decompress/decompress.c:112-121 | at the start every character counts once and a higher character has a higher rank |
| LzariModel.PosTotal | code/src/Decompress/decompress.c:122-124 | the total of the distance table is at most 0x7FFF |
| LzariModel.PosCumValid | code/src/Decompress/decompress.c:122-124 | the distance table gives every distance a positive count, so every distance has a non-empty interval |
| LzariModel.PosWeighted | code/src/Decompress/decompress.c:122-124 | each distance weighs 10000 divided by the distance plus 200, rounded down |
| LzariModel.CumValid | code/src/Decompress/decompress.c:134-136 | valid counts make a cumulative table in which every character has a non-empty interval |
| LzariStream.TokenInside | code/src/Decompress/decompress.c:131-217 | if the code window lies in the interval reached by coding a token, the decoder reads exactly that token |
| LzariStream.TokenSelected | code/src/Decompress/decompress.c:131-201 | any token has the character whose cumulative counts enclose the scaled position of the code; characters below 256 are bytes, the others lengths from 3; and its distance is the one whose cumulative weights then enclose the position |
| LzariStream.FirstToken | code/src/Decompress/decompress.c:112-163 | for any source, the first character is 313 - ((v + 1) * 314 - 1) / 0x20000 for the number v made of its first 17 code bits |
| LzariStream.FirstByteExample | code/src/Decompress/decompress.c:74-220 | the source 0, 0, 0, 1, 0xFF, 0xFF, 0xFF decompresses to the byte 0 and return value 0 |
| LzariStream.CopyPeriodic | code/src/Decompress/decompress.c:205-215 | every byte a match adds equals the byte its distance back, also within the match |
| LzariStream.SpacesAtStart | code/src/Decompress/decompress.c:126-129 | a match at the start of the output whose distance is at most 4036 copies spaces |
| LzariStream.DecodeTokens | code/src/Decompress/decompress.c:131-217 | from any valid tables, interval and history, decoding a stream that codes a list of tokens yields their expansion and 0 |
| LzariStream.DecodeInvertsEncode | code/src/Decompress/decompress.c:74-220 | any source whose code lies in the interval of a token list decodes to the meaning of the tokens, whatever the uninitialised cells held |
| LzariStream.EncodeEncodes | code/src/Decompress/decompress.c:74-220 | the encoder specified over the same tables and interval formula produces such a source for every token list whose output is below 2^32 bytes |
| LzariStream.RoundTrip | code/src/Decompress/decompress.c:74-220 | decoding the encoding of any token list whose matches reach back into defined history gives its meaning and return value 0 |
| LzariStream.OutputDeterminedIffDefined | code/src/Decompress/decompress.c:126-129 | for every source of at least 4 bytes, also one that runs past the announced length: return value and output are independent of the 60 ring cells that are never initialised exactly if every match it contains reaches only defined history |
| LzariStream.EverySource | code/src/Decompress/decompress.c:74-220 | for every source of at least 4 bytes: the output is the expansion of the tokens it contains, cut off at the announced length, and the return value is 0 exactly if the source encodes those tokens |
| LzariStream.EncodesIff | code/src/Decompress/decompress.c:131-219 | a source encodes at most one token list: the tokens it contains, provided they end at the announced length |
| LzariStream.DecodeExpands | code/src/Decompress/decompress.c:131-219 | the same from any valid tables, interval and history |
| LzariStream.UndefinedExample | code/src/Decompress/decompress.c:207-214 | a single match of length 3 and distance 4096 is encoded, and its output depends on the uninitialised cells |
| LzariStream.OverrunExample | code/src/Decompress/decompress.c:211-212 | a source whose match runs past the announced length returns -1 |
| LzariDecompress.MirrorsPush | code/src/Decompress/decompress.c:169-171 | storing an output byte keeps the ring equal to the last 4096 bytes of history |
| LzariDecompress.CopySource | code/src/Decompress/decompress.c:207-210 | the ring cell read for a match byte holds the history byte the match distance back |
| LzariDecompress.Decompressor.constructor | code/src/Decompress/decompress.c:5-6 | all static tables start zeroed |
| LzariDecompress.Decompressor.NextBit | code/src/Decompress/decompress.c:156-161 | returns the next bit of the source, most significant first, and zero bits after its end |
| LzariDecompress.Decompressor.Double | code/src/Decompress/decompress.c:153-161 | one doubling step of the coder, with the window tracking the source bits |
| LzariDecompress.Decompressor.Renormalise | code/src/Decompress/decompress.c:137-162 | the loop ends, computes the renormalisation and runs at most 17 times |
| LzariDecompress.Decompressor.GetSym | code/src/Decompress/decompress.c:10-25 | finds the rank whose cumulative range contains x |
| LzariDecompress.Decompressor.GetPos | code/src/Decompress/decompress.c:27-42 | finds the distance whose cumulative range contains x |
| LzariDecompress.Decompressor.HalveCounts | code/src/Decompress/decompress.c:48-57 | in place: every count halved rounding up, cumulative table recomputed |
| LzariDecompress.Decompressor.FindLeader | code/src/Decompress/decompress.c:58 | finds the first rank with the same count |
| LzariDecompress.Decompressor.SwapRanks | code/src/Decompress/decompress.c:59-67 | exchanges two ranks in both tables |
| LzariDecompress.Decompressor.BumpRank | code/src/Decompress/decompress.c:68-71 | adds 1 to a count and keeps every cumulative value a suffix sum |
| LzariDecompress.Decompressor.UpdateNode | code/src/Decompress/decompress.c:44-72 | the in-place update of the four tables equals the update of the model |
| LzariDecompress.Decompressor.Prime | code/src/Decompress/decompress.c:99-108 | loads the first 17 bits after the length |
| LzariDecompress.Decompressor.SetupTables | code/src/Decompress/decompress.c:110-124 | every character counts once, ranks rise with the character, the cumulative counts agree, and each distance weighs 10000 divided by the distance plus 200 |
| LzariDecompress.Decompressor.SetupDistances | code/src/Decompress/decompress.c:122-124 | builds the cumulative distance table |
| LzariDecompress.Decompressor.DecodeSym | code/src/Decompress/decompress.c:133-162 | decodes the rank whose interval contains the code window and moves the coder on |
| LzariDecompress.Decompressor.DecodeChar | code/src/Decompress/decompress.c:133-164 | decodes a character and updates the model with its rank |
| LzariDecompress.Decompressor.NarrowTo | code/src/Decompress/decompress.c:135-162 | narrowing in 32-bit arithmetic, without overflow, followed by renormalising |
| LzariDecompress.Decompressor.DecodePos | code/src/Decompress/decompress.c:176-206 | decodes a match distance and moves the coder on |
| LzariDecompress.PutByte | code/src/Decompress/decompress.c:169-171 | writes one byte to output and ring and advances both positions |
| LzariDecompress.CopyBytes | code/src/Decompress/decompress.c:207-216 | copies a match, overlapping or not, as byte-by-byte copying from history; fails exactly if it would pass the end of the output |
| LzariDecompress.NewWindow | code/src/Decompress/decompress.c:126-129 | a ring of 4036 spaces and 60 arbitrary cells mirrors the initial history |
| LzariDecompress.EmitLiteral | code/src/Decompress/decompress.c:165-172 | writes a decoded literal |
| LzariDecompress.EmitMatch | code/src/Decompress/decompress.c:173-217 | decodes a distance and writes the match |
| LzariDecompress.DecodeToken | code/src/Decompress/decompress.c:133-217 | one turn of the main loop is one step of the decoder on history |
| LzariDecompress.DecodeLoop | code/src/Decompress/decompress.c:131-219 | the main loop ends for every source and computes the decoder on history; bytes past the end stay untouched |
| LzariDecompress.Decompress | code/src/Decompress/decompress.c:74-220 | for every source of at least 4 bytes: return value and output are those of the decoder on history, and nothing past the announced length is written |
| LzariDecompress.DecompressEncoded | code/src/Decompress/decompress.c:74-220 | on a source that encodes tokens: returns 0 and writes exactly the bytes the tokens mean |
| FlashBank.FlashBanks.constructor | btstack/platform/embedded/hal_flash_bank_memory.c:114-120 | two erased banks of equal size |
| FlashBank.FlashBanks.Read | btstack/platform/embedded/hal_flash_bank.h:67-75 | returns the cells asked for |
| FlashBank.FlashBanks.Erase | btstack/platform/embedded/hal_flash_bank.h:60-65 | sets all cells of one bank to 0xFF and leaves the other |
| FlashBank.FlashBanks.Write | btstack/platform/embedded/hal_flash_bank.h:77-85 | byte i goes to offset + i; requires that no non-zero byte meets a cell that is not erased, so every caller is proved to keep the write-once rule |
| FlashMemory.WriteLoop | btstack/platform/embedded/hal_flash_bank_memory.c:89-100 | the loop as it stands stores the bytes other than 0xFF without gaps, and stops exactly if a cell would be written twice |
| FlashMemory.MeetsContractIffNoGap | btstack/platform/embedded/hal_flash_bank_memory.c:89-100 | on erased cells the loop never stops, and meets the flash contract exactly if no 0xFF byte precedes another value |
| FlashMemory.MeetsContractIff | btstack/platform/embedded/hal_flash_bank_memory.c:89-100 | on any cells for which the contract allows the data: the loop meets it exactly if no 0xFF byte precedes another value, or only zeros follow the first 0xFF byte and land on cells that are zero already |
| FlashMemory.AppendMeetsIff | btstack/platform/embedded/btstack_tlv_flash_bank.c:317-328 | the two writes of a stored entry get through the loop unchanged exactly if neither value nor length has a 0xFF byte in front of another value and the tag has none |
| FlashMemory.HeaderAndDeletionMeet | btstack/platform/embedded/btstack_tlv_flash_bank.c:172-177 | bank headers and deletions always get through unchanged |
| FlashMemory.CopyMeetsIff | btstack/platform/embedded/btstack_tlv_flash_bank.c:232-240 | a migration, which copies header and value in pieces of 32 bytes, is never stopped by the loop on erased cells and leaves what the contract says exactly if no piece has a 0xFF byte in front of another value |
| FlashMemory.MigrationGap | btstack/platform/embedded/btstack_tlv_flash_bank.c:232-240 | an entry whose append meets the contract while its migration does not |
| FlashMemory.GapExample | btstack/platform/embedded/hal_flash_bank_memory.c:92 | a two-byte write that lands at the wrong offset |
| TlvLayout.EntryAt | btstack/platform/embedded/btstack_tlv_flash_bank.c:122-127 | tag, length and value read back at the offset of an entry are those of the entry |
| TlvLayout.KillLive | btstack/platform/embedded/btstack_tlv_flash_bank.c:252-264 | zeroing the tag of every entry of a tag removes exactly that tag from the map |
| TlvLayout.DedupeAppended | btstack/platform/embedded/btstack_tlv_flash_bank.c:330-331 | after an append, however many older entries were zeroed, dropping the older entries of the last tag gives the map with the new value |
| TlvLayout.DedupeAgain | btstack/platform/embedded/btstack_tlv_flash_bank.c:381-385 | an interrupted clean-up of older entries can be repeated without changing its outcome |
| TlvLayout.CompactLive | btstack/platform/embedded/btstack_tlv_flash_bank.c:221-242 | leaving out deleted entries does not change the map |
| TlvLayout.RoomCompact | btstack/platform/embedded/btstack_tlv_flash_bank.c:221-242 | compacted entries take exactly the room of the map: 8 bytes and the value for each tag |
| TlvLayout.LatestIsCurrent | btstack/platform/embedded/btstack_tlv_flash_bank.c:155-170 | the epoch comparison modulo 4 picks the bank that is in use |
| TlvLayout.LatestIff | btstack/platform/embedded/btstack_tlv_flash_bank.c:155-170 | for any two banks, a bank is picked exactly if it has a header and the other one has none or is one epoch behind |
| TlvLayout.HoldsOne | btstack/platform/embedded/btstack_tlv_flash_bank.c:118-149 | a bank holds one list of entries only |
| TlvLayout.RecoversOne | btstack/platform/embedded/btstack_tlv_flash_bank.c:357-399 | flash recovers to one map at most |
| TlvLayout.ProgramZeroTag | btstack/platform/embedded/btstack_tlv_flash_bank.c:255-261 | zeroing a tag respects the write-once rule and zeroes just that entry |
| TlvLayout.ProgramValue | btstack/platform/embedded/btstack_tlv_flash_bank.c:324-325 | writing a value behind the end leaves the entries as they are |
| TlvLayout.ProgramHead | btstack/platform/embedded/btstack_tlv_flash_bank.c:327-328 | writing the header behind the end adds the entry |
| TlvStore.TagStore.constructor | btstack/platform/embedded/btstack_tlv_flash_bank.c:357-360 | a store on a pair of banks |
| TlvStore.TagStore.FetchTagLen | btstack/platform/embedded/btstack_tlv_flash_bank.c:122-127 | reads tag and length at an offset |
| TlvStore.TagStore.IteratorInit | btstack/platform/embedded/btstack_tlv_flash_bank.c:129-134 | starts at the first entry, or at the end of an empty bank |
| TlvStore.TagStore.FetchNext | btstack/platform/embedded/btstack_tlv_flash_bank.c:141-149 | moves to the next entry, or reports the end |
| TlvStore.TagStore.TestErased | btstack/platform/embedded/btstack_tlv_flash_bank.c:182-198 | true exactly if all cells from the offset on are erased |
| TlvStore.TagStore.GetLatestBank | btstack/platform/embedded/btstack_tlv_flash_bank.c:155-170 | the bank chosen by magic and epoch, or -1 |
| TlvStore.TagStore.EraseBank | btstack/platform/embedded/btstack_tlv_flash_bank.c:203-210 | leaves the bank erased; calls the flash exactly if it was not |
| TlvStore.TagStore.WriteHeader | btstack/platform/embedded/btstack_tlv_flash_bank.c:172-177 | writes magic and epoch to an erased bank start |
| TlvStore.TagStore.DeleteTagUntilOffset | btstack/platform/embedded/btstack_tlv_flash_bank.c:252-264 | zeroes exactly the matching entries before the offset; every image on the way has some of them zeroed |
| TlvStore.TagStore.CopyEntry | btstack/platform/embedded/btstack_tlv_flash_bank.c:224-240 | copies an entry in pieces of 32 bytes to the other bank; every image on the way recovers the old map |
| TlvStore.TagStore.CopyLive | btstack/platform/embedded/btstack_tlv_flash_bank.c:220-242 | copies exactly the entries that are not deleted, in order |
| TlvStore.TagStore.PrepareNext | btstack/platform/embedded/btstack_tlv_flash_bank.c:214-218 | erases the other bank while the current one stays in use |
| TlvStore.TagStore.SwitchBank | btstack/platform/embedded/btstack_tlv_flash_bank.c:244-249 | writing the next epoch makes the other bank the current one in one flash call |
| TlvStore.TagStore.Migrate | btstack/platform/embedded/btstack_tlv_flash_bank.c:212-250 | keeps the map, drops deleted entries, switches banks with the next epoch, leaves the rest erased; every image on the way recovers the map |
| TlvStore.TagStore.FindTag | btstack/platform/embedded/btstack_tlv_flash_bank.c:280-290 | finds the first entry with the tag, exactly if there is one |
| TlvStore.TagStore.SoughtIsMap | btstack/platform/embedded/btstack_tlv_flash_bank.c:280-290 | for every tag but 0 that is the value in the map |
| TlvStore.TagStore.GetTag | btstack/platform/embedded/btstack_tlv_flash_bank.c:273-295 | 0 for an absent tag; the length without a buffer; otherwise the prefix of the stored value that fits, and nothing else in the buffer; tag 0 finds the first deleted entry |
| TlvStore.TagStore.DeleteTag | btstack/platform/embedded/btstack_tlv_flash_bank.c:343-346 | removes exactly this tag; every image on the way recovers the map before or after |
| TlvStore.TagStore.LeftFits | btstack/platform/embedded/btstack_tlv_flash_bank.c:307-315 | the space test, with a migration if needed, fails exactly if the compacted map has no room for the entry |
| TlvStore.TagStore.NextHeaderInsideIff | btstack/platform/embedded/btstack_tlv_flash_bank.c:141-149 | behind a new entry the iterator stops or reads a header inside the bank exactly if it leaves nothing or at least 8 bytes free |
| TlvStore.TagStore.AppendEntry | btstack/platform/embedded/btstack_tlv_flash_bank.c:317-328 | value, then header; every image on the way recovers the map before or after |
| TlvStore.TagStore.ReplaceEntry | btstack/platform/embedded/btstack_tlv_flash_bank.c:317-334 | appends an entry and zeroes the older ones of its tag |
| TlvStore.TagStore.StoreTag | btstack/platform/embedded/btstack_tlv_flash_bank.c:303-337 | returns 2 exactly if the map has no room for the value even after migration, and then keeps the map; otherwise 0 and the map gets the value; the bank changes exactly if the entry does not fit behind the log; every image on the way recovers the map before or after |
| TlvStore.TagStore.Format | btstack/platform/embedded/btstack_tlv_flash_bank.c:401-406 | an empty log of epoch 0 in bank 0, bank 1 untouched; a valid store if and only if bank 1 has no header or epoch 3 |
| TlvStore.TagStore.FindEnd | btstack/platform/embedded/btstack_tlv_flash_bank.c:367-377 | last tag, its offset and the end of the entries |
| TlvStore.TagStore.DropOlder | btstack/platform/embedded/btstack_tlv_flash_bank.c:381-385 | removes older entries of the last tag, without changing what is recovered |
| TlvStore.TagStore.Adopt | btstack/platform/embedded/btstack_tlv_flash_bank.c:365-399 | takes over the bank found: repairs it so that the map is the recovered one, or gives up exactly if the bank is full |
| TlvStore.TagStore.Init | btstack/platform/embedded/btstack_tlv_flash_bank.c:357-410 | from any image that recovers a map the store starts with that map, and each image of the recovery itself recovers it too; on flash as completed operations leave it nothing is written; flash with a full current bank, or without a current bank, is given up: an empty log in bank 0, which is a valid store if and only if bank 1 then yields to it |
| TlvStore.NextPick | btstack/platform/embedded/btstack_tlv_flash_bank.c:155-170 | after giving up, the next start-up picks bank 0 if bank 1 has no header or epoch 3, bank 1 if it has epoch 1, and none otherwise |
| TlvStore.OldBankReturns | btstack/platform/embedded/btstack_tlv_flash_bank.c:155-170 | with epoch 1 in bank 1 the next start-up returns to the log of bank 1, whatever has been stored in bank 0 since |
| TlvStore.MigrationSettles | btstack/platform/embedded/btstack_tlv_flash_bank.c:212-250 | until a migration erases bank 1: from then on bank 0 is the current one, and after the copy bank 1 with epoch 1 |
| TlvStore.StaleAfterGivingUp | btstack/platform/embedded/btstack_tlv_flash_bank.c:394-406 | flash with a full bank of epoch 2 for which this happens |
| TlvStore.TagStore.ValidRecovers | btstack/platform/embedded/btstack_tlv_flash_bank.c:357-399 | a store with free space is always recoverable: its image yields its map, and the next start-up writes nothing |
| TlvStore.TagStore.NoRoomLost | btstack/platform/embedded/btstack_tlv_flash_bank.c:212-250 | migration never loses free space |
| TlvRuns.Perform | btstack/platform/embedded/btstack_tlv_flash_bank.c:303-346 | one operation refines its effect on the map, and every image between flash calls recovers the map before or after |
| TlvRuns.PowerUp | btstack/platform/embedded/btstack_tlv_flash_bank.c:357-410 | start-up, itself cut short any number of times at any flash call, ends with the recovered map |
| TlvRuns.DoEvent | btstack/platform/embedded/btstack_tlv_flash_bank.c:303-410 | an operation cut short at any flash call, followed by start-up, leaves the map before or after it |
| TlvRuns.Run | btstack/platform/embedded/btstack_tlv_flash_bank.c:212-410 | in whole runs of stores and deletions with power losses every event is performed and follows the map, never a mixture; a run ends early only in front of a store that would leave fewer than 8 bytes free |
| TlvRuns.Fresh | btstack/platform/embedded/btstack_tlv_flash_bank.c:401-406 | a store on flash without a header starts empty |
| Timers.ReconstructedIff | btstack/platform/embedded/btstack_run_loop_embedded.c:122-138 | the reconstructed upper bits make the 32-bit value the true deadline exactly if it is less than 2^31 away; the comment in the source promises 2^30 |
| Timers.OrdersByDeadline | btstack/platform/embedded/btstack_run_loop_embedded.c:162-167 | the comparison of add_timer orders by true deadline across wrap-around |
| Timers.DueIffReached | btstack/platform/embedded/btstack_run_loop_embedded.c:233-235 | the due test holds exactly if the captured time has reached the deadline |
| Timers.NotDueIff | btstack/platform/embedded/btstack_run_loop_embedded.c:233-235 | for any distance the due test depends on the distance modulo 2^32 alone |
| Timers.TakenForDueIff | btstack/platform/embedded/btstack_run_loop_embedded.c:233-235 | a deadline less than 2^32 after the captured time is taken for due exactly if it is reached or lies 2^31 or more after that time |
| RunLoop.Loop.constructor | btstack/platform/embedded/btstack_run_loop_embedded.c:293-305 | the list starts empty |
| RunLoop.Loop.DelayIs | btstack/platform/embedded/btstack_run_loop_embedded.c:110-120 | in ticks of a period: two for a delay shorter than the period, and otherwise one more than the whole periods in the delay; in milliseconds one more than the delay |
| RunLoop.Loop.Advance | btstack/platform/embedded/btstack_run_loop_embedded.c:261-264 | counting time with wrap-around keeps the list sorted by true deadline |
| RunLoop.Loop.SetTimer | btstack/platform/embedded/btstack_run_loop_embedded.c:110-120 | the 32-bit timeout stands for the true deadline, exactly that delay after now |
| RunLoop.Loop.ArmedKeepsDelay | btstack/platform/embedded/btstack_run_loop_embedded.c:110-120 | the deadline of a run lies behind the time of arming by the delay asked for, no less and no more: one tick and as many whole periods as the delay holds, at least one |
| RunLoop.Loop.FindPlace | btstack/platform/embedded/btstack_run_loop_embedded.c:156-168 | finds the place behind all deadlines that are not later, or the timer itself |
| RunLoop.Loop.AddTimer | btstack/platform/embedded/btstack_run_loop_embedded.c:143-172 | inserts behind equal deadlines and keeps the list sorted; adding a listed timer changes nothing |
| RunLoop.Loop.RemoveTimer | btstack/platform/embedded/btstack_run_loop_embedded.c:177-183 | takes the timer out if it is listed and keeps the others in order |
| RunLoop.Loop.HandlerStep | btstack/platform/embedded/btstack_run_loop_embedded.c:236-237 | whatever a handler does (time passes; a timer is armed, added with or without arming it, or removed), a timer that disappears was removed; if the deadlines added lie after the captured time by less than 2^31, no due timer appears and all deadlines stay within 2^31 of that time |
| RunLoop.Loop.RunFirst | btstack/platform/embedded/btstack_run_loop_embedded.c:232-237 | the first timer leaves the list and runs |
| RunLoop.Loop.ProcessTimers | btstack/platform/embedded/btstack_run_loop_embedded.c:221-239 | for any handlers: every run is of a timer taken for due, armed with exactly the delay asked for, every timer listed at the start is still listed as it was, has run or was removed by a handler, and the pass is over exactly if the list is empty or its first timer is not taken for due; if every deadline that handlers add lies after the captured time by less than 2^31, the pass ends within as many turns as timers were listed, runs only timers listed and due at that time, each once, on time, in deadline order and in list order among equal deadlines, leaves none due, skips a due timer only if a handler removed it, and keeps every other timer with its deadline unless a handler removed it |
| RunLoop.Loop.Turn | btstack/platform/embedded/btstack_run_loop_embedded.c:231-238 | one turn runs the first timer and keeps this account |
| RunLoop.EndlessPass | btstack/platform/embedded/btstack_run_loop_embedded.c:230-238 | a pass whose handler sets its timer 2^31 or more after the captured time runs it early any number of times without coming to an end |
| RunLoop.EndlessAddPass | btstack/platform/embedded/btstack_run_loop_embedded.c:230-238 | a pass whose handler adds its timer again without setting it runs it any number of times without coming to an end |
| RunLoop.Loop.AccountedStep | btstack/platform/embedded/btstack_run_loop_embedded.c:231-238 | each turn keeps the account: runs in order, every due timer run, removed or still listed |
| RunLoop.Loop.ScheduledStep | btstack/platform/embedded/btstack_run_loop_embedded.c:231-238 | each turn keeps the order: the timers run so far, and the due ones still listed behind them, are in the order the list had at the start |
| RunLoop.DueShrinks | btstack/platform/embedded/btstack_run_loop_embedded.c:231-238 | each turn leaves strictly fewer due timers, whatever the handler does, as long as it adds none that is due |
| WakeUp.MainKeeps | btstack/platform/embedded/btstack_run_loop_embedded.c:209-249 | every step of poll handler and loop keeps the invariant |
| WakeUp.EnterKeeps | btstack/platform/embedded/btstack_uart_block_embedded.c:68-81 | an interrupt at any point where interrupts are on keeps the invariant |
| WakeUp.StepKeeps | btstack/platform/embedded/btstack_uart_block_embedded.c:68-115 | every step of handlers, interrupts and loop keeps it |
| WakeUp.RunKeeps | btstack/platform/embedded/btstack_run_loop_embedded.c:209-264 | it holds after any interleaving |
| WakeUp.AsleepMeansDelivered | btstack/platform/embedded/btstack_run_loop_embedded.c:241-248 | under the invariant a sleeping loop has no undelivered event |
| WakeUp.NoLostWakeUp | btstack/platform/embedded/btstack_run_loop_embedded.c:209-249 | after any interleaving of nested interrupts with the loop: completions and deliveries differ by the pending one, and when the loop sleeps nothing is undelivered, the latest handler call came after the latest completion, and timers were processed at the current tick |
| WakeUp.MainProgress | btstack/platform/embedded/btstack_uart_block_embedded.c:90-115 | a pending event comes nearer to its handler call with every step of the loop |
| WakeUp.OtherProgress | btstack/platform/embedded/btstack_uart_block_embedded.c:68-81 | interrupts and handlers never put it off |
| WakeUp.DeliveredWithinRemaining | btstack/platform/embedded/btstack_uart_block_embedded.c:90-115 | the handler is called within the number of loop steps remaining |
| WakeUp.DeliveredSoon | btstack/platform/embedded/btstack_run_loop_embedded.c:209-249 | in every run a pending event is delivered within 32 steps of the loop, whatever interrupts come in between |
| WakeUp.SleepsIn | btstack/platform/embedded/btstack_run_loop_embedded.c:209-249 | without interrupts the loop falls asleep after exactly the number of steps given by its place in the iteration, the flags and the trigger |
| WakeUp.SleepsSoon | btstack/platform/embedded/btstack_run_loop_embedded.c:209-249 | from every reachable state with no interrupt routine running, the loop sleeps within 23 undisturbed steps, with one further iteration if the trigger is set |
| WakeUp.FirstSleep | btstack/platform/embedded/btstack_run_loop_embedded.c:209-249 | without interrupts it sleeps after six steps from the start |
| WakeUp.WokenExample | btstack/platform/embedded/btstack_run_loop_embedded.c:209-249 | a run in which a block is started, the loop sleeps, the completion wakes it up and is reported |
| WakeUp.Counters | btstack/platform/embedded/btstack_run_loop_embedded.c:262-264 | the counters of ticks, blocks started and completions count the steps of the run |
| Sha1.ChooseBitwise | code/src/Flash/sha1.c:112 | the three-operation form is the choice function of section 5 of FIPS 180-1 |
| Sha1.MajorityBitwise | code/src/Flash/sha1.c:166 | the factored form is the majority function of section 5 |
| Sha1.CodeFIsF | code/src/Flash/sha1.c:112-194 | the four functions of the code are those of the standard in each range of 20 rounds |
| Sha1.CircularStep | code/src/Flash/sha1.c:94-99 | overwriting slot t mod 16 keeps the buffer equal to the last 16 schedule words |
| Sha1.CircularNext | code/src/Flash/sha1.c:94-99 | the word computed from the buffer is word t of the 80-word schedule |
| Sha1.RoundPending | code/src/Flash/sha1.c:101-104 | one round with rotated arguments is one round of the five-variable rotation |
| Sha1.Context.P | code/src/Flash/sha1.c:101-104 | updates one register in place and rotates another |
| Sha1.Context.R | code/src/Flash/sha1.c:94-99 | computes and stores the next schedule word |
| Sha1.Context.Rounds0to19 | code/src/Flash/sha1.c:112-134 | the first 20 rounds, unrolled |
| Sha1.Context.FiveRounds | code/src/Flash/sha1.c:142-146 | five rounds bring the registers back to their places |
| Sha1.Context.Rounds20to79 | code/src/Flash/sha1.c:139-215 | the other 60 rounds |
| Sha1.Context.Process | code/src/Flash/sha1.c:71-225 | for every block and state, the compression of sections 7 and 8 of FIPS 180-1 |
| Sha1.Context.constructor | code/src/Flash/sha1.c:60-70 | the empty message |
| Sha1.Context.Count | code/src/Flash/sha1.c:236-240 | the two words hold the length modulo 2^64, carry included |
| Sha1.Context.TopUp | code/src/Flash/sha1.c:242-250 | completes a partial block and processes it |
| Sha1.Context.WholeBlocks | code/src/Flash/sha1.c:252-257 | processes the whole blocks of the input |
| Sha1.Context.Update | code/src/Flash/sha1.c:227-264 | appends the input to the message, in whatever pieces it arrives |
| Sha1.LengthBits | code/src/Flash/sha1.c:280-285 | the two length words, big-endian, are the bit length |
| Sha1.Context.Finish | code/src/Flash/sha1.c:274-298 | the digest of the padded message for lengths below 2^61 bytes |
| Sha1.Sha1 | code/src/Flash/sha1.c:299-306 | the FIPS 180-1 digest of every input |
| Sha1.Sha1OfParts | code/src/Flash/sha1.c:227-298 | any split over successive updates gives the digest of the whole |
| Sha1Spec.PadLength | code/src/Flash/sha1.c:287-291 | padded messages are whole blocks |
| BadBlockTable.RecoverFirst | code/src/Flash/badblock.c:22-36 | the first intact copy in reading order decides |
| BadBlockTable.RecoverCodes | code/src/Flash/badblock.c:22-47 | -1 exactly if no copy carries the mark, 0 exactly if a copy or the merge has the right digest, -2 otherwise; unless it is 0 the table is empty |
| BadBlockTable.MergeBit | code/src/Flash/badblock.c:28-37 | a bit of the merge is set exactly if some flagged copy has it |
| BadBlockTable.MergeRestoresIff | code/src/Flash/badblock.c:37 | copies that only lost bits merge back to the original exactly if every bit survives in some flagged copy |
| BadBlockTable.DamageRepairedIff | code/src/Flash/badblock.c:15-51 | the table is recovered from such copies exactly if every 1 bit survives in some flagged copy, provided only the original passes the digest check |
| BadBlockTable.DamageRepaired | code/src/Flash/badblock.c:15-51 | copies that only lost bits outside the flag give back the table if every 1 bit survives in some flagged copy and no damaged copy passes the digest check |
| BadBlockTable.MergeExactIff | code/src/Flash/badblock.c:28-37 | for any copies: the merge is the original exactly if every bit survives in some flagged copy and no flagged copy adds one |
| BadBlockTable.ReadsIff | code/src/Flash/badblock.c:15-51 | for any copies: the table is read exactly if some copy is intact, or every bit survives in some flagged copy and none adds one, provided only the original passes the digest check |
| BadBlocks.Manager.CheckDigest | code/src/Flash/badblock.c:30-32 | digest comparison of a page |
| BadBlocks.Manager.OrPages | code/src/Flash/badblock.c:37 | in-place union of two pages |
| BadBlocks.Manager.ReadBadBlockInfo | code/src/Flash/badblock.c:15-51 | reads all 256 copies in order, highest block first, and returns what recovery says |
| BadBlocks.Manager.ProbeBadBlock | code/src/Flash/badblock.c:53-68 | non-zero exactly if the first or last page of the block does not read as erased |
| BadBlocks.Manager.ScanBlocks | code/src/Flash/badblock.c:79-84 | marks exactly the blocks in the data range that probe as bad |
| BadBlocks.Manager.ChooseBlock | code/src/Flash/badblock.c:86-89 | the highest block of the information area not marked bad, else its first |
| BadBlocks.Manager.WriteCopies | code/src/Flash/badblock.c:98-102 | all 64 pages of the block get the same page, other blocks stay |
| BadBlocks.Manager.SaveTable | code/src/Flash/badblock.c:85-102 | after saving, reading returns exactly the table; other blocks stay |
| BadBlocks.Manager.ScanAndSave | code/src/Flash/badblock.c:79-102 | finds the marked blocks and saves their table |
| BadBlocks.Manager.BadBlockInit | code/src/Flash/badblock.c:71-103 | keeps a readable table, otherwise scans and saves one in one block so that the next read returns it; does nothing on the excluded chip |
| BadBlocks.ScannedTable | code/src/Flash/badblock.c:79-84 | when no table is readable, an entry is set exactly for the blocks from 48 on whose first or last page has a byte other than 0xFF |
| BadBlocks.SavedBlock | code/src/Flash/badblock.c:85-102 | the table goes to the highest of blocks 48 to 51 whose first and last page were blank, to block 48 if none is, as 64 pages of mark, table and SHA-1 digest |
| BadBlocks.HighestBlockFirst | code/src/Flash/badblock.c:22-36 | the table read is that of the first intact page, blocks from 51 down to 48 and pages upwards |
| BadBlocks.NextStartAgrees | code/src/Flash/badblock.c:71-103 | the next start reads back the same table and writes nothing |
| BadBlocks.WornTableReadIff | code/src/Flash/badblock.c:15-103 | initialisation, loss of bits in the saved pages, and the next read, on NAND pages: the table is returned exactly if some page is intact, or every bit survives in some flagged page and no flagged page left over in the other information blocks adds one |
| BadBlocks.LeftoverSpoils | code/src/Flash/badblock.c:85-103 | with no page intact any more, one bit in a flagged page of another information block that the saved page lacks keeps the table from being read back |
| RingBuffer.HeldAppend | code/src/btstack/src/btstack_ring_buffer.c:102-117 | storing a piece at the write position appends it to the bytes held |
| RingBuffer.HeldTake | code/src/btstack/src/btstack_ring_buffer.c:137-154 | a piece at the read position is the front of the bytes held |
| RingBuffer.Ring.constructor | code/src/btstack/src/btstack_ring_buffer.c:56-62 | starts empty |
| RingBuffer.Ring.BytesAvailable | code/src/btstack/src/btstack_ring_buffer.c:64-76 | the number of bytes held, full and empty told apart |
| RingBuffer.Ring.BytesFree | code/src/btstack/src/btstack_ring_buffer.c:84-86 | the room left |
| RingBuffer.Ring.Write | code/src/btstack/src/btstack_ring_buffer.c:89-124 | appends all bytes, or none exactly if they do not fit |
| RingBuffer.Ring.Read | code/src/btstack/src/btstack_ring_buffer.c:127-158 | removes the oldest bytes in order, at most as many as asked for |
| SpiTransport.MoveToBlock | btstack/port/stm32-l053r8-em9304/port.c:257-265 | bytes moved from the ring to the host buffer keep the received stream in order, and complete a block of exactly the length asked |
| SpiTransport.ChunkSent | btstack/port/stm32-l053r8-em9304/port.c:354-359 | a piece sent keeps the sent stream equal to the submitted one |
| SpiTransport.PiecesBounded | btstack/port/stm32-l053r8-em9304/port.c:354-355 | a block takes at most as many transactions as it has bytes |
| SpiTransport.Transport.constructor | btstack/port/stm32-l053r8-em9304/port.c:399-402 | idle, deselected, empty ring |
| SpiTransport.Transport.Conservation | btstack/port/stm32-l053r8-em9304/port.c:249-386 | at any time: delivered blocks are a prefix of the bytes read and have the lengths asked for; a request has been delivered exactly if the bytes that have reached the ring cover it, and none waits while the ring holds bytes; pieces sent are a prefix of the blocks submitted and contain every reported block in full; one report for each block but the one under way; chip select low exactly when not idle; a wait without a transfer only after a read of nothing was announced |
| SpiTransport.DeliveredOnceRead | btstack/port/stm32-l053r8-em9304/port.c:249-331 | in any run, a request that lacks n bytes is delivered exactly once n further bytes have been read and taken over by a poll |
| SpiTransport.StuckReachable | btstack/port/stm32-l053r8-em9304/port.c:284-317 | the transport can get stuck: the first read finds a ready slave that announces nothing |
| SpiTransport.Transport.TransferRxData | btstack/port/stm32-l053r8-em9304/port.c:249-267 | delivers until the ring is empty or no request is left |
| SpiTransport.Transport.PollIdle | btstack/port/stm32-l053r8-em9304/port.c:284-299 | reads if the slave is ready and 64 bytes are free, and otherwise sends if there is something to send |
| SpiTransport.Transport.CheckReadStatus | btstack/port/stm32-l053r8-em9304/port.c:301-317 | reads the announced number of bytes from a ready slave and lets another go; the transport is stuck exactly if a ready slave announces nothing |
| SpiTransport.AnnouncedIsRead | btstack/port/stm32-l053r8-em9304/port.c:301-331 | a ready slave that announces k bytes has them read and added to the stream in three further events; another is let go |
| SpiTransport.RoomIsUsed | btstack/port/stm32-l053r8-em9304/port.c:342-381 | a ready slave with room for k bytes is sent the next k bytes of the block or what is left of it; another is let go |
| SpiTransport.Transport.StoreArrived | btstack/port/stm32-l053r8-em9304/port.c:319-327 | the ring never drops a byte of a read of at most 64 bytes |
| SpiTransport.Transport.FinishRead | btstack/port/stm32-l053r8-em9304/port.c:319-331 | stores and delivers what arrived |
| SpiTransport.Transport.PollReady | btstack/port/stm32-l053r8-em9304/port.c:333-340 | sends the write command when the slave is ready |
| SpiTransport.Transport.CheckWriteStatus | btstack/port/stm32-l053r8-em9304/port.c:342-360 | sends as much as the slave has room for, or gives up |
| SpiTransport.Transport.FinishWrite | btstack/port/stm32-l053r8-em9304/port.c:362-381 | drops the piece sent; reports the block exactly if nothing is left of it |
| SpiTransport.Transport.Process | btstack/port/stm32-l053r8-em9304/port.c:277-386 | moves to the state of the table and keeps both streams; does nothing while a transfer is under way |
| SpiTransport.Transport.CompleteTransfer | btstack/port/stm32-l053r8-em9304/port.c:202-241 | completion of any transfer keeps both streams |
| SpiTransport.Transport.SendBlock | btstack/port/stm32-l053r8-em9304/port.c:416-420 | submits a block after the previous one was reported; an empty block is neither sent nor reported |
| SpiTransport.Transport.ReceiveBlock | btstack/port/stm32-l053r8-em9304/port.c:422-428 | asks for a block after the previous one was delivered; a request for nothing is never reported |
| SpiTransport.Transport.Do | btstack/port/stm32-l053r8-em9304/port.c:202-428 | every event allowed to host and hardware keeps the invariant and has exactly its effect on the state |
| SpiTransport.Transport.Run | btstack/port/stm32-l053r8-em9304/port.c:202-428 | every list of events, with any data, is carried out event by event, each on the state the one before left, up to the first that host or hardware are not allowed |
| SpiTransport.EventGrows | btstack/port/stm32-l053r8-em9304/port.c:202-428 | the histories only grow |
| SpiTransport.StuckStays | btstack/port/stm32-l053r8-em9304/port.c:313-317 | a transport that waits for a transfer that was never started goes on waiting |
| SpiTransport.EventProgress | btstack/port/stm32-l053r8-em9304/port.c:277-386 | with a cooperative slave every event reports the block under way or brings the report nearer |
| SpiTransport.ReportedSoon | btstack/port/stm32-l053r8-em9304/port.c:277-386 | with a cooperative slave a block of n bytes is reported within 5 n + 5 polls and completions |
| SpiTransport.CanCooperate | btstack/port/stm32-l053r8-em9304/port.c:277-386 | and such an event is always possible |
| SpiTransport.ReadProgress | btstack/port/stm32-l053r8-em9304/port.c:277-386 | with a slave that is ready and announces some data every event delivers the request under way or brings the delivery nearer |
| SpiTransport.DeliveredSoon | btstack/port/stm32-l053r8-em9304/port.c:277-386 | with such a slave a request that lacks n bytes, with m bytes of a block still to be sent, is delivered within 5 n + 5 m + 1 polls and completions, unless a read of nothing was announced |
| SpiTransport.CanServe | btstack/port/stm32-l053r8-em9304/port.c:277-386 | and such an event is always possible |
| FirmwareUpload.WriteCommandUnderstood | btstack/chipset/atwilc3000/btstack_chipset_atwilc3000.c:190-196 | the write command announces exactly its address and length |
| FirmwareUpload.BaudrateCommandUnderstood | btstack/chipset/atwilc3000/btstack_chipset_atwilc3000.c:104-110 | the baud-rate command carries exactly its rate |
| FirmwareUpload.LoadedMore | btstack/chipset/atwilc3000/btstack_chipset_atwilc3000.c:195-214 | storing the next bytes at the next address extends the loaded prefix, in 32-bit addresses, and touches nothing else |
| FirmwareUpload.TilesLoad | btstack/chipset/atwilc3000/btstack_chipset_atwilc3000.c:177-215 | carrying out the chunks in order loads their part of the image and leaves all other memory unchanged |
| FirmwareUpload.ChunkCount | btstack/chipset/atwilc3000/btstack_chipset_atwilc3000.c:180-189 | a whole image takes ceil(size / 4096) chunks |
| FirmwareUpload.Upload.StoreLittleEndian32 | code/src/btstack/src/btstack_util.c:89-94 | the four bytes, least significant first, and no others |
| FirmwareUpload.Upload.DownloadFirmware | btstack/chipset/atwilc3000/btstack_chipset_atwilc3000.c:264-283 | starts the chain, or reports the error of opening the driver |
| FirmwareUpload.Upload.Start | btstack/chipset/atwilc3000/btstack_chipset_atwilc3000.c:129-137 | sends the reset and waits for its answer |
| FirmwareUpload.Upload.AfterReset | btstack/chipset/atwilc3000/btstack_chipset_atwilc3000.c:139-145 | asks for the version |
| FirmwareUpload.Upload.AfterVersion | btstack/chipset/atwilc3000/btstack_chipset_atwilc3000.c:147-161 | done at once exactly if the controller does not run from ROM |
| FirmwareUpload.Upload.UpdateUartParams | btstack/chipset/atwilc3000/btstack_chipset_atwilc3000.c:163-169 | asks for the upload baud rate |
| FirmwareUpload.Upload.AfterBaudrateUpdate | btstack/chipset/atwilc3000/btstack_chipset_atwilc3000.c:171-175 | both sides now use the upload rate |
| FirmwareUpload.Upload.WriteMemoryStep | btstack/chipset/atwilc3000/btstack_chipset_atwilc3000.c:177-202 | announces the next chunk, or reboots the controller exactly when all is written |
| FirmwareUpload.Upload.WriteFirmwareStep | btstack/chipset/atwilc3000/btstack_chipset_atwilc3000.c:204-215 | sends exactly the bytes announced |
| FirmwareUpload.Upload.AfterVendorReset | btstack/chipset/atwilc3000/btstack_chipset_atwilc3000.c:224-229 | arms the timer |
| FirmwareUpload.Upload.ConfigureUart | btstack/chipset/atwilc3000/btstack_chipset_atwilc3000.c:231-248 | sets rate and flow control again, or is done |
| FirmwareUpload.Upload.DoneStep | btstack/chipset/atwilc3000/btstack_chipset_atwilc3000.c:250-262 | calls the done callback once, unless it calls a missing set_flowcontrol |
| FirmwareUpload.Upload.BlockSent | btstack/chipset/atwilc3000/btstack_chipset_atwilc3000.c:204-229 | every completed transmission keeps the protocol invariant and brings the end nearer |
| FirmwareUpload.Upload.BlockReceived | btstack/chipset/atwilc3000/btstack_chipset_atwilc3000.c:139-215 | so does every answer |
| FirmwareUpload.Upload.Run | btstack/chipset/atwilc3000/btstack_chipset_atwilc3000.c:129-283 | the chain ends; unless skipped, the controller then holds the image at IRAM_START and is otherwise unchanged, got ceil(size / 4096) chunks, each as announced and at the rate it used; it got exactly the commands reset, version query, upload rate if one was given, the chunks, reboot, and rate with flow control if needed, in this order; done is called exactly once if and only if flow control was not asked of a driver without it at a non-default rate, and then both sides use flow control exactly if it was asked for and the driver has it, and the same baud rate exactly if one was given |
| FirmwareUpload.NullCallReachable | btstack/chipset/atwilc3000/btstack_chipset_atwilc3000.c:250-262 | an upload at 9600 baud that ends in the call through a null pointer |

## Left out

LZARI:
- LzariDecompress.Decompress: sources shorter than 4 bytes and a destination shorter than the announced length are outside the contract; the source has no check for them either.
- The mask bit test and the shifts are written as division and remainder; `ulong` is modelled with 32 bits, the width the bounds are tight for.

TLV store:
- TlvStore.TagStore.StoreTag: requires that the store leaves no byte free or at least 8, because with 1 to 7 bytes left the iterator reads a header past the end of the bank (TlvStore.TagStore.NextHeaderInsideIff) and then uses an uninitialised buffer.
- TlvRuns.Run: stops in front of a store that would leave fewer than 8 bytes free, including one that would fill the bank exactly, since the data is given up at the next start-up; so TlvRuns.Perform and TlvRuns.DoEvent require the same.
- TlvRuns.Perform: requires that a store leaves at least 8 bytes free or does not fit.
- TlvRuns.DoEvent: requires that a store leaves at least 8 bytes free or does not fit.
- Tags 0 and 0xffffffff cannot be stored; alignments above 1 and writes torn inside one flash call are not modelled.
- Banks and values are below 2^31 bytes, so that offset sums do not wrap around.
- TlvStore.TagStore.Init: covers flash that recovers to a map and flash that is given up; a current bank that does not parse as entries, or with 1 to 7 bytes behind them, is not covered. What operations do before the next start-up on a store that is not valid after giving up is left open.

Run loop:
- The linked lists are sequences; data source registration, flags and the dump function are left out.
- Changing the timeout of a listed timer, and adding a timer that was never armed, are not modelled.
- RunLoop.Loop.Advance: assumes that the loop does not lag 2^31 counts behind a listed deadline.
- RunLoop.Loop.SetTimer: delays of 2^31 counts and more, and listed timers, are excluded.
- RunLoop.Loop.AddTimer: requires a timer that has been armed, with a deadline less than 2^31 counts before or after now.
- RunLoop.Loop.ProcessTimers: is given a number of turns, since a pass need not end; handlers do not call it again.
- The handshake model takes each C assignment as one step; the flags are not declared volatile and compiler reordering is not modelled. In the millisecond time base no tick sets the trigger, so that the statement about ticks is about the tick time base.

SHA-1:
- Collision resistance; lengths of 2^61 bytes and more, for which the standard defines no digest.

SPI transport:
- Completion handlers only note the event, as those of the UART driver do, and do not call back into the transport.
- SpiTransport.Transport.CompleteTransfer: excludes slave counts above 64, which overrun the receive buffer; DMA errors are not modelled.
- The receive-only completion callback has no transfer that would call it and is left out; so is power cycling.
- SpiTransport.Transport.SendBlock: excludes a block submitted while one is under way, which overwrites it in the source.
- SpiTransport.Transport.ReceiveBlock: excludes a request made while one is under way, which overwrites it in the source.

Firmware upload:
- The controller is a model of the commands used; its answers' contents other than the version, the event log and the physical effect of a baud rate are left out.
- A block is reported as sent before the answer to it arrives, as the poll handler of the UART driver does it.
- The reset time of 250 ms and the lengths asked of the UART driver for the answers are left out; the controller keeps its memory over the reboot, as the upload relies on.
- Images have less than 2^32 bytes; addresses are taken modulo 2^32, so for images of up to 2^31 bytes they are plain addresses.

Bad-block table:
- NAND reads, erasures and programming are abstract steps that do not fail; the chip type and the unused end of the page buffer are parameters.
- BadBlocks.Manager.ChooseBlock: when all information blocks are bad the first one is used, as in the source.
- BadBlockTable.DamageRepairedIff: assumes that no damaged copy and no wrong merge passes the digest check; BadBlockTable.DamageRepaired needs only the former.

Not modelled at all: board ports and register sequences, init-script splitters, packet splitters,
firmware converters, audio and user interface code, which would add easy or hardware-only members.
