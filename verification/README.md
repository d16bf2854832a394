# Firmware update of the nRF52 bootloader

This project models a bootloader that rewrites the running application in place,
and proves what its updates keep. Five parts are covered:

- the in-place delta decoder (`src/detools/detools.c`): it shifts the old image
  up and rebuilds the new one over the space just vacated, driven by a resumable
  run-length decoder fed in chunks of any length;
- the apply engine (`src/ota_delta.c`): a write-back page cache over flash, the
  container parser and scan, the pre-flight check of the geometry, the page by
  page installation of a full image, and the commit protocol through a settings
  record sealed by a CRC-16;
- the Secure DFU session with its parser, and the receipt queue that decides
  when the new image may be activated;
- the host's Legacy DFU sender and its adaptive receipt window;
- the byte machinery under them: CRC-32, SHA-256, the retained handoff records,
  the staged readers and the page buffer.

Each module follows one of these components. Code that works by changing things
step by step is a class or a method with loops; each is proved against pure
functions, and the laws of those functions are lemmas.

**Flash and power loss.** `Flash.Nvm` keeps a trail of every content a power
loss could have left behind, one entry per erase or program. An erase or page
program of the apply engine may leave anything at all in its own page, because
the engine reads back every page; programming a word of the settings only clears
bits. "At every crash point" means: for every entry of the trail. How many
operations of one page change may misbehave is a constant of the device; flash
is sound (`Flash.Nvm.Sound`) when they are fewer than the attempts the engine
makes. Safety is proved for all flash, success for sound flash.

**Meaning of a patch.** `Delta.Rebuild` gives a byte stream its meaning by
out-of-place reconstruction from the old image; `PatchFormat` shows that every
list of operations that fits its segments can be printed as such a stream. The
decoder is proved to arrive at that image in place. A patch that refuses to mean
anything comes to an error: `Decoder.PatchFault` in its header, `Decoder.PatchFate`
in its body (`Refusals.Fate`). The decoder ends in exactly that error however the
patch is cut, and the apply engine reports it in the result register.

**Independent laws.** What an implementation and its specification share is
pinned by a law that names neither: the CRCs by bitwise division and their check
values, SHA-256 by the choice, majority and rotation laws, the roots behind its
constants and the digest of "abc", the flash operations bit by bit, the records by
their byte layout, and the thresholds and rules of the sender by inequalities.

**Where documentation and code differ.** Five findings are stated as proved
results, each with the exact condition; the code is modelled as it is.

- The geometry check accepts a shift of zero (`PreFlight.ZeroShiftAccepted`),
  which erases what it should move (`Shift.ShiftZeroErases`). The decoder then
  rebuilds from erased flash: it rebuilds from the installed image if and only
  if the shift is positive or there is nothing but 0xFF to lose
  (`Decoder.BaseIsImageIff`, `Decoder.InPlaceDecoder.ApplyChunks`).
- The check and the decoder read header sizes differently. The check accepts up
  to five bytes (`PreFlight.HeaderU32`), the decoder four: an accepted header
  decodes to the same sizes if and only if each is spelled in at most four
  bytes, and is otherwise an overflow before memory is touched
  (`PreFlight.AcceptedHeader`, `Decoder.InPlaceDecoder.ApplyChunks`,
  `Apply.Updater.RunDecoder`); `PreFlight.AcceptedYetDoomed` is such a header.
- A run of length zero makes the run decoder succeed without a byte
  (`CrleStream.PatchReader.Decompress`). Inside a data block that is harmless
  (`Delta.GapInBlock`); a size is read correctly if and only if no empty run
  stands before one of its bytes (`CrleStream.SizeNeedsNoGap`,
  `Delta.GapBeforeSize`).
- The comment on init commands promises canonical metadata. An accepted command
  is canonical if and only if each of its numbers is as short as it can be
  (`InitCommand.CommandCanonical`); `InitCommand.OverlongIsMeant` is accepted
  and is not.
- A sector transfer that breaks off spoils the cached sector but keeps its
  number. A later read inside that sector still succeeds, with what was left
  there (`SdCard.Reader.ReadBytes`); it is right if and only if the bytes asked
  for are the old ones (`SdCard.Reader.ReadAfterFailure`). `SdCard.SpoiltRead`
  is such a pair of reads.

## Model

| member | source | states |
|---|---|---|
| Flash.Nvm.PageMatches | src/ota_delta.c:610-619 | true exactly when every byte of the page is the wanted one |
| Flash.Nvm.ChangePageVerified | src/ota_delta.c:621-642 | success means the page holds the wanted bytes, however the attempts misbehaved; while fewer operations misbehave than there are attempts it succeeds; every content a power loss could expose differs from the old one inside that page only |
| Flash.ProgramErased | src/ota_delta.c:621-634 | programming can only clear bits, so erased flash takes any data as it is |
| Flash.AndBits | src/ota_delta.c:621-634 | bit by bit, what flash holds after programming is set only where the old and the programmed byte both are |
| Cache.PageCache.Flush | src/ota_delta.c:649-659 | what a reader sees is unchanged; on success raw flash is exactly that and nothing is dirty, on failure the dirty page is kept; on sound flash it succeeds |
| Cache.PageCache.Use | src/ota_delta.c:661-671 | turning the cache to another page changes nothing a reader sees, and succeeds on sound flash |
| Cache.PageCache.Read | src/ota_delta.c:673-681 | returns the slice of the flat memory formed by flash and the dirty page over it, across any number of pages |
| Cache.PageCache.Write | src/ota_delta.c:683-698 | on success, which sound flash guarantees, the flat memory is the old one with the bytes spliced in; nothing outside the pages written was exposed to a power loss |
| Cache.PageCache.Erase | src/ota_delta.c:700-716 | on success, which sound flash guarantees, exactly the whole covering pages read as 0xFF, in the cache and behind it |
| Memory.Workspace.MemRead | src/ota_delta.c:723-744 | succeeds exactly for ranges inside the workspace and then reads the workspace bytes |
| Memory.Workspace.MemWrite | src/ota_delta.c:745-753 | a write outside the workspace is refused untouched; one inside it splices the bytes in, and fails only on flash that is not sound |
| Memory.Workspace.MemErase | src/ota_delta.c:754-762 | erases the rounded-up pages inside the workspace, which fails only on flash that is not sound; refuses everything else untouched |
| CrleStream.PatchReader.ChunkGet | src/detools/detools.c:55-89 | takes the next byte of the chunk, or asks for more input |
| CrleStream.PatchReader.ChunkRead | src/detools/detools.c:91-118 | takes as many bytes as the chunk and the request allow |
| CrleStream.PatchReader.Advance | src/detools/detools.c:635-734 | one header step of the run decoder leaves what is still to come unchanged; it fails exactly on a run of an unknown kind or with a size of more than five bytes, with the error of the one or the other |
| CrleStream.PatchReader.UnpackUsize | src/detools/detools.c:586-633 | a run length split anywhere between chunks is resumed where it stopped |
| CrleStream.PatchReader.DeliverScattered | src/detools/detools.c:691-713 | delivers the literal bytes of the run, no more than asked for |
| CrleStream.PatchReader.DeliverRepeated | src/detools/detools.c:754-776 | delivers copies of the repeated byte, no more than are left |
| CrleStream.PatchReader.Decompress | src/detools/detools.c:778-828 | for any sequence of requested sizes and any chunking, and for runs of any length, the bytes delivered and those still pending are the expansion of the runs; an empty run, literal or repeated, is a successful call without a byte that goes on with the next run; a run that cannot be read is exactly what it fails on |
| CrleStream.PatchReader.UnpackSize | src/detools/detools.c:1013-1069 | reads the signed size spelled next in the expanded stream, resuming across chunks; with an empty run before one of its bytes it does not come out as spelled; one spelled in more than four bytes is an overflow |
| CrleStream.SizeNeedsNoGap | src/detools/detools.c:1013-1069 | a size is read correctly if and only if its bytes are there and no empty run stands before one of them |
| CrleStream.ExpandScattered | src/detools/detools.c:691-713 | literal runs may be delivered in pieces of any length |
| CrleStream.ExpandRepeated | src/detools/detools.c:736-776 | so may repeated runs |
| Shift.ShiftMoves | src/detools/detools.c:1676-1741 | copying segments from high to low moves the whole image up by the shift, although source and destination overlap |
| Shift.ShiftZeroErases | src/detools/detools.c:1676-1741 | with a shift of zero every segment is erased before it is read: nothing of the image is left |
| Shift.ShiftKeepsImageIff | src/detools/detools.c:1676-1741 | the image survives the shift if and only if the shift is positive or there is nothing but 0xFF to lose |
| Shift.CopySegment | src/detools/detools.c:1694-1738 | erases the destination segment and copies the source segment into it |
| Shift.CopyBlocks | src/detools/detools.c:1706-1730 | the block-wise copy is the copy of the segment |
| Decoder.BaseIsImageIff | src/detools/detools.c:1676-1741 | what a decoder rebuilds from is the installed image if and only if the shift is positive or there is nothing but 0xFF to lose; without a shift it is erased flash |
| Delta.SegmentBounds | src/detools/detools.c:1865-1894 | a segment fills its page or the image, and starts reading at the first shifted byte that its page does not cover |
| Delta.DiffRestores | src/detools/detools.c:1942-1957 | adding a diff to the bytes it was made from gives the bytes it was made for |
| Delta.EveryImageHasSegments | src/detools/detools.c:1865-2018 | every image can be brought to every base: its own bytes, page by page, are operations that fit and rebuild it |
| Delta.RebuildDiff | src/detools/detools.c:1917-1973 | a diff block taken in pieces is the block taken whole |
| Delta.RebuildExtra | src/detools/detools.c:1917-1973 | so is an extra block |
| Delta.GapInBlock | src/detools/detools.c:1917-1973 | an empty run inside a data block changes nothing of what the rest of the patch means |
| Delta.GapBeforeSize | src/detools/detools.c:1865-2018 | a patch with an empty run before a size means no image |
| Delta.EmptyRunsAddNothing | src/detools/detools.c:1865-2018 | whatever a patch with empty runs means, it means without them |
| Refusals.RefusedMeansNothing | src/detools/detools.c:1865-2018 | a body that comes to an error describes no image, whatever the old image |
| Refusals.FateAtData | src/detools/detools.c:1917-1973 | data, in pieces of any length, never decides which error a body comes to |
| Refusals.WrapsOnce | src/detools/detools.c:1071-1094 | the sum of position and size, taken in 32-bit registers, wraps once |
| Decoder.HeaderRead | src/detools/detools.c:125-173 | a header size read in pieces leaves the header of a well-formed patch the same header, and one that comes to an error on its way to the same error |
| Decoder.RefusedSize | src/detools/detools.c:1013-1094 | a size that is refused is refused at once or when the rest of it has come, and any other is not |
| Decoder.FateSize | src/detools/detools.c:1865-2018 | a size on the way to an error is that error, or leads to where the error lies |
| Decoder.FateData | src/detools/detools.c:1917-1973 | so does a block of data, and it lies inside memory |
| Decoder.SourceIntact | src/detools/detools.c:1917-1973 | in memory that holds the new image up to the write position, 0xFF to the end of its page and the shifted old image above, every old byte that may still be read is in its place |
| Decoder.LaidErase | src/detools/detools.c:1865-1894 | erasing the next page of such memory makes it the memory of the next segment |
| Decoder.LaidWrite | src/detools/detools.c:1917-1973 | writing the next bytes of the image into it moves the position on, and nothing else |
| Decoder.TrackDfpatch | src/detools/detools.c:1865-1894 | entering a segment erases it and keeps the sources of this segment and all later ones |
| Decoder.TrackDiff | src/detools/detools.c:1917-1973 | diff bytes are added to the shifted old bytes they were made for |
| Decoder.TrackExtra | src/detools/detools.c:1917-1973 | extra bytes go out as they are |
| Decoder.TrackGap | src/detools/detools.c:1917-1973 | an empty run inside a block leaves the decoder on its way |
| Decoder.TrackAdjust | src/detools/detools.c:1995-2018 | an adjustment moves the source position for the next diff |
| Decoder.InPlaceDecoder.ShiftMemory | src/detools/detools.c:1676-1741 | performs the whole shift, segment by segment from the top, or reports the flash failure that stopped it; a shift of zero included |
| Decoder.InPlaceDecoder.ProcessDfpatchSize | src/detools/detools.c:1865-1894 | a segment starts only with a dfpatch size of zero or less, at the erased segment; for any patch a positive one is not implemented |
| Decoder.InPlaceDecoder.ProcessSize | src/detools/detools.c:1896-1915 | a diff or extra size, of any patch, leads to its data unless it leads beyond the image in 32-bit registers, which is a corrupt patch; one of a well-formed patch always leads to its data |
| Decoder.InPlaceDecoder.ReadSize | src/detools/detools.c:1013-1094 | the size that stands next is read across chunks, and refused exactly when it must be |
| Decoder.InPlaceDecoder.EnterSegment | src/detools/detools.c:1865-1894 | the next segment is taken in hand and its page erased, for a well-formed patch and for one on its way to an error |
| Decoder.DataStored | src/detools/detools.c:1917-1973 | adding diff bytes to the old bytes at the source, or taking extra bytes as they are, at the write position keeps memory, cursor and remaining patch in step |
| Decoder.InPlaceDecoder.ProcessData | src/detools/detools.c:1917-1973 | every block written, of any length the run decoder delivers, keeps memory and the rest of the patch in step |
| Decoder.InPlaceDecoder.TakeBlock | src/detools/detools.c:1917-1973 | up to 128 bytes are taken, combined and stored; a run that cannot be read ends the patch with its error |
| Decoder.InPlaceDecoder.ProcessAdjustment | src/detools/detools.c:1995-2018 | for any patch it ends when the image is full, the segment when it is full, and else the next diff follows; in a well-formed patch the source then stands where that diff needs it |
| Decoder.InPlaceDecoder.UnpackHeaderSize | src/detools/detools.c:125-173 | reads a header size resumably across chunks; one spelled in more than four bytes ends in an overflow |
| Decoder.InPlaceDecoder.ProcessInit | src/detools/detools.c:1743-1863 | the header of a well-formed patch is read, across any chunks, and the shift done; a header of another kind, with an overlong size or of another compression ends in its error before memory is touched |
| Decoder.InPlaceDecoder.ProcessOnce | src/detools/detools.c:2020-2072 | every step makes progress or says why not; it keeps a well-formed patch on its way to the image, and any other on its way to the one error it comes to |
| Decoder.InPlaceDecoder.Process | src/detools/detools.c:2107-2128 | for any patch at all a chunk is consumed, or the patch ends, or the decoder has failed for good; a well-formed patch stays on its way to the image unless flash is not sound, an ill-formed one on its way to its error |
| Decoder.InPlaceDecoder.FeedChunks | src/detools/detools.c:2211-2240 | so for all chunks of a patch one after the other |
| Decoder.InPlaceDecoder.Finalize | src/detools/detools.c:2130-2145 | for any patch a size is returned only by a decoder that is done, and it is the announced one; input that runs out before gives the error for it; a finished decoder has made all of memory what the old memory and the image determine; a failed one stays failed |
| Decoder.InPlaceDecoder.RunDry | src/detools/detools.c:2130-2145 | with no more chunks it steps until it is done, has failed or lacks input, and which of these depends on the patch alone |
| Decoder.InPlaceDecoder.ApplyChunks | src/detools/detools.c:2211-2246 | for every well-formed patch for what the shift leaves of the old image, a shift of zero included, and every way of cutting it into chunks, the run ends with the size of the new image and the same whole memory: the image rebuilt out of place, 0xFF to the end of its last page, the shifted old image above; on sound flash always. A part of one ends with the image only if nothing of the rest was needed, and otherwise for want of data. Any patch ends with a size only when the decoder is done. A patch that comes to an error, in a size of its header, its kind, its compression or a size anywhere in its body, ends in exactly that error |
| PatchFormat.SizeRoundTrip | src/detools/detools.c:1013-1069 | reading a printed signed size gives the size and what follows it |
| PatchFormat.RunsExpand | src/detools/detools.c:635-828 | printed runs of any length, empty ones included, expand to their content, and an empty run leaves a gap |
| PatchFormat.RunsRoundTrip | src/detools/detools.c:635-828 | without empty runs the expansion is the content, no gap in it |
| PatchFormat.RebuildOps | src/detools/detools.c:1865-2018 | the byte stream of a segment means the sequence of its operations |
| PatchFormat.RebuildSegments | src/detools/detools.c:1865-2018 | the byte stream of a patch body means out-of-place reconstruction, segment by segment |
| PatchFormat.ReconstructSize | src/detools/detools.c:1865-2018 | segments that fit make up an image of exactly the announced size |
| PatchFormat.HeaderRoundTrip | src/detools/detools.c:1743-1834 | the printed header is read back field by field |
| PatchFormat.PrintedPatchMeans | src/detools/detools.c:1743-2018 | every list of operations that fits, printed in any runs, is a well-formed patch for the image those operations reconstruct |
| PreFlight.SizeAgrees | src/ota_delta.c:820-849 | of the sizes the check can read, the decoder reads exactly those spelled in at most four bytes, and then the same value |
| PreFlight.SizeTooLong | src/detools/detools.c:125-173 | any longer spelling is an overflow for the decoder |
| PreFlight.HeaderAgrees | src/ota_delta.c:869-882 | the decoder reads all the sizes of a header, as the check does, if and only if each is spelled in at most four bytes; otherwise it is an overflow |
| PreFlight.TakenIsSpelled | src/ota_delta.c:820-849 | conversely whatever the decoder reads, the check reads alike |
| PreFlight.HeaderTail | src/ota_delta.c:829-845 | reads the bytes behind the first one, exactly up to the fifth and the last bit of 32 |
| PreFlight.HeaderU32 | src/ota_delta.c:820-849 | on a payload that can be read it accepts exactly the sizes spelled in at most five bytes with a value that fits a signed 32-bit integer, and returns that value |
| PreFlight.ReadSizes | src/ota_delta.c:869-880 | on a payload that can be read it reads exactly the headers whose five sizes are each accepted |
| PreFlight.GeometryOk | src/ota_delta.c:851-882 | accepts exactly the headers whose sizes can be read and satisfy the inequalities of body, manifest, workspace and page, which are written out; a failed read only refuses |
| PreFlight.ValuesOkIff | src/ota_delta.c:851-867 | the check of the numbers in plain arithmetic, both ways |
| PreFlight.FittingIsAccepted | src/ota_delta.c:851-867 | every geometry the decoder can work in, for the installed body and the announced image, growing or shrinking, is accepted |
| PreFlight.AcceptedGeometry | src/ota_delta.c:851-867 | an accepted geometry keeps shift plus the rounded-up image inside the workspace and is one the decoder works in, whatever the shift |
| PreFlight.PrintedIsAcceptedIff | src/ota_delta.c:851-882 | of the headers as they are printed the check accepts exactly those whose numbers satisfy the inequalities, written out |
| PreFlight.ZeroShiftAccepted | src/ota_delta.c:851-882 | an accepted header whose shift is zero |
| PreFlight.AcceptedHeader | src/ota_delta.c:869-882 | from an accepted header the decoder reads the same five sizes if and only if each is spelled in at most four bytes; otherwise it stops with an overflow |
| PreFlight.ReadableIsChecked | src/ota_delta.c:820-849 | a header the decoder reads, with sizes that fit 31 bits, the check reads alike |
| PreFlight.AcceptedYetDoomed | src/ota_delta.c:820-882 | a header that is accepted and yet an overflow for the decoder: its first size is spelled in five bytes |
| Container.ParseMotaAt | src/ota_delta.c:885-957 | succeeds if and only if a printed container stands there complete below the limit; the manifest it returns is said byte by byte: every field is the bytes at its place in the header, and the lengths tile the container |
| Container.StandsWire | src/ota_delta.c:885-957 | a container that stands in a store has, byte by byte, what the parser asks for |
| Container.WireStands | src/ota_delta.c:885-957 | and bytes that have it are a container |
| Container.BlocksCover | src/ota_delta.c:933-946 | the number of leaves is the one number of blocks that covers the payload with none to spare |
| Container.CheckLayout | src/ota_delta.c:885-928 | the checks of lengths, magic numbers and block count, in the order of the parser, accept exactly those bytes |
| Container.CarriedIsUnique | src/ota_delta.c:929-957 | the bytes of a container determine its manifest |
| Container.PrintUnprinted | src/ota_delta.c:771-807 | the fields of a header, printed again, are the header |
| Container.UnprintPrinted | src/ota_delta.c:771-807 | a printed header is read back field by field |
| Container.PrintParts | src/ota_delta.c:885-957 | header, leaves, payload and trailer tile the announced total exactly |
| Container.ReadsStand | src/ota_delta.c:885-957 | bytes that pass every check of the parser are a container |
| Container.ScanMota | src/ota_delta.c:971-1038 | below a known ceiling, and only there, returns the highest page-aligned, bottom-aligned valid container, with the manifest its bytes spell; 0 only when there is none |
| Settings.Crc16Compute | lib/sdk/components/libraries/crc16/crc16.c:46-61 | the running CRC-16 is that of the whole data |
| Settings.Crc16ByteDivides | lib/sdk/components/libraries/crc16/crc16.c:50-57 | the folded step is eight steps of bitwise division by x^16 + x^12 + x^5 + 1 |
| Settings.Crc16CheckValue | lib/sdk/components/libraries/crc16/crc16.c:46-61 | the digits 1 to 9 give 0x29B1 |
| Settings.Crc16Separates | lib/sdk/components/libraries/crc16/crc16.c:46-61 | different states stay different over the same data |
| Settings.Crc16DetectsByte | lib/sdk/components/libraries/crc16/crc16.c:46-61 | changing any one byte changes the CRC |
| Settings.BootloaderSettings.Seal | src/bootloader_settings_guard.c:29-34 | a sealed record is valid, is not legacy, and keeps its fields |
| Settings.SealDetectsByte | src/bootloader_settings_guard.c:13-27 | a sealed record with any one byte before its CRC altered is refused |
| Settings.NewRecord | src/ota_delta.c:311-318 | the new record carries the bank marker, the image's CRC and size and an invalid second bank, and is sealed |
| Settings.CommittedLayout | lib/sdk11/components/libraries/bootloader_dfu/bootloader_types.h:46-60 | where each field of a committed record lies |
| Settings.ValidBytes | src/bootloader_settings_guard.c:8-27 | the bytes that make a record valid: an erased seal, or version, CRC and complement |
| Settings.ProgramWords | src/ota_delta.c:320-325 | programs a stretch of words of the record, one exposed content per word |
| Settings.ErasedMarksNothing | src/bootloader_settings_guard.c:8-27 | while the bank marker is erased the record marks no valid application, whatever the rest holds; yet the bootloader may then start what it finds |
| Settings.BankWordFirstWouldMark | src/ota_delta.c:320-325 | why the bank word comes last: first, it would make the still unsealed record a valid legacy one |
| Settings.Commit | src/ota_delta.c:311-326 | no content exposed between the erase and the last word marks a valid application; the final one does, and lets the bootloader start, exactly when asked to, and holds the record fields |
| Copy.CopyStagedFullImage | src/ota_delta.c:1174-1191 | page by page forward copy from a source at or above the destination is an exact move for every size, the rest of the last page erased, and no exposed content differs outside the rounded-up destination |
| Copy.CopyPage | src/ota_delta.c:1180-1189 | one page is read before its destination is erased, so the rest of the source is still there |
| Apply.FindBodyLen | src/ota_delta.c:1049-1065 | finds the lowest self-describing trailer of the application region, and misses none |
| Apply.SafeUnmarked | src/ota_delta.c:1906-1943 | while the settings let nothing start and the approval is used up, every content of the application exposed by changes to it is safe |
| Apply.SafeOutside | src/ota_delta.c:1107-1125 | changes outside application and settings are safe while the application is intact |
| Apply.SafeCommit | src/ota_delta.c:1199-1210 | a commit is safe at every word, the erased marker included, if the application is unchanged or its hash verified, and unchanged or the approval used up |
| Apply.GeometryIsHeader | src/ota_delta.c:869-882 | the geometry checked on intact flash is the one a well-formed patch decodes with |
| Apply.Updater.ClearApproval | src/ota_delta.c:1107-1125 | zeroes the approval word and nothing else; safe at every crash point; succeeds on sound flash |
| Apply.Updater.CommitSettings | src/ota_delta.c:311-326 | writes the settings page, safe at every word, when what stands in flash may be started; nothing else changes |
| Apply.Updater.FinishAppUpdate | src/ota_delta.c:1199-1210 | marks the application valid, with its CRC and size, exactly when what stands in flash has the manifest's hash |
| Apply.Updater.RunDecoder | src/ota_delta.c:1911-1932 | for any patch at all no byte outside the workspace changes at any crash point; on sound flash a well-formed one leaves its image; one that comes to an error in its header ends in that error with flash and trail untouched, and one that comes to it in its body ends in that error on sound flash |
| Apply.Updater.StreamPatch | src/detools/detools.c:2211-2246 | the 512-byte chunk loop feeds the decoder the staged patch, all of it when it is well formed; on sound flash memory ends as the whole patch determines; any patch ends with a size only when the decoder is done, and an ill-formed one in its error |
| Apply.Updater.NextChunk | src/ota_delta.c:1918-1930 | each chunk is the next part of the staged patch, although the decoder is rewriting flash below it |
| Apply.Updater.DecodeAndFinish | src/ota_delta.c:1911-1943 | safe at every crash point after the commit point; on sound flash a well-formed patch with the promised hash ends in a valid application holding its image, and one that comes to an error is reported by that error |
| Apply.Updater.Settle | src/ota_delta.c:1931-1943 | marks the image valid only if all of the patch was used, the size is the announced one and the written-back bytes have the promised hash; on sound flash if and only if; the result register says which check failed |
| Apply.Updater.InstallDelta | src/ota_delta.c:1900-1943 | once started the approval is used up, and at every crash point an application that is no longer intact means a used approval; on sound flash it starts, a well-formed patch succeeds and an ill-formed one is reported by its error |
| Apply.Updater.Reject | src/ota_delta.c:1858-1866 | a refused delta leaves application and settings as they were, and on sound flash loses its approval |
| Apply.Updater.ApplyDelta | src/ota_delta.c:1868-1950 | on sound flash started if and only if the delta is eligible: codec, size, lowest trailer, base hash and geometry; the result register names the first check that refused it, or the error its patch came to, or success; refused or not the approval is then used up; a well-formed patch started on sound flash succeeds |
| Apply.Updater.RefusalCodes | src/ota_delta.c:1876-1898 | what is found of the installed body decides between the later refusals |
| Apply.Updater.CheckAndApply | src/ota_delta.c:1724-1943 | over every run: at every crash point, if the bootloader may start what it finds, the application is the original one or its hash is verified, and it is not touched before the approval is used up; on sound flash an approved newest container is used up whatever becomes of it, is started if and only if due, and a well-formed one installs its image; nothing happens without trigger and approval |
| Apply.Updater.FindStaged | src/ota_delta.c:1844-1848 | the container applied is the newest staged one and lies above the workspace |
| Apply.Updater.ApplyFullExternal | src/ota_delta.c:1668-1696 | the whole external payload is hashed before the first destructive write; safe at every crash point; with sound flash and a reliable medium it succeeds if and only if the manifest fits and the hash matches; the result register says why not |
| Apply.Updater.CopyAndFinish | src/ota_delta.c:1690-1696 | the installed bytes are the staged ones, checked again in place before they are marked valid; succeeds on sound flash |
| Crc.Crc32Update | src/crc32.h:12-21 | the two nested loops compute the running CRC of the data |
| Crc.UpdateAppend | src/crc32.h:8-21 | feeding a stream in pieces, each seeded with the last result, is feeding it whole |
| Crc.CheckValue | src/crc32.h:8-21 | the digits 1 to 9 give 0xCBF43926 |
| Crc.ByteIsTableLookup | src/crc32.h:12-21 | the bit-by-bit step is the table lookup of section 8 of RFC 1952 |
| Crc.StepsLinear | src/crc32.h:16-18 | the division is linear over exclusive or |
| Crc.StepsInjective | src/crc32.h:16-18 | no two states become one |
| Crc.FourBytesAreAWord | src/crc32.h:12-21 | four bytes enter the state as one 32-bit word |
| Crc.RunSeparates | src/crc32.h:12-21 | different states stay different over the same data |
| Crc.DetectsWindow | src/crc32.h:12-21 | any change within four consecutive bytes changes the CRC |
| Crc.WordInjective | src/ota_sd_boot_token.h:22-25 | four bytes are determined by the word read from them |
| Crc.WordRoundTrip | src/ota_sd_boot_token.h:22-32 | a word written as four bytes is read back |
| Crc.SealedDetectsWindow | src/ota_hybrid_handoff.h:85-97 | two records that carry their own CRC and its inverse and differ within four consecutive bytes are the same record |
| Handoff.Encode | src/ota_hybrid_handoff.h:61-80 | the record stored field by field is the sealed canonical record |
| Handoff.RecordLayout | src/ota_hybrid_handoff.h:26-58 | where each field of the record lies, byte by byte |
| Handoff.EncodedIsValid | src/ota_hybrid_handoff.h:61-97 | the encoding of any consistent geometry is accepted and read back unchanged |
| Handoff.ValidIsEncoded | src/ota_hybrid_handoff.h:85-97 | nothing but the encoding of a consistent geometry is accepted |
| Handoff.RejectsWindow | src/ota_hybrid_handoff.h:85-97 | an accepted record altered anywhere within four consecutive bytes is rejected |
| Handoff.PrefixRequired | src/ota_delta.c:443-448 | the computed prefix is the least whole-page one, of at least a page, that leaves at most an arena |
| Handoff.Hybrid.Take | src/ota_delta.c:425-456 | accepts exactly the valid records of a software reset with the exact ceiling and the least prefix; the retained record is erased in every case |
| Handoff.Hybrid.RamRead | src/ota_delta.c:300-307 | reads the arena inside its bounds and nowhere else |
| Handoff.Hybrid.Read | src/ota_delta.c:461-481 | succeeds exactly inside the container and returns the slice of flash prefix followed by RAM suffix, across the seam |
| BootToken.TokenEncode | src/ota_sd_boot_token.h:38-51 | the token stored word by word is the sealed canonical token |
| BootToken.TokenLayout | src/ota_sd_boot_token.h:38-51 | where each field of the token lies, byte by byte |
| BootToken.TokenIsExact | src/ota_sd_boot_token.h:38-65 | for a package exactly one token is accepted, the one encoded for it |
| BootToken.TokenRejectsWindow | src/ota_sd_boot_token.h:53-65 | an accepted token altered within four consecutive bytes is accepted for no package |
| InitCommand.ReadNumber | src/secure_dfu.c:41-55 | reads exactly the one- to five-byte numbers that fit 32 bits |
| InitCommand.SpelledIsTaken | src/secure_dfu.c:41-55 | whatever its spelling and whatever follows, a number is read back |
| InitCommand.CanonicalNumber | src/secure_dfu.c:41-55 | a spelling of a number is the printed one if and only if it is one byte or its last byte is not zero |
| InitCommand.FieldTaken | src/secure_dfu.c:104-165 | a spelled field is read back |
| InitCommand.TakenField | src/secure_dfu.c:104-165 | what is read as a field is a spelling of it |
| InitCommand.FieldsTaken | src/secure_dfu.c:104-165 | so for a whole list of fields |
| InitCommand.TakenFields | src/secure_dfu.c:104-165 | and back |
| InitCommand.ReadIds | src/secure_dfu.c:116-124 | accepts exactly lists of 16-bit ids and says whether the SoftDevice is among them |
| InitCommand.ReadField | src/secure_dfu.c:104-163 | one pass of the loop accepts exactly the known, fitting fields that are not duplicates |
| InitCommand.ReadFields | src/secure_dfu.c:102-170 | the fields of any order and list layout are judged as a whole |
| InitCommand.ReflectsAnnounces | src/secure_dfu.c:164-168 | the flags collected decide exactly whether the fields announce an image |
| InitCommand.AnnouncesPlainly | src/secure_dfu.c:104-168 | what an announcement is, field by field: no field twice, every value allowed, the hardware and a SoftDevice named, size and digest given |
| InitCommand.ParseCommand | src/secure_dfu.c:89-170 | accepts exactly the spellings of an announcement: no duplicate but the SoftDevice list, every value allowed, required fields present, size within bounds; and returns its size and hash |
| InitCommand.MeaningIsUnique | src/secure_dfu.c:89-170 | a command announces one image at most |
| InitCommand.PrintedIsMeant | src/secure_dfu.c:89-170 | any printed announcement that fits the buffer is understood, in any order of fields and with packed or repeated SoftDevice lists |
| InitCommand.CommandCanonical | src/secure_dfu.c:73-170 | an accepted command is the printed form of its fields if and only if every number in it, lengths included, is as short as it can be |
| InitCommand.OverlongIsMeant | src/secure_dfu.c:73-170 | an accepted command that is not canonical: its hardware version is spelled in two bytes |
| SecureDfu.NothingFollows | src/secure_dfu.c:218-263 | a failed hook or a finish is the last hook call of all |
| SecureDfu.TrackWritten | src/secure_dfu.c:235-262 | the phase of the device is told by the successful writes since the last begin |
| SecureDfu.StreamReachedFlash | src/secure_dfu.c:218-263 | flash has been given exactly the objects the client executed; a completed session has written the whole announced image and seen the final check succeed |
| SecureDfu.Session.constructor | src/secure_dfu.c:172-174 | a new session holds nothing |
| SecureDfu.Session.Create | src/secure_dfu.c:183-216 | succeeds exactly when allowed and gives the object exactly the announced room; drops only the bytes not yet executed, or starts everything over |
| SecureDfu.Session.ExecuteCommand | src/secure_dfu.c:218-234 | flash is prepared once, only for an image announced by the complete command |
| SecureDfu.Session.ExecuteData | src/secure_dfu.c:235-263 | a full object is written once, its bytes are the accepted ones in order; after the last one the image is checked |
| SecureDfu.Session.Execute | src/secure_dfu.c:218-263 | after a failure or completion no hook is called again |
| SecureDfu.Session.Checksum | src/secure_dfu.c:176-180 | the receipt gives the number and the CRC-32 of all bytes received |
| SecureDfu.Session.ReceiptCounts | src/secure_dfu.c:176-180 | the byte count of a receipt never wraps |
| SecureDfu.Session.HandleControl | src/secure_dfu.c:265-318 | every request gets exactly the status it must, error codes included, keeps the session in step with the transcript, and every checksum reply is the receipt of what the transcript says was received |
| SecureDfu.Session.HandlePacket | src/secure_dfu.c:320-351 | a packet is taken whole or refused without effect; a receipt follows exactly every prn-th accepted packet |
| SecureDfu.Knows | src/secure_dfu.c:172-263 | what requests and replies tell the client is what the session holds: sizes, offsets, progress and completion |
| SecureDfu.SendObject | src/secure_dfu.c:320-351 | an object just created takes all of its announced bytes, in packets of any size |
| SecureDfu.DeliverObject | src/secure_dfu.c:183-263 | a permitted object, created, filled and executed, succeeds unless a hook fails |
| SecureDfu.Upload | src/secure_dfu.c:172-351 | a client that keeps to the protocol, with an accepted command and the image it announces, ends completed with all of the image given to flash, unless a hook fails |
| SecureDfuBle.RingPush | src/secure_dfu_ble.c:253-263 | filling the next free slot disturbs no waiting receipt |
| SecureDfuBle.RingPop | src/secure_dfu_ble.c:120-122 | taking the oldest leaves the others in order |
| SecureDfuBle.Pushed | src/secure_dfu_ble.c:253-263 | a receipt is queued once, behind all others |
| SecureDfuBle.Popped | src/secure_dfu_ble.c:116-122 | a receipt handed over leaves the queue once, and a final one is remembered |
| SecureDfuBle.Transport.OfferHead | src/secure_dfu_ble.c:92-123 | the oldest waiting receipt is offered, and leaves the queue exactly when the radio takes it |
| SecureDfuBle.Transport.ClearReceipts | src/secure_dfu_ble.c:85-90 | nothing of the old link is left to be counted |
| SecureDfuBle.Transport.FlushNotifications | src/secure_dfu_ble.c:92-124 | the waiting receipts are tried in order, each handed over once, and none behind one refused; what the radio answers decides what waits, what is dropped with a lost link, what is owed and whether the device goes on |
| SecureDfuBle.Transport.Poll | src/secure_dfu_ble.c:126-134 | when due, everything that waits is tried as by a flush; otherwise nothing changes |
| SecureDfuBle.Transport.OnConnected | src/secure_dfu_ble.c:188-193 | the session stays, the receipts and the packet count start anew |
| SecureDfuBle.Transport.OnDisconnected | src/secure_dfu_ble.c:194-199 | the session stays, the receipts do not, and the link is blocked |
| SecureDfuBle.Transport.OnTxComplete | src/secure_dfu_ble.c:200-214 | activates exactly when the final receipt was handed over on this link, the queue is empty and the transmissions reported reach the receipts handed over; and then the session is completed; otherwise what waits is flushed |
| SecureDfuBle.Transport.OnTransmissions | src/secure_dfu_ble.c:200-214 | over a run: however the transmissions still owed are split into events, the image is activated by exactly the event that reports the last of them |
| SecureDfuBle.Transport.OnWrite | src/secure_dfu_ble.c:215-263 | the state of the link decides whether a write is served, subscribes, blocks a link whose queue is full, or changes nothing; a served one reaches the session and its receipt is flushed behind the others |
| SecureDfuBle.Transport.Subscribe | src/secure_dfu_ble.c:219-223 | only the bytes 1 0 at offset 0 subscribe; then what waits is offered |
| SecureDfuBle.Transport.Serve | src/secure_dfu_ble.c:253-263 | the answer joins the queue and the whole queue is flushed |
| SecureDfuBle.Transport.Enqueue | src/secure_dfu_ble.c:253-262 | every answer of the session becomes the newest receipt, marked final exactly when it reports the completion of the image by an EXECUTE of data; no other is lost |
| SecureDfuBle.Transport.OnEvent | src/secure_dfu_ble.c:186-267 | over every run of events the invariant holds, every kind of event does exactly what it must to link, receipts and session, and activation follows only a transmit event in a completed session whose final receipt left on this link |
| Sha256.Context.Transform | src/sha256.c:26-40 | the schedule and the 64 rounds are those of section 6.2.2 of FIPS 180-4 |
| Sha256.Context.Step | src/sha256.c:33-37 | the shuffle of the eight variables is one round |
| Sha256.Context.Update | src/sha256.c:53-58 | however the message is split, the context has absorbed their concatenation |
| Sha256.Context.Final | src/sha256.c:60-79 | the digest is that of the whole message at once, padded as section 5.1.1 of FIPS 180-4 says |
| Sha256Laws.Chooses | src/sha256.c:7 | where the first word is set the choice is the second, elsewhere the third |
| Sha256Laws.Outvotes | src/sha256.c:8 | the majority is the value that two of the three words have |
| Sha256Laws.Rotates | src/sha256.c:6-12 | the four sigma functions are exclusive ors of rotations and shifts, by arithmetic on numbers |
| Sha256Laws.ConstantRow0 | src/sha256.c:15 | eight round constants are the first 32 bits of the fractional parts of the cube roots of eight primes, in integers |
| Sha256Laws.ConstantRow1 | src/sha256.c:16 | eight round constants are the first 32 bits of the fractional parts of the cube roots of eight primes, in integers |
| Sha256Laws.ConstantRow2 | src/sha256.c:17 | eight round constants are the first 32 bits of the fractional parts of the cube roots of eight primes, in integers |
| Sha256Laws.ConstantRow3 | src/sha256.c:18 | eight round constants are the first 32 bits of the fractional parts of the cube roots of eight primes, in integers |
| Sha256Laws.ConstantRow4 | src/sha256.c:19 | eight round constants are the first 32 bits of the fractional parts of the cube roots of eight primes, in integers |
| Sha256Laws.ConstantRow5 | src/sha256.c:20 | eight round constants are the first 32 bits of the fractional parts of the cube roots of eight primes, in integers |
| Sha256Laws.ConstantRow6 | src/sha256.c:21 | eight round constants are the first 32 bits of the fractional parts of the cube roots of eight primes, in integers |
| Sha256Laws.ConstantRow7 | src/sha256.c:22 | eight round constants are the first 32 bits of the fractional parts of the cube roots of eight primes, in integers |
| Sha256Laws.InitialIsRoots | src/sha256.c:44-46 | the initial words are those of the square roots of the first eight primes |
| Sha256Laws.AbcExample | src/sha256.c:26-79 | the digest of the three bytes of "abc" is that of the standard |
| Sha256.PaddedBlocks | src/sha256.c:60-75 | the one or two last blocks complete the padded message |
| Sha256.FedByte | src/sha256.c:53-57 | one byte more, with a block compressed when it is full |
| Sha256.HashRegion | src/ota_delta.c:569-600 | the digest of the region with the approval word read as zero, wherever the 256-byte pieces end; it fails exactly when a piece of a staged region cannot be read |
| Sha256.Piece | src/ota_delta.c:578-594 | one piece with its share of the approval word cleared |
| AdaptivePrn.Balance | tools/otafix_legacy_ble_dfu.py:597-768 | the level is the number of rises less the number of falls |
| AdaptivePrn.FewChanges | tools/otafix_legacy_ble_dfu.py:597-768 | a trace that rises one level at a time only before its first fall changes at most twice for every level above the first |
| AdaptivePrn.TraceNext | tools/otafix_legacy_ble_dfu.py:637-768 | what a receipt may add to such a trace |
| AdaptivePrn.Controller.StartProbe | tools/otafix_legacy_ble_dfu.py:611-621 | goes up one level; raises only at the highest |
| AdaptivePrn.Controller.FinishProbe | tools/otafix_legacy_ble_dfu.py:623-635 | keeps the level or returns to the origin and blocks further probes; raises only without an origin |
| AdaptivePrn.Controller.ObserveProbe | tools/otafix_legacy_ble_dfu.py:672-710 | a probe ends as the two thresholds and the average of two receipts say |
| AdaptivePrn.Controller.ObserveLevel | tools/otafix_legacy_ble_dfu.py:712-767 | rises exactly on enough fast or neutral receipts in a row, falls exactly on a slow one |
| AdaptivePrn.Controller.ObserveExactReceipt | tools/otafix_legacy_ble_dfu.py:637-768 | over every sequence of receipts the run stays of that kind, no internal error is raised, and a senseless sample changes nothing; the window falls, rises or stays, streaks and probe go on or end, and a decision is reported, exactly as the inequalities between time, bytes and rates say, which are written out |
| AdaptivePrn.Controller.Thresholds | tools/otafix_legacy_ble_dfu.py:600-601 | the two budgets and the verdict on a probe in plain arithmetic |
| AdaptivePrn.CloseMeans | tools/otafix_legacy_ble_dfu.py:698-704 | close is less than a billionth of the larger apart |
| AdaptivePrn.Controller.WindowSettles | tools/otafix_legacy_ble_dfu.py:597-768 | so in every run the window changes at most twice the number of levels less two times |
| LegacySender.SinglePacketWindowsFail | tools/otafix_legacy_ble_dfu.py:918-921 | a law of the loop by itself, and why the levels are guarded: with windows of one packet every transfer comes to a last word that cannot be sent |
| LegacySender.NewSender | tools/otafix_legacy_ble_dfu.py:788-826 | a sender exists exactly for whole-word packet sizes in range and a controller of that size whose levels begin the safe ones; by default it has all of them |
| LegacySender.LevelsFitStorage | tools/otafix_legacy_ble_dfu.py:796-807 | the safe windows never cause more stores than the target has buffers for, and the largest, doubled, would |
| LegacySender.StorageHolds | tools/otafix_legacy_ble_dfu.py:796-807 | so at no point of a transfer does what is not yet confirmed need more than eight store buffers |
| LegacySender.LegacyDfu.SendPacket | tools/otafix_legacy_ble_dfu.py:907-932 | the next packet is whole words and as long as may be: shorter than what is left and what fits only to leave a window the tail it needs; it never fills a window as the last one; it cannot be cut exactly when a last word would fill the window |
| LegacySender.ChunkIsLongest | tools/otafix_legacy_ble_dfu.py:907-928 | the rule of the loop and the law of the longest packet agree, both ways |
| LegacySender.LegacyDfu.NextPacket | tools/otafix_legacy_ble_dfu.py:907-935 | the packet sent is counted where it belongs, so that the windows reported are the windows sent; on the way no split ever fails |
| LegacySender.LegacyDfu.CloseWindow | tools/otafix_legacy_ble_dfu.py:936-961 | a full window is confirmed only by a receipt for exactly the bytes sent and a clock that advanced; the controller learns its packets and bytes, and the target every change of the window; every other event ends the transfer |
| LegacySender.LegacyDfu.Confirm | tools/otafix_legacy_ble_dfu.py:931-972 | the receipt that was due keeps the transfer under way, or ends it as the event calls for |
| LegacySender.InStepFits | tools/otafix_legacy_ble_dfu.py:907-932 | packets cut in step with the windows are whole words, fit, are as long as may be, and none that fills a window is the last |
| LegacySender.LegacyDfu.SendFirmware | tools/otafix_legacy_ble_dfu.py:894-992 | the packets are the firmware in order, each cut exactly as what is left and the window in force ask for; the controller is told of exactly the packets, bytes and time of every confirmed window, and the target of every change of the window; the split never fails; the outcome is the one that the receipts, the clock and the last response call for, so a transfer succeeds if and only if every receipt is exact and in time and the response is the success |
| LegacySender.TargetKnowsWindow | tools/otafix_legacy_ble_dfu.py:956-962 | a target told the first window and every change counts by the window in force |
| Qspi.WindowCovers | src/ota_qspi_alignment.h:20-47 | exactly the requests inside an aligned chip get a window; it is aligned, in capacity and in the bounce buffer, covers the bytes and always progresses |
| Qspi.OrBits | src/ota_qspi_alignment.h:51-68 | bit by bit, the overlay test joins the bits of both bytes |
| Qspi.Overlay | src/ota_qspi_alignment.h:51-68 | succeeds exactly when no bit would have to be set, and changes nothing otherwise |
| Qspi.OverlayPrograms | src/ota_qspi_alignment.h:51-68 | programming the overlaid window gives exactly the overlaid window |
| Qspi.QspiFlash.ReadAligned | src/ota_qspi.c:414-425 | reads what the DMA can transfer, always on a reliable chip, and refuses the rest |
| Qspi.QspiFlash.WriteAligned | src/ota_qspi.c:427-438 | programs what the DMA and the program page allow, always on a reliable chip; refuses the rest untouched |
| Qspi.QspiFlash.Read | src/ota_qspi.c:440-457 | returns the slice of the chip; on a reliable one it succeeds if and only if the range lies inside |
| Qspi.QspiFlash.Write | src/ota_qspi.c:459-483 | success means the chip differs in exactly the four bytes; on a reliable chip it succeeds if and only if they only clear bits in one program page; a write that may not be made leaves the chip as it is |
| SdCard.Reader.ReadSector | src/ota_sd_spi.c:330-356 | the result, the buffer and the bus are what the three attempts on the wire make of them |
| SdCard.SectorReadMeans | src/ota_sd_spi.c:334-356 | a success is the sector; a buffer that changed without one means that the bus has stopped |
| SdCard.ServedSector | src/ota_sd_spi.c:334-356 | when of any three attempts one comes through, exactly the sectors of the card can be read |
| SdCard.Reader.Fetch | src/ota_sd_spi.c:363-372 | the sector filed in the cache is not read again; any other is, and is filed only on success |
| SdCard.Reader.ReadBytes | src/ota_sd_spi.c:358-377 | the bytes are those of the run of sectors, unless the read begins in the sector whose cached copy is not the card any more: then they are that copy, and lie inside it; on a working bus it succeeds if and only if the bytes can be addressed or are cached |
| SdCard.Reader.ReadAfterFailure | src/ota_sd_spi.c:330-377 | a sector read that breaks off, followed by a read from the sector cached before: it reports success and returns what the broken transfer left; that is right if and only if those bytes are the old ones |
| SdCard.SpoiltRead | src/ota_sd_spi.c:330-377 | one such pair of reads: the byte 7 is read, a read of the next sector breaks off, and the same byte is then read as 0 |
| SdCard.Reader.ReadPiece | src/ota_sd_spi.c:361-376 | the part of a read in one sector, from the cache or the card; on a working bus it succeeds if and only if it can be addressed or is cached |
| PageBuffer.WriteBuffer.Flush | src/flash_nrf5x.c:71-101 | the page reaches flash as an erase or a mere program leaves it |
| PageBuffer.WriteBuffer.Discard | src/flash_nrf5x.c:42-48 | what was collected is forgotten |
| PageBuffer.WriteBuffer.Write | src/flash_nrf5x.c:103-140 | a write of any length is its pieces, page by page |
| PageBuffer.WriteView | src/flash_nrf5x.c:103-140 | a buffered write changes what a reader sees at its place only |
| PageBuffer.ErasingUploads | src/flash_nrf5x.c:71-140 | any writes ended by an erasing flush leave flash equal to last-writer-wins over the old contents |
| PageBuffer.ErasedUploads | src/flash_nrf5x.c:71-140 | on erased pages, with each byte written once, no erase is needed for the same result |
| PageBuffer.FlushedByte | src/flash_nrf5x.c:71-101 | without an erase every byte of the page keeps only the bits that flash and the buffer both have set |
| PageBuffer.PlainFlushKeepsViewIff | src/flash_nrf5x.c:71-101 | a flush without an erase writes what a reader saw if and only if the page asks for cleared bits only |

## Left out

- Every compression but the run-length one, sequential patches, dump and restore, step resume and file access in the decoder: not on the bootloader's path.
- Decoder.InPlaceDecoder.ApplyChunks: of a patch that is not well formed, the error is proved for the sizes it refuses anywhere and, step by step, for runs that cannot be read; behind a size that an empty run spoils, or one that leaves its segment but not the image, which is not checked, only the workspace bounds what is written.
- The decoder's own C structures before initialisation are taken as zero, and division by a zero segment size as zero, as the Cortex-M4 divides.
- Decoder.InPlaceDecoder.Accumulate: the byte-wise sum is a method on a sequence rather than on the shared block buffer, so aliasing of that buffer is not captured.
- Settings.ErasedMarksNothing: an erased bank marker is taken to let the bootloader start whatever it finds; that it also asks for plausible vectors is not modelled, so the safety results promise more than is needed there.
- Settings.Commit: erase and word programming of the settings page are taken to take effect when they complete, as the code does not read them back; only the order of the words is at stake.
- The hash is an uninterpreted function in the apply proofs; collision resistance and elliptic-curve signatures are not modelled.
- Apply.Updater.CheckAndApply: models the build that stages in program flash; for external media the full-image path is Apply.Updater.ApplyFullExternal, and the delta path is Apply.Updater.ApplyDelta with an external source. The authorisation records of removable media and the bootloader's own replacement are left out.
- Apply.Updater.ClearApproval: on an external medium the write of the approval word is that medium's own and is represented by its outcome only.
- Register access of SPI, QSPI and NVMC, watchdogs, delays, display and LED code: hardware input and output.
- The SoftDevice's own calls and the platform hooks of the session are represented by arbitrary outcomes and a log of the calls.
- SecureDfuBle.Transport.HandOver: assumes that the radio holds a bounded number of notifications, no more than a 16-bit counter can count.
- The disconnect request sent when the queue is full, and advertising, are left out; the link stays blocked until it is down.
- Erasing in 240-byte portions behind the session's write hook is left out; the hook's outcome stands for it.
- AdaptivePrn.Controller.ObserveExactReceipt: clock readings and rates are real numbers, so rounding of floating point is not modelled.
- LegacySender.LegacyDfu.SendFirmware: the transport, progress reports and the connection are left out; what a notification says, and what the clock shows, is arbitrary and recorded.
- Qspi.QspiFlash.WriteAligned: what a chip that is not reliable does is arbitrary inside the window; the readback decides.
- SdCard.Reader.ReadSector: the commands and tokens on the wire, and the initialisation of the card, are represented by the outcome of each attempt.
- Image policy, Legacy init checks, boot selection, the mass-storage state and release tooling: conjunctions or plumbing that one reading settles.
