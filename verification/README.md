# A verified model of libshjpeg

libshjpeg drives the JPEG unit (JPU) of SH-Mobile processors. The unit works on two
ping-pong line buffers of 1024 rows for pixels and two ping-pong reload buffers of 64 KiB
for coded bytes, and reports progress by interrupt status words. The library starts lines,
converts strips between line buffers and a packed frame, feeds or empties the reload
buffers, and wraps all of it behind libjpeg's interface.

This project models that machinery in Dafny, in the imperative form the library has: classes
whose methods update records, arrays that are converted in place, and loops with invariants.
`dafny verify dfyconfig.toml` checks all of it.

| file | what it models |
|---|---|
| `Basics.dfy` | sizes, row offsets, memcpy |
| `SoftHelper.dfy`, `SoftDownsample.dfy`, `SoftRoundTrip.dfy` | software colour conversion: word and byte forms in both directions, and how they compose |
| `FrameStrips.dfy` | a frame as a stack of 1024-row strips |
| `JpuDevice.dfy` | status words, what a sequence of them counts, the reload mask, the reload buffers as a ring |
| `JpuState.dfy` | the records of the state machine and its invariants |
| `JpuDriver.dfy` | the state machine and its encode and decode loops (`shjpeg_jpu_run` and what it calls) |
| `DecodeHw.dfy`, `EncodeHw.dfy` | the two loops around the state machine: reload on decode, write on encode |
| `MarkerReads.dfy` | what one read, and a sequence of reads, returns of a stream that ends in a marker |
| `JpegSource.dfy`, `JpegIo.dfy` | reading through a libjpeg source manager: end-of-image handling, header recording and replay |
| `JpegDest.dfy` | writing through a libjpeg destination manager |
| `StreamSource.dfy` | the driver's own libjpeg source: fill and skip |
| `Registry.dfy` | the linked list of contexts and the threads that use it |
| `Scanlines.dfy` | passing scanlines batch by batch |
| `Pipeline.dfy` | the parts put together |

## How the hardware is modelled

The unit is a finite script of events, one for each wait: an arbitrary status word, the error
register, the bytes coded meanwhile, and whatever the unit has left in line buffers it is
still writing. When the script is used up the wait times out. The unit goes by commands, not by
the driver's records: the START of a decode starts two lines, every line command one more, and a
line is finished by a word with the bit of either line buffer or of the end of the transfer. It
touches only the line buffers of strips that have been started and not finished, strip k in line
buffer k modulo 2. That the driver's counters stay in step with it is part of every invariant.
Counter safety, line-buffer safety and the outcome of a run are proved for every script. Only
what needs more of the hardware asks for it: a decode is never told that a reload buffer was
loaded, and an encode keeps the contract `EncodeHw.Honest` (reload buffers are filled in turn,
reported loaded only when full, at most one further ahead, fewer than 2^24 bytes in all).

## Where the code does less than it promises

- An encode whose last word reports the end of the transfer together with a loaded second
  buffer is written out of order, because buffer 1 is always visited before buffer 2
  (`src/shjpeg_encode.c:200`). `EncodeHw.WriteOrder` states that this is the only such case,
  `EncodeHw.WholeRunOrder` states it of whole runs, and `EncodeHw.OutOfOrderHappens` shows one.
- The word form of downsampling rounds every row up to whole chunks of four pixels and reads the
  last one from a work buffer with four spare bytes (`src/shjpeg_softhelper.c:149-199`).
  `SoftDownsample.ReadsInsideExactly` states exactly when that is room enough; with a pitch of
  3 * width, which is what the libjpeg wrapper sets (`src/libjpeg_wrap/override.c:369`), it is not for
  widths 1 or 2 modulo 4 (`SoftDownsample.ReadsInsideTightRows`). What is read there reaches no
  pixel inside the width.
- An encode of a software-converted frame whose last strip finishes without the end of the
  transfer makes the encode loop spin for ever (`src/shjpeg_jpu.c:264-265,314-329`).
  `EncodeHw.StuckExactly` states exactly when.
- An encode that fails goes by the report of the call before (`src/shjpeg_jpu.c:437-440`), so that
  it can write out the last buffer once more in place of bytes coded since.
  `EncodeHw.FailedRunOrder` states exactly when, and `EncodeHw.RevisitHappens` shows one.
- `jpeg_dest_write` does not advance `next_output_byte`, so that a write into a partly filled
  buffer overwrites its start (`src/libjpeg_wrap/jpeg_io.c:219-220`).
  `JpegDest.WriteConservesExactly` states exactly when a write conserves the bytes, and
  `JpegDest.DisciplineExactly` when the driver's writes do.
- The count of scanlines is clamped by comparing a 32-bit sum that can wrap around
  (`src/libjpeg_wrap/override.c:275,411`). `Scanlines.ClampedExactly` states exactly when the count
  stays inside the frame.
- Looking a context up and inserting one are two locked sections
  (`src/libjpeg_wrap/override.c:50-62`), so that two threads using the same libjpeg object can
  insert it twice. `Registry.OneNodePerKey` states exactly when each object has one node.
- The comment on `jpeg_src_read` says that the last two bytes of every buffer are checked; of a
  buffer with one byte left only that byte is (`src/libjpeg_wrap/jpeg_io.c:160-165`). The model
  follows the code. A fill before the last that ends in the marker's second byte can therefore be
  taken for the end; `MarkerReads.MarkerFoundExactly` states exactly when reads find the marker.

## Model

| member | source | states |
|---|---|---|
| SoftHelper.OutWord0Is | src/shjpeg_softhelper.c:277-280 | the first masked and shifted output word of a chunk is, byte for byte, Y0 Cb0 Cr0 Y1 |
| SoftHelper.OutWord1Is | src/shjpeg_softhelper.c:282-285 | the second output word is Cb0 Cr0 Y2 Cb1 |
| SoftHelper.OutWord2Is | src/shjpeg_softhelper.c:287-290 | the third output word is Cr1 Y3 Cb1 Cr1 |
| SoftHelper.SoftToYCbCrByWord | src/shjpeg_softhelper.c:229-326 | every pixel x < width of every row, for any width, pitch and sampling, is the pixel of the planes, although each row's rounded-up tail spills into the next; bytes outside pitch * lines are untouched |
| SoftHelper.SoftToYCbCrByByte | src/shjpeg_softhelper.c:413-505 | the byte form promises the same pixels and the same untouched bytes |
| SoftHelper.WordAgreesWithByte | src/shjpeg_softhelper.c:229-505 | frames left by the two forms agree on every pixel, for 4:2:0 and 4:2:2 |
| SoftDownsample.YWordIs | src/shjpeg_softhelper.c:166-169 | the luma word of a chunk holds the four luma bytes in order |
| SoftDownsample.CWordIs | src/shjpeg_softhelper.c:171-185 | the chroma word of a chunk holds the two floor-averaged Cb/Cr pairs in order |
| SoftDownsample.SoftFromYCbCrByWord | src/shjpeg_softhelper.c:123-218 | for any width, pitch and number of lines every luma byte and every whole chroma pair of every row is the frame's luma and floor-averaged chroma, whatever bytes lie behind the work buffer; only the rows' bytes in the two planes change |
| SoftDownsample.ReadsInsideExactly | src/shjpeg_softhelper.c:149-199 | every chunk of every row is read from inside the work buffer if and only if a row rounded up to whole chunks exceeds the pitch by no more than the four spare bytes |
| SoftDownsample.ReadsInsideTightRows | src/libjpeg_wrap/override.c:369 | with rows packed without a gap that fails exactly for widths 1 or 2 modulo 4, and by no more than five bytes |
| SoftDownsample.SoftFromYCbCrByByte | src/shjpeg_softhelper.c:328-411 | the byte form promises the same planes; for odd widths the last pixel's chroma is kept alone |
| SoftDownsample.CopyLineNv16 | src/shjpeg_decode.c:344-362 | the words of a scanline are made from its pixel pairs in order, and nothing behind them changes |
| SoftDownsample.WordsAreBytes | src/shjpeg_decode.c:350-358 | read as little-endian bytes these words are two luma bytes and a floor-averaged chroma pair |
| SoftDownsample.DownsamplersAgree | src/shjpeg_softhelper.c:123-411 | the word form, the byte form and the scanline form hold the same luma and chroma for every pixel pair of every row |
| SoftRoundTrip.PlanesRestored | src/shjpeg_softhelper.c:166-298 | packing 4:2:2 planes and downsampling the result restores them |
| SoftRoundTrip.RepackingIsIdempotent | src/shjpeg_softhelper.c:166-298 | downsampling and repacking keeps the luma of a frame, and doing it twice is doing it once |
| FrameStrips.StripShown | src/shjpeg_jpu.c:268-277 | unpacking strip k behind the strips already shown shows one strip more and spoils none |
| FrameStrips.ImageBytes | src/shjpeg_softhelper.c:229-326 | row r of the picture is in row r modulo 1024 of strip r / 1024, luma in rows of 4096 bytes, chroma pairs 4 MiB behind, every two rows sharing one in the 4:2:0 layout |
| FrameStrips.StripBytes | src/shjpeg_jpu.c:252-279 | what an encode finds in row y of strip k at the same places is the luma and the floor-averaged chroma of frame row 1024 * k + y |
| JpuDevice.TailGrows | src/shjpeg_encode.c:105-108 | the two reload buffers always hold the last coded bytes, byte p at p modulo their joint size |
| JpuDevice.CountOn | src/shjpeg_jpu.c:118-148 | over words of which only the last stops the loop, finished strips and coded bytes add up and at most one reload buffer is used up or filled |
| JpuDevice.DecodeOutcomeIs | src/shjpeg_jpu.c:437-451 | a decode ends as the first word says that reports the end of the transfer or an error with a code in the error register, the error going first |
| JpuDevice.StripsAre | src/shjpeg_jpu.c:118-132 | the strips finished are as many as the words with the bit of either line buffer or of the end of the transfer |
| JpuState.StartKeepsDecodeSafe | src/shjpeg_jpu.c:345-348 | starting a line when none is pending keeps the unit within the two line buffers that are not waiting to be converted |
| JpuState.WordKeepsDecode | src/shjpeg_jpu.c:118-148 | any status word keeps 0 <= pending, vio_done <= jpu_done <= vio_done + 1 and jpu_done + pending <= vio_done + 2, and the parity bits in step with the counters |
| JpuState.WordKeepsEncode | src/shjpeg_jpu.c:118-140 | any status word keeps 0 <= pending <= vio_done - jpu_done <= 1 and the parity bits in step |
| JpuState.VioStartIs | src/shjpeg_jpu.c:198-233 | the k-th conversion of a VIO encode reads k strips below the base, modulo 2^32, into line buffer k modulo 2 |
| JpuState.StepAddressIs | src/shjpeg_jpu.c:226-227 | stepping a 32-bit address k times adds k times the step modulo 2^32 |
| JpuDriver.Jpu.SwConvert | src/shjpeg_jpu.c:252-279 | one software conversion moves the next strip between the line buffer in turn and the frame, advances the place by just its rows, leaves the other line buffer and the rows above alone, and does nothing once every row is converted |
| JpuDriver.Jpu.Convert | src/shjpeg_jpu.c:282-303 | VIO, software or neither, with the whole effect of each |
| JpuDriver.Jpu.ProcessJpuInts | src/shjpeg_jpu.c:91-149 | the record after any status word, bit by bit: the error's code, the end, one line buffer finished and no longer pending for either line buffer's bit or the end of the transfer, the buffer in turn used up by LOADED and by RELOAD; and which bits make the driver leave its loop |
| JpuDriver.Jpu.WaitAndProcessJpu | src/shjpeg_jpu.c:153-194 | one wait takes one word, or times out and changes nothing; the driver's counters stay in step with the lines commanded and finished |
| JpuDriver.Jpu.DecodePass | src/shjpeg_jpu.c:344-359 | one pass keeps the decode invariant for any word: the counters agree with the commands issued, the rows converted so far show the picture, and whatever was finished before the word is converted |
| JpuDriver.Jpu.NotOwned | src/shjpeg_jpu.c:344-352 | no line that the unit has been commanded to start and has not finished is in the line buffer of the strip that waits for its conversion |
| JpuDriver.Jpu.JpuDecode | src/shjpeg_jpu.c:335-367 | the decode loop terminates, takes words up to the first that stops it, counts every finished strip, and returns without error only with every one of them converted |
| JpuDriver.Jpu.EncodePass | src/shjpeg_jpu.c:314-329 | one pass keeps the encode invariant for any word: a line is started only on a converted strip, and the strip read as number k is strip k; a pass without a wait either converts or changes nothing |
| JpuDriver.Jpu.JpuEncode | src/shjpeg_jpu.c:305-333 | the encode loop terminates or spins with nothing left to convert, takes words up to the first that stops it, and counts strips and coded bytes |
| JpuDriver.Jpu.Begin | src/shjpeg_jpu.c:382-408 | START resets every counter; a decode has two lines in flight, as many as the unit starts on its own; an encode has none, and one strip converted ahead unless the frame has no rows |
| JpuDriver.Jpu.Run | src/shjpeg_jpu.c:373-460 | a call in END is refused; any other keeps the invariant of its direction, counters in step with the commands issued included, consumes words up to the first stop, and leaves RUN only with end and error clear |
| DecodeHw.UsedUp | src/shjpeg_jpu.c:145-146 | clearing the bit of the buffer in turn takes the first chunk off the queue |
| DecodeHw.ChunkAdded | src/shjpeg_decode.c:264-268 | a chunk read into the buffer of its parity joins the queue and leaves the other chunk alone |
| DecodeHw.BufferSpoiled | src/shjpeg_decode.c:269-275 | a failed read can spoil only a buffer that holds no chunk |
| DecodeHw.RefillStep | src/shjpeg_decode.c:259-285 | visiting buffer 2 before buffer 1 tops the queue up in stream order, also when both come back empty after the first reload |
| DecodeHw.Refill | src/shjpeg_decode.c:260-284 | one visit reads the next chunk exactly when the buffer is asked for and there is more to read |
| DecodeHw.RefillBoth | src/shjpeg_decode.c:259-285 | after both visits the two buffers and the mask hold the next chunks in order, two of them while there is more to read |
| DecodeHw.FifoAfterRun | src/shjpeg_jpu.c:142-148 | a RELOAD takes the first chunk off the queue and what the machine asks for is what is missing |
| DecodeHw.GivenIsNextChunk | src/shjpeg_jpu.c:142-148 | after c reloads the buffer in turn holds chunk c: with what was used up before, the unit has been given the first c + 1 chunks |
| DecodeHw.RunOnce | src/shjpeg_decode.c:240-257 | one call of the machine inside the loop: counts, bytes used up and outcome over the whole run, and the queue in the two buffers, also after the word that ends the picture |
| DecodeHw.DecodePicture | src/shjpeg_decode.c:96-296 | for every stream and every script: the outcome and return code, the code of a failed read included; however it ended, the frame showing the picture's rows, or the VIO having converted, every strip finished but for one that the word of an error has finished; a whole chunk used up in stream order for every reload while there is more to read; at the end the chunks not used up in their buffers with the next one in turn; and no chunk read too early |
| EncodeHw.CodedDataAmountIs | src/shjpeg_encode.c:41-46 | the three register bytes give the count modulo 2^24 |
| EncodeHw.StuckExactly | src/shjpeg_jpu.c:314-329 | an encode through software gets stuck if and only if some words finish every strip and none of them ends the picture |
| EncodeHw.EncodeOutcomeAfter | src/shjpeg_encode.c:189-232 | after m more words of which only the last may have ended it, an encode is decided by that word, or exactly as open as before |
| EncodeHw.ChunkInRing | src/shjpeg_encode.c:213-218 | chunk l of the coded bytes is intact in the buffer of its parity until the unit is two buffers further |
| EncodeHw.VisitOrder | src/shjpeg_encode.c:199-221 | for any mask and all contents, visiting its buffers continues the coded stream if and only if there is nothing to write or the first buffer visited is the one in turn |
| EncodeHw.WritesInOrder | src/shjpeg_encode.c:199-221 | unless the report is out of order, writing the reported buffers continues the coded stream |
| EncodeHw.WriteOrder | src/shjpeg_encode.c:199-221 | for all contents the output stays in order if and only if the end of the transfer is not reported with a loaded second buffer |
| EncodeHw.CallsAreWhole | src/shjpeg_encode.c:200-219 | every write but the last of a picture is a whole reload buffer |
| EncodeHw.OutputInOrder | src/shjpeg_encode.c:199-221 | unless the report is out of order, the writes after a call bring the output up to date: every loaded buffer, and at the end every coded byte |
| EncodeHw.WriteLoaded | src/shjpeg_encode.c:199-221 | the write loop visits buffer 1, then buffer 2, each with what is left of the coded amount, at most 64 KiB |
| EncodeHw.ReportIs | src/shjpeg_jpu.c:437-457 | the buffers reported after a word, and all buffers clear again once they have been dealt with |
| EncodeHw.CallDecides | src/shjpeg_encode.c:189-195 | timeout, spinning and each stopping word lead to the outcome that the whole script determines |
| EncodeHw.RunOnce | src/shjpeg_encode.c:189-197 | one call of the machine inside the loop: strips, coded bytes, report and outcome over the whole run |
| EncodeHw.EncodePicture | src/shjpeg_encode.c:76-247 | for every script that keeps the contract: the outcome, and the return code of every encode that comes back; every strip read by the unit being that strip of the frame; VIO addresses; and exactly what has been written: on success and after an error what a visit to the buffers last reported adds to those written before, otherwise just the buffers reported loaded |
| EncodeHw.VioAddresses | src/shjpeg_encode.c:156-158 | the k-th conversion of an encode on the VIO reads luma 1024 * k rows below the frame's address and chroma as far behind the luma plane, modulo 2^32 |
| EncodeHw.WholeRunOrder | src/shjpeg_encode.c:199-221 | over whole runs: an encode that finishes at its n-th word writes what was coded, whatever the unit's bytes are, if and only if that word does not report the end of the transfer with a loaded second buffer |
| EncodeHw.OutOfOrderHappens | src/shjpeg_encode.c:199-221 | a unit that keeps the contract can end out of order: two full buffers, the second reported together with the end of the transfer |
| EncodeHw.FailedRunOrder | src/shjpeg_encode.c:189-232 | over whole runs: an encode that fails at its n-th word has written a beginning of what was coded, whatever the unit's bytes are, if and only if the call before reported no buffer, or none has been loaded yet, or nothing was coded behind what was loaded |
| EncodeHw.RevisitHappens | src/shjpeg_jpu.c:437-445 | a unit that keeps the contract can make it do so: a full buffer, then one byte more and an error |
| MarkerReads.OneEndEnds | src/libjpeg_wrap/jpeg_io.c:124-142 | if the marker ends the last fill and no other fill ends in its second byte, the stream ends in the marker |
| MarkerReads.ReadIsFaithful | src/libjpeg_wrap/jpeg_io.c:154-184 | whatever the source, no byte is lost or repeated, at most a fill byte is added before the marker's end, and a read falls short only at the end of a buffer |
| MarkerReads.ReadAsStream | src/libjpeg_wrap/jpeg_io.c:154-184 | if the marker ends the last fill and no other fill ends in its second byte, the answer depends only on the stream and the size asked for, not on how fills divide it, and no fill is asked for past the end |
| MarkerReads.MarkerFoundExactly | src/libjpeg_wrap/jpeg_io.c:126-130 | any two successive reads answer as the whole stream would if and only if no fill before the last ends in the marker's second byte |
| JpegSource.SrcRead | src/libjpeg_wrap/jpeg_io.c:143-186 | for any source the read loop terminates with the bytes, the unread part of the buffer and the fills to come that `MarkerReads.ReadOf` gives, and writes nothing outside the bytes it returns |
| MarkerReads.RepliesAre | src/libjpeg_wrap/jpeg_io.c:124-186 | reads of two bytes or more return, all together, the stream or the stream with one fill byte (section B.1.1.2 of ITU-T T.81) before the last byte of its marker, the latter just when the marker would have ended a full read |
| MarkerReads.RepliesFull | src/libjpeg_wrap/jpeg_io.c:134-141 | every read before the last is full |
| MarkerReads.RepliesEnd | src/libjpeg_wrap/jpeg_io.c:134-141 | a read falls short exactly when the stream is used up |
| MarkerReads.ReadOfMarker | src/libjpeg_wrap/jpeg_io.c:154-184 | of a stream body FF D9, however fills divide it, a read returns its first bytes; one of just its size returns body FF FF and leaves D9; a longer one returns all of it; none asks for a fill past the end |
| MarkerReads.RepliesOfMarker | src/libjpeg_wrap/jpeg_io.c:124-186 | reads of body FF D9 return, all together, as much as was asked for of body FF FF D9 if some of them add up to its length, and of body FF D9 otherwise |
| JpegIo.CinfoContext.BeginHeader | src/libjpeg_wrap/override.c:168-174 | the stream still to be delivered is the whole source |
| JpegIo.CinfoContext.CacheInputBuffer | src/libjpeg_wrap/jpeg_io.c:25-52 | what was saved is kept, the buffer at hand joins it, and the next fill follows |
| JpegIo.CinfoContext.ReadHeader | src/libjpeg_wrap/override.c:160-181 | whatever bytes libjpeg uses or skips and however often it has the buffer filled, every byte from the first on remains to be delivered, and the source is left just where the parser went |
| JpegIo.MarkedAfterHeader | src/libjpeg_wrap/override.c:160-181 | wherever the parser leaves the source short of its end, the marker will still be found behind it |
| JpegIo.CinfoContext.SrcReadHeader | src/libjpeg_wrap/jpeg_io.c:75-123 | replaying conserves the stream across cache, buffer and source for any request size, up to and past the switch to direct reading, and never falls short before the switch |
| JpegIo.CinfoContext.Read | src/libjpeg_wrap/jpeg_io.c:75-186 | whichever operation is installed, a read of n bytes returns what one read of n bytes of the whole stream would |
| JpegIo.PrependedTo | src/libjpeg_wrap/jpeg_io.c:102-117 | a read that is part replay and part source conserves the joined stream, answers as one read of the joined stream would, and leaves the marker to be found |
| JpegDest.WriteConserves | src/libjpeg_wrap/jpeg_io.c:212-220 | a write that starts with an empty or full buffer conserves every byte |
| JpegDest.WriteConservesExactly | src/libjpeg_wrap/jpeg_io.c:205-222 | for all contents a write conserves the bytes if and only if it is empty or the buffer is empty or full as it starts |
| JpegDest.WholeBuffers | src/libjpeg_wrap/jpeg_io.c:212-220 | a write into an empty or full buffer leaves it empty or full if and only if it is of whole buffers |
| JpegDest.DisciplineConserves | src/shjpeg_encode.c:200-219 | any number of reload-buffer writes and a last one of any size conserve every byte when the buffer divides 64 KiB |
| JpegDest.DisciplineExactly | src/libjpeg_wrap/jpeg_io.c:205-222 | for all contents one or more reload-buffer writes and a last one that is not empty conserve the bytes if and only if the buffer divides 64 KiB |
| JpegDest.Destination.DestWrite | src/libjpeg_wrap/jpeg_io.c:205-222 | the write loop terminates and leaves the flushed bytes, the buffer and its free part as specified |
| StreamSource.SplitIsDropped | src/shjpeg_decode.c:512-517 | writing out some of the endless fake markers does not change the endless stream |
| StreamSource.AllReadIsFilled | src/shjpeg_decode.c:508-520 | when every read succeeds with some bytes, the fills deliver all of them and nothing else |
| StreamSource.FailedReadIsMarker | src/shjpeg_decode.c:512-517 | a read that fails or is empty puts FF D9 in its place, and the fills go on behind it |
| StreamSource.Manager.FillInputBuffer | src/shjpeg_decode.c:500-523 | after a read that succeeded and was not empty the buffer holds just its bytes; after any other, or with no read operation, it holds FF D9; what is still to come follows |
| StreamSource.Manager.SkipInputData | src/shjpeg_decode.c:528-541 | for every n skipping terminates and leaves the endless stream with exactly n bytes dropped, which are real ones as long as there are any |
| Registry.Contexts.Get | src/libjpeg_wrap/override.c:33-46 | the first node with the key, or null just when there is none |
| Registry.Contexts.Insert | src/libjpeg_wrap/override.c:57-62 | a new node at the head; the list stays acyclic and linked both ways |
| Registry.Contexts.Create | src/libjpeg_wrap/override.c:48-64 | with no other thread between lookup and insertion: the node with the key, new only if there was none |
| Registry.Contexts.Free | src/libjpeg_wrap/override.c:66-75 | exactly that node leaves the list, which stays acyclic and linked both ways |
| Registry.KeysFollow | src/libjpeg_wrap/override.c:57-75 | inserting and freeing nodes changes the sequence of keys as the steps of the thread model do |
| Registry.LookupIsUnique | src/libjpeg_wrap/override.c:36-43 | with no key twice a lookup finds the only node with its key |
| Registry.RunKeepsSound | src/libjpeg_wrap/override.c:48-63 | over any interleaving of lookups, insertions and removals by threads with keys of their own, no key is in the list twice and a key found missing is still missing when it is inserted |
| Registry.OthersKept | src/libjpeg_wrap/override.c:33-75 | no step of a thread changes whether the key of another is in the list |
| Registry.RunKeepsOthers | src/libjpeg_wrap/override.c:33-75 | nor does any interleaving in which the key's own thread takes no step |
| Registry.RunKeys | src/libjpeg_wrap/override.c:48-75 | over any interleaving the list holds just the keys that have been inserted and not freed since |
| Registry.OneNodePerKey | src/libjpeg_wrap/override.c:48-78 | every interleaving keeps one node for each key if and only if no key is used by two threads |
| Registry.Take | src/libjpeg_wrap/override.c:33-75 | one locked section carried out on the linked list: a lookup leaves it alone, an insertion puts a node of the missed key in front, a removal takes just the given node out; keys and thread states change as the thread model's step does |
| Registry.RunThreads | src/libjpeg_wrap/override.c:33-75 | any interleaving of the threads' locked sections carried out on the linked list ends where the thread model does; if every key is used by one thread only, no key is there twice and the keys are just those inserted and not freed since |
| Scanlines.Lines.WriteScanlines | src/libjpeg_wrap/override.c:393-420 | the clamped batch replaces just the next rows of the frame, in order |
| Scanlines.Lines.ReadScanlines | src/libjpeg_wrap/override.c:256-284 | the clamped batch receives just the next rows of the frame, in order; scanlines beyond it are untouched |
| Scanlines.ClampedExactly | src/libjpeg_wrap/override.c:275-276 | the clamped count stays inside the frame, and is the smaller of the lines asked for and left, if and only if the 32-bit sum of the lines asked for and passed does not wrap around |
| Scanlines.BatchesFillRows | src/libjpeg_wrap/override.c:411-418 | however lines are divided into batches they fill the rows in order, each once, until there are no more |
| Scanlines.BatchesReadRows | src/libjpeg_wrap/override.c:275-282 | however reads are divided they return the rows in order, each once |
| Scanlines.WrittenIsRead | src/libjpeg_wrap/override.c:256-420 | what was written is read back, whatever the batches on either side |
| Scanlines.WriteAll | src/libjpeg_wrap/override.c:393-420 | batches written one after the other leave the rows that any division into batches leaves |
| Scanlines.ReadAll | src/libjpeg_wrap/override.c:256-284 | batches read one after the other return the rows in order and leave the frame alone |
| Pipeline.ScanlinesShowPicture | src/libjpeg_wrap/override.c:275-283 | after a decode the scanlines read, in any batches, are the rows of the picture the unit decoded, as far as the frame shows it |
| Pipeline.StripHoldsScanlines | src/shjpeg_jpu.c:268-270 | the line buffer with strip k holds the downsampled scanlines from row 1024 * k on |
| Pipeline.StripsHoldLines | src/shjpeg_jpu.c:268-270 | the strips of a frame whose rows are given lines hold just those lines, downsampled |
| Pipeline.DestinationGetsCoded | src/libjpeg_wrap/jpeg_io.c:205-222 | behind a destination manager whose buffer divides 64 KiB the coded stream of a finished encode comes out unchanged unless it ended out of order |
| Pipeline.Compressed | src/libjpeg_wrap/override.c:422-449 | a whole encode of a frame of given rows: however it ended, the unit has read one strip for every one it reported finished, each holding its rows downsampled; and if it finished in order the destination delivers exactly what it coded |
| Pipeline.Compress | src/libjpeg_wrap/override.c:393-449 | the same from the application on: scanlines written in any batches become the frame's rows, the frame is encoded, and the driver's writes go through the destination manager |
| Pipeline.UnitFedFromStream | src/shjpeg_decode.c:236-286 | a whole decode's input: what the unit has been given, in the buffers used up and the one in turn, is the stream from its first byte on, in order, and all of it once nothing is left to read and the buffer in turn is the last |
| Pipeline.SeenIs | src/libjpeg_wrap/jpeg_io.c:124-186 | reads of 64 KiB return, all together, the stream, with a fill byte before the last byte of its marker exactly when its length is a multiple of 64 KiB |
| Pipeline.SeenOfMarker | src/libjpeg_wrap/jpeg_io.c:124-186 | for a stream body FF D9 the unit gets to see body FF FF D9 if its length is a multiple of 65536, and body FF D9 otherwise |
| Pipeline.Decompressed | src/libjpeg_wrap/override.c:183-284 | a whole decode: the chunks read are the stream cut into pieces of 64 KiB, in order, and all of it once there is no more to read; those not used up are in their buffers, and with the one in turn the unit has been given a beginning of the stream; the frame shows the rows of every strip finished before an error, and all rows if the end of the transfer came after every strip but one |
| Pipeline.AllRowsShown | src/shjpeg_jpu.c:118-132 | when the words before the end of the transfer have finished every strip of the frame but one, a decode that finishes shows every row, the end of the transfer having finished the last strip |
| Pipeline.ReadAnswers | src/libjpeg_wrap/jpeg_io.c:75-186 | reads of 64 KiB through the installed operation, up to the first that falls short, deliver the remaining stream and nothing else, and ask for no fill past the end |
| Pipeline.ReadStream | src/libjpeg_wrap/override.c:160-181 | the same from the header on: for every division of the source into fills and every way the parser goes through the header, the reads deliver the whole source from its first byte on |
| Pipeline.Decompress | src/libjpeg_wrap/override.c:160-284 | the whole decode of a libjpeg source whose last fill ends in the marker and no other in the marker's second byte, from header and replay to reloads, strips and scanlines: what the unit has been given of the source's bytes however the decode ended, the rows in the frame, and on success the scanlines read being rows of the picture |

## Left out

- JpuDriver.Jpu.UnitWorks: an assumption about the hardware in the form of a method, as is JpuDriver.Jpu.UnitStart. It finishes one strip for a word that reports a finished line buffer, and codes only while the driver waits.
- JpuDriver.Jpu.ProcessJpuInts: the status word and the buffer mask are records of booleans instead of bits of an integer.
- JpuDriver.Jpu.SwConvert: soft_offset is unbounded, where the driver's is 32 bits wide. The choice between the word and byte forms at build time is not modelled; the driver here uses the word forms.
- SoftDownsample.SoftFromYCbCrByWord: reading behind the work buffer is undefined in C; here it yields arbitrary bytes. The chroma of an odd last pixel is not promised.
- SoftHelper.SoftToYCbCrByWord: pitch skips are signed, as on the 32-bit targets; the big-endian variants are left out.
- EncodeHw.EncodePicture: every write takes all the bytes it is given, as `jpeg_dest_write` does. Of a stuck encode, which does not come back, the return code is not promised.
- JpegIo.CinfoContext.ReadHeader: a source whose skip operation fills its buffer without going through the installed callback is not modelled, and neither is a second call after a suspended one.
- JpegDest.Destination.DestWrite: empty_output_buffer is the usual one, which hands the whole buffer on and starts it again.
- Scanlines.Lines.WriteScanlines: the 32-bit sum of the lines asked for and passed does not wrap around, which the code demands of its callers (`Scanlines.ClampedExactly`); the same holds for reading.
- Pipeline.Compress: the writes of the driver are passed on to the destination in their order after the encode, not during it.
- Pipeline.Decompress: when the decode fails the wrapper falls back to libjpeg, which is not modelled.
- Registry.Contexts.Create: runs here without another thread between its two locked sections (`Registry.RunThreads` has the interleavings); malloc failures, and the use of a context after it was freed, are left out.
- Register programming and reset, UIOMux locks and their release on early returns, mapping of frame memory, the VIO's own conversion, timing and logging.
- The quantization and Huffman tables, pixel format selection, configuration and hook set-up.
- libjpeg itself, decoding in software (`decode_sw` but for `copy_line_nv16`), the error handling by longjmp, and the test programs.
