# Verified models of MyJingle's codec and container code

MyJingle sends and stores speech through code it vendors from libogg, Speex and the beat library. This project models
the parts of that code that carry state or arithmetic, and proves what they promise. It is written in Dafny 4.11;
`dafny verify dfyconfig.toml` checks all of it.

What the source changes in place is changed in place here: the Ogg stream and the synchroniser, the two bit packers, the
filters, the codebook search, the base64 decoder and the ring buffer are classes and methods over arrays, with the
source's loops. Each of them is proved against a specification on values, and the theorems are about those
specifications, so they hold of the imperative code.

**Ogg framing** (`Checksum`, `OggPage`, `OggSegments`, `OggEncoder`, `OggDecoder`, `OggStream`, `OggSync`,
`OggSyncState`). Packets are cut into lacing values and gathered into sealed pages; a synchroniser finds pages in any
stream of octets; a decoder takes pages in, notes losses and gives packets out. The main theorems are in four modules:
`OggRoundTrip` (pages carry the packets, for every interleaving of calls), `OggLoss` (any subset of the pages yields
exactly the whole packets and one marker for each gap, for every interleaving of page arrivals and reads), `OggAnyOrder`
(pages in any order, left out or repeated, never yield a splice) and `OggEndToEnd` (packets to octets, in any chunks, to
packets). `OggTransfer` carries them over to the buffers: one encoder, one synchroniser and one decoder at work in
sequence.

**Bit packers** (`BitOps`, `BitStreams`, `OggPackBits`, `OggPack`, `SpeexBits`). The word-at-a-time packer of libogg, in
both bit orders, and the bit-at-a-time packer of Speex are two refinements of one notion: a sequence of bits and the
fields it is cut into.

**Fixed-point filters** (`FixedPoint`, `Filters`, `Qmf`). Transposed filters and unrolled polyphase loops equal their
difference equations, frame after frame. Three deviations are stated exactly: rounding ties when a filter undoes another,
the least 16-bit coefficient in the synthesis bank, and sums of two samples past 16 bits in the analysis bank.

**Codebook search** (`NBest`, `Vq`, `CbShape`, `CbSurvivors`, `CbSearch`, `CbBeam`, `CbEncoder`). After each subvector
the survivors are the N least-cost extensions of the survivors before, over the whole codebook, as far as they cost less
than the mark of a free place; a survivor's distance is the cost of its own path; and the decoder rebuilds, through the
packed bits and wherever they stand in a stream, what the encoder added.

**Base64 and the ring buffer** (`Base64`, `RingBuffer`). Round trip whatever lies past the input, the exact condition for
canonical output, and when the returned length is true; a queue for every fitting run, and exactly when an overrun keeps
the order.

`Options`, `Seqs`, `Bytes` and `Memory` hold an optional value, facts about sequences, octet arithmetic and the C memory
operations.

Where the code differs from its documentation or has an exception, the code is followed:

- The base64 decoder's comment says that it returns the number of octets decoded. It also counts octets that are not made
  of coded characters when the output has no room for a whole group, and when the text leaves a single character over
  (`Base64.CountedAreDecoded`, which shows that it does so in no other case; `Base64.LoneCharacter` is an input).
- The base64 encoder's comment asks for one zero octet past the input. Only its four or two high bits matter, and they
  matter only for canonical output (`Base64.TextIsCanonical`).
- The synthesis filter bank is exact except for the coefficient -32768 (`Qmf.DefinitionIsMet`).
- The analysis filter bank folds two samples into one 16-bit sum. Its loop meets the direct form for all filters exactly if
  no such sum or difference leaves 16 bits (`Qmf.FoldingIsExact`), as on the halved samples it works on.
- The loop that inserts a terminator does not end inside the last octet of a borrowed buffer, and ends everywhere else
  (`SpeexBits.TerminatorEnds`).
- A ring-buffer write that overruns does not keep the newest octets in order, and leaves the two pointers out of step,
  unless it goes once round (`RingBuffer.OverrunKeepsOrder`, `RingBuffer.Buffer.Write`).

## Model

| member | source | states |
|---|---|---|
| Checksum.TableEntry | References/libogg/src/framing.c:104-187 | each of the 256 table constants is the remainder of its index after eight shifts of the division by 0x04c11db7 |
| Checksum.TableLoopIsDivision | References/libogg/src/framing.c:293-314 | the table-driven loop is bit-by-bit polynomial division, for every message and register |
| Checksum.CheckValue | References/libogg/src/framing.c:104-187 | the checksum of the digits 123456789 is the published check value of this polynomial, bit order and start |
| Checksum.Linear | References/libogg/src/framing.c:293-314 | the checksum of the XOR of two messages of one length is the XOR of their checksums |
| Checksum.BurstIsDetected | References/libogg/src/framing.c:293-314 | two pages of one length that differ only within 32 consecutive bits outside the checksum field have different checksums |
| Checksum.FieldIdentifiesRegister | References/libogg/src/framing.c:307-312 | the four octets stored determine the register |
| Checksum.FieldIsRegister | References/libogg/src/framing.c:307-312 | the four octets stored, read least significant first, are the register as a number |
| Checksum.StoredIsDivision | References/libogg/src/framing.c:293-314 | what is stored is the remainder of the bit-by-bit division of the page with four zero octets in the field |
| OggStream.CrcOver | References/libogg/src/framing.c:301-305 | the loop over an array computes the register of its octets |
| OggStream.SetChecksum | References/libogg/src/framing.c:293-314 | header and body keep their octets but for the field, which, read as a little-endian number, gets the remainder of the bit-by-bit division of the page with a zero field |
| OggPage.ReadOfWrite | References/libogg/src/framing.c:29-71 | every header field written for a page is what the accessors read back; the page begins with the capture pattern and passes its own checksum |
| OggPage.WrittenOctets | References/libogg/src/framing.c:444-505 | every octet of a written page: capture pattern, version, flag bits, the digits in base 256 of the three numbers, the number of segments and the table, the body, and the checksum |
| OggPage.SealedIsDivision | References/libogg/src/framing.c:702-728 | the comparison of the checksums succeeds exactly if the stored number is the remainder of the page with a zero field |
| OggEndToEnd.WrittenPageIsRead | References/libogg/src/framing.c:445-505 | the octets of a written page are recognised as one page and parse to the same fields |
| OggStream.Stream.constructor | References/libogg/src/framing.c:189-209 | a fresh structure is an empty encoder and an empty decoder |
| OggStream.Stream.Reset | References/libogg/src/framing.c:948-967 | nothing stays buffered, and no page number is expected |
| OggStream.Stream.IovecIn | References/libogg/src/framing.c:317-378 | the queue grows by exactly the segments of the concatenated vectors, across compaction and growth of the buffers |
| OggStream.Stream.FlushPage | References/libogg/src/framing.c:390-519 | whether a page is put out, its every octet, and the queue that is left |
| OggStream.Stream.Flush | References/libogg/src/framing.c:535-545 | the same for a forced flush |
| OggStream.Stream.PageOut | References/libogg/src/framing.c:551-575 | the same for pageout, which also forces at the end of stream and on the first page |
| OggEncoder.PacketSegsAreValid | References/libogg/src/framing.c:347-373 | a packet becomes values of 255 and one closing value below 255, an empty packet one zero; the first is flagged, the last carries the granule position |
| OggEncoder.FlushDrains | References/libogg/src/framing.c:390-519 | flush comes back empty-handed exactly when nothing is queued, and otherwise takes at least one value |
| OggEncoder.InitialPageHoldsOnePacket | References/libogg/src/framing.c:406-414 | the first page is put out as soon as there is anything, is flagged as the beginning, and ends with the first packet at the latest |
| OggEncoder.PageIsCut | References/libogg/src/framing.c:415-442 | after the first page: a page ends where a packet ends past the nominal size with four values below 255 or more, and no earlier prefix has these three; or at 255 values; or, if forced, at the end of the queue; and nothing comes out unasked exactly if no proper prefix has them and fewer than 255 values are queued |
| OggEncoder.PageOutWaits | References/libogg/src/framing.c:551-575 | when exactly pageout puts out nothing, end of stream and first page included; what it puts out is what flush would |
| OggEncoder.PageSays | References/libogg/src/framing.c:444-509 | what every header field of the page says, the granule position of its last closed packet or -1 included, and what stays queued |
| OggRoundTrip.EncodeHistory | References/libogg/src/framing.c:317-519 | invariant of every run of the encoder: pages put out so far followed by the queue are the segments of the packets submitted, numbered and flagged in order |
| OggRoundTrip.EncodedPagesAreCoherent | References/libogg/src/framing.c:445-500 | the pages of any run are numbered from 0, and continuation, beginning and end flags stand exactly where section 6 of RFC 3533 puts them |
| OggRoundTrip.HeadersOfRun | References/libogg/src/framing.c:445-500 | the pages of any run: numbers from 0, the first alone flagged as the beginning, the last as the end exactly when the stream has ended and nothing is queued, continued exactly if the page before ends in 255 |
| OggRoundTrip.GranuleOnPage | References/libogg/src/framing.c:425-437 | a packet keeps its granule position exactly if it is the last to close on a page other than the first |
| OggRoundTrip.PagesRoundTrip | References/libogg/src/framing.c:317-1028 | packets, paged by any mixture of pageout and flush and read at any moments, come back in order with their octets and flags |
| OggRoundTrip.DecodedIs | References/libogg/src/framing.c:976-1028 | what the reader is handed, packet by packet: the octets, the first flagged as the beginning, the last as the end, and the granule position its own, 0 or -1 |
| OggEndToEnd.FullRoundTrip | References/libogg/src/framing.c:317-1028 | the same through octets cut into any chunks and through the synchroniser |
| OggTransfer.Transfer | References/libogg/src/framing.c:317-1028 | the same of the buffers themselves: an encoder that makes the calls asked for and then flushes, a synchroniser and a decoder in sequence, the octets cut up in any way, any pages dropped and packets read at any moments, hand over exactly the packets that lie wholly on the pages left, with a marker for each gap |
| OggTransfer.EncodeAll | References/libogg/src/framing.c:317-575 | the calls asked for on one stream structure, in order, and then flushes until nothing is left, put out the octets of exactly the pages of the specified run |
| OggTransfer.SyncAll | References/libogg/src/framing.c:628-762 | however the octets are cut up, one synchroniser returns the pages of the specified run and is left with no page |
| OggStream.Stream.PageIn | References/libogg/src/framing.c:808-934 | a page is accepted exactly if serial number and version match, and then becomes the specified tables, across compaction and growth |
| OggStream.Stream.TakePacket | References/libogg/src/framing.c:976-1038 | what packetout and packetpeek return, the running number of the packet included, and what they leave: a peek that returns a packet changes nothing, and a loss marker is consumed even by a peek |
| OggStream.PeekThenTake | References/libogg/src/framing.c:976-1038 | a peek that returns a packet is followed by a read that returns the same packet with the same number, and nothing else is gone |
| OggDecoder.PageInKeepsConsistent | References/libogg/src/framing.c:808-934 | no page, however damaged or out of place, breaks the table invariant: the entry before the packet mark ends a packet or is a marker, and markers stand on packet boundaries |
| OggDecoder.PacketOutPops | References/libogg/src/framing.c:976-1028 | a read hands out the first pending event and leaves the rest, and reports nothing only if nothing is pending |
| OggDecoder.LastOfHead | References/libogg/src/framing.c:1005-1010 | the scan over values of 255 stops inside the pending part of the table, on the first value that closes |
| OggLoss.LossInvariant | References/libogg/src/framing.c:808-1028 | invariant of every run: what was read, followed by what is pending, is what the delivered pages entitle the reader to |
| OggLoss.LossSafety | References/libogg/src/framing.c:858-916 | from any subset of the pages the reader gets exactly the packets that lie wholly on delivered pages, in order, with one marker for each gap (none for a leading gap after a reset), and never a splice |
| OggAnyOrder.NeverASplice | References/libogg/src/framing.c:808-1028 | pages in any order, with any left out or repeated, and packets read at any moments: everything handed out or still pending is a loss marker or one of the packets of the stream, whole and with its flags |
| OggSyncState.SyncState.Buffer | References/libogg/src/framing.c:628-658 | compaction and growth keep what is held, and make the room asked for |
| OggSyncState.SyncState.Wrote | References/libogg/src/framing.c:660-665 | octets written are held, and writing past the buffer is refused |
| OggSyncState.SyncState.PageSeek | References/libogg/src/framing.c:677-762 | more, skip or a page, exactly as the specified seek decides; the buffer is as before, although the checksum is recomputed in place |
| OggSyncState.SyncState.PageOut | References/libogg/src/framing.c:775-803 | seeks until a page or the end of the data, reporting a loss of sync once |
| OggSync.RunFollowsScan | References/libogg/src/framing.c:677-762 | however the input is cut up, pages returned so far and pages still to be found are the pages of the whole input |
| OggSync.SeekDecides | References/libogg/src/framing.c:677-762 | in the octets themselves: when a seek waits, when it finds a page and of what length, namely if the stored number is the remainder of the division, and otherwise that it passes over everything up to the next O |
| OggSync.DamagedIsRefused | References/libogg/src/framing.c:702-762 | a page damaged within 32 bits outside its sizes and its field, or in its field alone, is refused whatever follows it |
| OggSync.ChunkingIsIrrelevant | References/libogg/src/framing.c:677-762 | once no page is ready, what was returned depends on the concatenated input alone |
| OggSync.NothingUnaccounted | References/libogg/src/framing.c:677-762 | octets fed are the octets held and the sum of the absolute values returned |
| OggSync.PlacesAreDisjointPages | References/libogg/src/framing.c:677-762 | pages are found in order, without overlap, each with a valid capture pattern, segment table and checksum |
| OggSync.ScanIsPlaces | References/libogg/src/framing.c:677-762 | what is returned is exactly the input at those places |
| OggSync.SoundPagesAreFound | References/libogg/src/framing.c:677-762 | sound pages put end to end are found, all of them and nothing else |
| OggSync.PageOutFollowsScan | References/libogg/src/framing.c:775-803 | one call loses no page, and asks for more only when no page is ready |
| OggSync.LossReportedOnce | References/libogg/src/framing.c:790-799 | between two reports of lost sync there is a page, whatever input arrives between the calls |
| OggPack.PackBuffer.Write | References/libogg/src/bitwise.c:83-123 | the buffer becomes the bits before followed by the masked value, least significant first, for widths 0 to 32; other widths clear it, and a cleared buffer stays cleared |
| OggPack.PackBuffer.WriteB | References/libogg/src/bitwise.c:126-166 | the same, most significant first |
| OggPack.PackBuffer.WriteTrunc | References/libogg/src/bitwise.c:60-80 | the bits in the storage up to the length asked for, shorter or longer than what was written, and the rest of the octet clear; a cleared buffer is left alone |
| OggPack.PackBuffer.WriteAlign | References/libogg/src/bitwise.c:168-178 | zero bits up to the octet boundary; a cleared buffer stays cleared |
| OggPack.PackBuffer.WriteCopy | References/libogg/src/bitwise.c:180-237 | any number of bits is copied, on the octet-by-octet and the block path alike; a cleared buffer stays cleared |
| OggPack.PackBuffer.Reset | References/libogg/src/bitwise.c:239-248 | an open buffer becomes empty |
| OggPack.PackBuffer.Look | References/libogg/src/bitwise.c:270-330 | the next bits as a number, or -1, through the multi-octet fast path, in bounds |
| OggPack.PackBuffer.Adv | References/libogg/src/bitwise.c:342-360 | moves on, or past the end for good |
| OggPack.PackBuffer.Read | References/libogg/src/bitwise.c:375-459 | look and then advance; past the end every later read fails |
| OggPack.PackBuffer.Read1 | References/libogg/src/bitwise.c:461-501 | a read of one bit |
| OggPack.ReadSplits | References/libogg/src/bitwise.c:375-459 | a read of m + n bits is a read of m and a read of n, put together in stream order, and fails exactly if they do |
| OggPack.ReadIsBitByBit | References/libogg/src/bitwise.c:375-501 | a read of n bits is n single-bit reads |
| OggPack.RoundTrip | References/libogg/src/bitwise.c:83-459 | for every list of fields up to 32 bits wide, and either bit order, reading back gives each value masked to its width |
| OggPackBits.WriteAppends | References/libogg/src/bitwise.c:96-119 | the up to five octets written at once are the field appended bit by bit, and the bits after it are clear |
| OggPackBits.LookIsValue | References/libogg/src/bitwise.c:283-299 | the up to five octets read at once are the value of the next bits |
| BitStreams.ValueOfField | References/libogg/src/bitwise.c:108-119 | a packed field spells its value masked to its width, in either bit order |
| BitStreams.StreamBitIs | References/libogg/src/bitwise.c:96-161 | which octet and which weight within it a bit of a stream stands at, in either bit order |
| SpeexBits.Bits.Pack | References/speex/libspeex/bits.c:229-270 | the bits of the value are appended, most significant first; an owned buffer grows, and a full borrowed one is left as it is |
| SpeexBits.Bits.InsertTerminator | References/speex/libspeex/bits.c:366-372 | a zero and then ones up to the octet boundary, nothing on one |
| SpeexBits.TerminatorSpells | References/speex/libspeex/bits.c:366-372 | the terminator, bit by bit |
| SpeexBits.Bits.PackOne | References/speex/libspeex/bits.c:229-270 | a turn of the terminator loop, with or without room: the bit is appended if there is room, and the position moves by the stated function |
| SpeexBits.TerminatorEnds | References/speex/libspeex/bits.c:366-372 | the terminator loop ends exactly if the buffer is owned, the position is on an octet boundary, or an octet is free behind it |
| SpeexBits.Bits.Write | References/speex/libspeex/bits.c:188-209 | the packed bits and the terminator, cut to the room given; the counters are as before, and packing may go on exactly if the terminator has no ones |
| SpeexBits.Bits.WriteWholeBytes | References/speex/libspeex/bits.c:211-226 | whole octets go out; given room, they and what is kept are all the bits |
| SpeexBits.Bits.ReadFrom | References/speex/libspeex/bits.c:109-145 | an owned buffer grows to take all, a borrowed one takes what fits |
| SpeexBits.Bits.UnpackUnsigned | References/speex/libspeex/bits.c:283-303 | the next field, or 0 without moving once too much has been asked for |
| SpeexBits.Bits.UnpackSigned | References/speex/libspeex/bits.c:272-281 | two's complement of widths 1 to 31 |
| SpeexBits.Bits.PeekUnsigned | References/speex/libspeex/bits.c:305-332 | the same field, without moving |
| SpeexBits.Bits.Advance | References/speex/libspeex/bits.c:343-351 | moves on, or raises the flag, which stays |
| SpeexBits.RoundTrip | References/speex/libspeex/bits.c:109-303 | every field packed, written out, read in and unpacked comes back masked to its width, and the terminator is what is left |
| SpeexBits.SignedFieldComesBack | References/speex/libspeex/bits.c:229-281 | a value that fits a signed field comes back |
| SpeexBits.EarlyOctets | References/speex/libspeex/bits.c:188-226 | emitting whole octets early, given room, and the rest at the end gives the octets of one write |
| SpeexBits.TerminatorStays | References/speex/libspeex/bits.c:194-201 | the terminator leaves its octet clear exactly if it is empty or a single zero |
| FixedPoint.RoundShiftIsNearest | References/speex/libspeex/fixed_generic.h:50 | the rounding shift divides to the nearest, ties upwards, for either sign |
| FixedPoint.RoundShiftOfNegation | References/speex/libspeex/fixed_generic.h:50 | rounding a value and its negation cancels, except that a tie gives one |
| FixedPoint.Saturate | References/speex/libspeex/fixed_generic.h:52-58 | the value itself or the nearer end of the symmetric range |
| FixedPoint.WrapIs | References/speex/libspeex/fixed_generic.h:61-62 | the 16-bit value that differs from a sum by a multiple of 65536 |
| Filters.FilterMem16 | References/speex/libspeex/filters.c:319-335 | the output solves the direct-form difference equation, also in place, and the memory is the partial sums for the next frame |
| Filters.IirMem16 | References/speex/libspeex/filters.c:339-355 | the same for the all-pole filter |
| Filters.FirMem16 | References/speex/libspeex/filters.c:359-375 | the same for the all-zero filter |
| Filters.PartialStep | References/speex/libspeex/filters.c:328-332 | the closed-form partial sums obey the recurrence of the transposed form |
| Filters.SolutionIsUnique | References/speex/libspeex/filters.c:319-335 | the difference equation determines the output |
| Filters.FramesJoin | References/speex/libspeex/filters.c:319-335 | two frames with the memory carried over are one long frame, output and memory |
| Filters.FirUndoesIir | References/speex/libspeex/filters.c:339-375 | at every sample, whatever happened before: the input, one up on a rounding tie, less what saturation cut off there |
| Filters.SampleComesBack | References/speex/libspeex/filters.c:339-375 | when exactly a sample comes back as it was |
| Filters.Undo | References/speex/libspeex/filters.c:339-375 | the same of both loops run one after the other in place |
| Filters.SynPercepZero16 | References/speex/libspeex/filters.c:379-390 | the all-pole filter and then the weighting filter, both from rest |
| Filters.WeightingUndoes | References/speex/libspeex/filters.c:379-390 | with the filter itself above and nothing below, the weighting gives the signal back, sample by sample as the all-zero filter does |
| Qmf.QmfSynth | References/speex/libspeex/filters.c:477-566 | every output is the polyphase definition on past and present samples, and the memory holds the last samples |
| Qmf.SynthIs | References/speex/libspeex/filters.c:499-560 | an output in plain terms: even coefficients on the difference of the bands or odd ones on their sum, newest sample first, rounded at 15 bits and kept within 16 |
| Qmf.MemoryIs | References/speex/libspeex/filters.c:441-566 | where the samples before the frame stand in the memories |
| Qmf.SynthFrames | References/speex/libspeex/filters.c:477-566 | two frames with the memories carried over are one long frame |
| Qmf.DefinitionIsMet | References/speex/libspeex/filters.c:521-524 | the outputs are those of the plain definition for all signals exactly if no even coefficient is -32768 |
| Qmf.TapsOfNegatives | References/speex/libspeex/filters.c:521-524 | what the negated coefficients sum to, and by how much -32768 is off |
| Qmf.QmfDecomp | References/speex/libspeex/filters.c:441-474 | for any memory, every second sample of the folded low and high band on halved samples, and the new memory; from a memory of halved samples, as from rest, these are the direct filter and its alternating-sign mirror |
| Qmf.NextEnds | References/speex/libspeex/filters.c:463-469 | the taps at both ends that one coefficient of the symmetric filter serves, and with the sign those of its mirror |
| Qmf.FoldingIsExact | References/speex/libspeex/filters.c:463-469 | the folded sums are the direct forms for all filters exactly if no sum or difference of two samples that share a coefficient leaves 16 bits |
| Qmf.BandsAreDirect | References/speex/libspeex/filters.c:441-474 | on halved samples both bands are the direct forms |
| Qmf.BandsAre | References/speex/libspeex/filters.c:441-474 | the bands in plain terms: the filter and the filter with every second sign changed, rounded at 15 bits and kept within 16 |
| Qmf.HalfIs | References/speex/libspeex/filters.c:456-458 | the samples are halved, rounding down |
| Qmf.DecompFrames | References/speex/libspeex/filters.c:441-474 | two frames with the memory carried over are one long frame |
| NBest.InsertKeepsBest | References/speex/libspeex/vq.c:90-101 | insertion behind equal distances keeps the list the n best, ties to the earlier |
| NBest.BestIsUnique | References/speex/libspeex/vq.c:76-107 | the n best are determined, order included |
| NBest.BestOfTheRest | References/speex/libspeex/cb_search.c:387-413 | offering only the n best of one survivor is as good as offering all of its extensions |
| NBest.BestBelow | References/speex/libspeex/cb_search.c:390-412 | what of the n best lies below a limit is the n best of what lies below it |
| Vq.VqNBest | References/speex/libspeex/vq.c:76-147 | the two arrays hold the n nearest entries in order, ties to the lower entry, with and without free signs |
| CbSurvivors.Offer | References/speex/libspeex/cb_search.c:390-412 | one candidate, however large, goes into the three arrays where it belongs, or not at all: they hold the n best of what is below the mark of a free place, and free places behind |
| CbSurvivors.MarkIsGreatest | References/speex/libspeex/cb_search.c:358-361 | the mark of a free place is the greatest signed 32-bit value |
| CbSearch.ExtendOne | References/speex/libspeex/cb_search.c:370-413 | after one survivor the lists hold the N best below the mark of all extensions so far |
| CbSearch.ExtendAll | References/speex/libspeex/cb_search.c:357-416 | after all survivors, or the first only at the start, the lists hold the N best below the mark of all extensions |
| CbSearch.ExtensionCost | References/speex/libspeex/cb_search.c:387-388 | the distance of a candidate is the cost of its whole path, and the other sign costs no less |
| CbSearch.ListedAreNamed | References/speex/libspeex/cb_search.c:357-366 | each place names a survivor, an index and a distance; a free place names the first survivor and index 0 |
| CbBeam.DistanceIsCost | References/speex/libspeex/cb_search.c:444-462 | the distance kept for each survivor is the sum of the step costs along its own path, unless its place has stayed free |
| CbSearch.FollowAll | References/speex/libspeex/cb_search.c:417-462 | after the tables have changed places, each row is what its own path leaves of the target, with its own indices and distance |
| CbSearch.TakeShape | References/speex/libspeex/cb_search.c:424-442 | the updates of one row take away the response to the chosen shape |
| CbEncoder.StepCostIsDistance | References/speex/libspeex/cb_search.c:53-86 | twice a step cost is the squared distance from the signed response, less the parities of the two energies |
| CbEncoder.SearchForIsWeighted | References/speex/libspeex/cb_search.c:53-86 | what a search is over is given by the shapes, the impulse response and the target |
| CbEncoder.WeightedCodebook | References/speex/libspeex/cb_search.c:53-86 | responses and energies of all entries |
| CbEncoder.WeightIsFloor | References/speex/libspeex/cb_search.c:67-76 | a response is, as far as it fits 16 bits, the inner product of the shape and the impulse response read backwards, divided by 2 to the 13 and rounded down |
| CbEncoder.UnitResponse | References/speex/libspeex/cb_search.c:67-76 | for an impulse of 8192 the response is the shape itself |
| CbEncoder.TablesAreResponses | References/speex/libspeex/cb_search.c:53-86 | the same of every sample of the table searched, and the energies are the sums of squares of its rows |
| CbEncoder.ResponseIsNear | References/speex/libspeex/cb_search.c:90-96 | what is taken out of the rest of the target is the same convolution, with the sign of the index, up to half a unit for each term |
| CbEncoder.SearchNBest | References/speex/libspeex/cb_search.c:242-469 | the indices are the best path of a beam: after each subvector the N least-cost extensions of the survivors before, as far as they cost less than the mark |
| CbBeam.BestCostsLeast | References/speex/libspeex/cb_search.c:357-462 | the best survivor costs no more than any extension, by any index, of any survivor before it |
| CbBeam.BeamIsDetermined | References/speex/libspeex/cb_search.c:357-462 | what is searched and N determine the whole run |
| CbBeam.MarkIsIdle | References/speex/libspeex/cb_search.c:357-412 | a step leaves no place free exactly if the N-th least total is below the mark, and is then the step of a search without a mark |
| CbBeam.BeamIsPlain | References/speex/libspeex/cb_search.c:357-462 | a run in which no place has stayed free is the run without a mark, and every distance kept is the cost of its path |
| CbBeam.PlainIsBeam | References/speex/libspeex/cb_search.c:357-462 | a run without a mark whose distances stay below the mark is the run with it |
| CbEncoder.SearchOne | References/speex/libspeex/cb_search.c:100-221 | the specialised search for N = 1 is the same beam with one survivor and no mark, and packs its indices and excitation as it goes |
| CbEncoder.Survivors | References/speex/libspeex/cb_search.c:287-294 | between 1 and 6 survivors for any complexity |
| CbEncoder.SurvivorsAre | References/speex/libspeex/cb_search.c:287-294 | how many survivors for every complexity |
| CbEncoder.UpdateTarget | References/speex/libspeex/cb_search.c:500-510 | the target loses what the excitation becomes after rescaling and the weighting filters |
| CbEncoder.TargetLessResponse | References/speex/libspeex/cb_search.c:500-510 | what is filtered is a 64th of the excitation and what is taken from the target a quarter of what comes out, both to the nearest |
| CbEncoder.SearchShapeSign | References/speex/libspeex/cb_search.c:242-511 | for every target and impulse response, the indices found are in range, are packed, and exactly what they stand for is added to the excitation, sample for sample |
| CbShape.Unquant | References/speex/libspeex/cb_search.c:514-569 | the excitation is what the indices read stand for, whatever the stream holds and also when it runs out |
| CbShape.DecodedSample | References/speex/libspeex/cb_search.c:537-569 | every sample decoded, in the bits of the stream and the numbers of the table: plus or minus 512 times the sample of the row, by the sign bit and the row bits of its subvector, and bits that are not all there are zero |
| CbShape.ShapesAreRows | References/speex/libspeex/cb_search.c:483-490 | an index stands for 512 times its row, and one from the codebook size on for the negative of that |
| CbShape.IndicesComeBack | References/speex/libspeex/cb_search.c:541-549 | the packed indices are read back, an index from the codebook size on as its leading sign bit |
| CbEncoder.EncodeDecode | References/speex/libspeex/cb_search.c:242-569 | at any position of a stream, with anything before and after, the encoder adds sample for sample what the decoder rebuilds from the octets, and the decoder takes exactly the bits sent |
| Base64.HtuuEncode | References/beat/SElem.cpp:514-544 | the text of the octets, its end mark and its length, padded by what the length leaves over |
| Base64.AlphabetIs | References/beat/SElem.cpp:483-491 | the alphabet, in order, and that everything else is 64 |
| Base64.PadsAre | References/beat/SElem.cpp:533-541 | which characters of a text are pads |
| Base64.GroupIsOneNumber | References/beat/SElem.cpp:522-526 | the four values of a group are one 24-bit number in base 64 |
| Base64.TextIsCanonical | References/beat/SElem.cpp:514-544 | the output is that of section 4 of RFC 4648 exactly if the high bits read past the end are zero |
| Base64.Decoder.HtuuDecode | References/beat/SElem.cpp:566-642 | what is decoded, what is left alone and the length returned, for every text and room, the table being filled on first use |
| Base64.BlanksAre | References/beat/SElem.cpp:607-609 | leading spaces and tabs are passed over, and nothing else |
| Base64.TakenFillsRoom | References/beat/SElem.cpp:611-621 | a room too small is filled by the least number of whole groups that fill it |
| Base64.GroupComesBack | References/beat/SElem.cpp:621-628 | a group decodes to its octets, and one cut short to those it has |
| Base64.RoundTrip | References/beat/SElem.cpp:514-642 | encoding and decoding give back the octets and their number, whatever lies past the end, given room for them |
| Base64.LengthComesBack | References/beat/SElem.cpp:606-641 | the length returned for an encoded text is the number of octets, for every room that holds them |
| Base64.CountedAreDecoded | References/beat/SElem.cpp:606-641 | every octet counted has been decoded from coded characters exactly if the text leaves no single character over and the room cuts off no whole group |
| Base64.OctetOfCoded | References/beat/SElem.cpp:621-628 | what an octet made of coded characters is: eight of the twelve bits of its two characters |
| Base64.LoneCharacter | References/beat/SElem.cpp:606-641 | a text that fails: one coded character, whose octet holds the value of a pad and is counted |
| Base64.CountIsWithinRoom | References/beat/SElem.cpp:606-641 | when exactly the length returned is within the room given |
| RingBuffer.Buffer.Write | References/speex/libspeex/buffer.c:68-98 | a write that fits is queued; one that overruns leaves the new octets first, and the pointers in step exactly if it goes once round |
| RingBuffer.Buffer.WriteZeros | References/speex/libspeex/buffer.c:100-130 | the same for zeros |
| RingBuffer.Buffer.Read | References/speex/libspeex/buffer.c:132-157 | the oldest octets go out and the rest stay; asked for too much, what follows is cleared up to the size of the ring |
| RingBuffer.FittingWrite | References/speex/libspeex/buffer.c:77-87 | in two pieces or one, a fitting write adds to the end of what is waiting |
| RingBuffer.OverrunKeepsOrder | References/speex/libspeex/buffer.c:88-96 | an overrun keeps what a queue would, whatever is stored, exactly if the write goes once round |
| RingBuffer.PointersAfterOverrun | References/speex/libspeex/buffer.c:88-96 | an overrun leaves read position and fill in step with the write position exactly if the write goes once round |
| RingBuffer.Run | References/speex/libspeex/buffer.c:68-157 | any fitting run of writes, zero writes and reads gives out what a queue gives out |

## Left out

- Allocation failure and size overflow (the `LONG_MAX` tests, `ogg_stream_check`, `realloc` returning null): growth always
  succeeds, as a larger fresh array with the contents kept.
- Freeing and clearing structures, and pointer lifetime. A page put out by the encoder points into the stream's buffers,
  as in the source.
- OggStream.Stream.IovecIn: takes the vectors as sequences of octets and not as C arrays.
- OggStream.Stream.PageIn: lacing entries are records of a value and three flags, where the source keeps a value and bits
  0x100, 0x200 and 0x400 in one integer. A structure is used for encoding or for decoding, not for both at once.
- OggStream.Stream.TakePacket: the packet pointer is never null.
- OggEndToEnd.FullRoundTrip: at most 2^31 pages and signed 64-bit granule positions, since page numbers are compared as
  signed 32-bit values.
- OggLoss.LossSafety: pages arrive in order, each at most once. For any other order what is proved is that nothing but
  whole packets of the stream and markers come out (`OggAnyOrder.NeverASplice`).
- OggSyncState.SyncState.PageSeek: allows a null page pointer in the source; here the page is always returned.
- OggPack.PackBuffer.Read: results are those of a `long` of 64 bits; a 32-bit `long` would show full-width values as
  negative.
- OggPack.PackBuffer.WriteTrunc: to a length within the storage, beyond which the source leaves its buffer.
- Checksum table generation: the source's generator is disabled code, and the constants are proved against the division.
- SpeexBits.Bits.Pack: widths up to 32, beyond which a shift has no defined result; a packer is used for writing or for
  reading between resets.
- SpeexBits.Bits.UnpackSigned: widths 1 to 31, since a shift by 32 has no defined result.
- SpeexBits.Bits.InsertTerminator: an owned buffer, an octet boundary or a free octet, which by `SpeexBits.TerminatorEnds`
  is exactly when the loop ends; SpeexBits.Bits.Write and the functions built on it need the same.
- `speex_bits_read_whole_bytes`, `speex_bits_set_bit_buffer` and 16-bit characters.
- Filters.FilterMem16: 32-bit accumulators do not overflow; sums are exact integers, here and in the banks and searches.
- Qmf.QmfDecomp: the filter length is a multiple of 4 and the frame at least as long as the memory, without which the
  source leaves its arrays.
- Qmf.QmfSynth: frame and filter lengths are multiples of 4, as the source assumes.
- `compute_impulse_response`, `residue_percep_zero16` and the pitch filters: the same loops again, or code resting on
  helpers that are not part of this model.
- Vq.VqNBest: one method for the two functions of the source, which differ in the sign branch only.
- CbEncoder.SearchShapeSign: the codebook has at least as many entries as survivors, the frame is a whole number of
  subvectors, and the packer has room. Distances are exact integers, compared with the mark as in the source; that a
  distance could wrap around in 32 bits is not modelled.
- CbEncoder.SearchNBest: the tables of row pointers are two-dimensional arrays whose references change places.
- CbShape.Unquant: the fixed-point branch, which assigns; the floating-point branch adds.
- Floating-point branches, SSE, ARM and Blackfin variants.
- Base64.Decoder.HtuuDecode: characters below 128, since a negative `char` would index before the table, and an array that
  reaches as far as the last group read.
- Base64.HtuuEncode: the buffer reaches to a whole group; the string and buffer classes around the two functions are not
  part of this model.
- RingBuffer.Buffer.constructor: at least one cell.
- `speex_buffer_resize`, which the source marks as unfinished.
- Everything else in the repository (dialogs, sound devices, threads, XMPP tasks): input, output and foreign calls without
  an invariant of their own.
