# Remote Terminal for MeshCore: a verified model

This project models the parts of Remote Terminal for MeshCore in which a small slip would go unnoticed for a long
time, and proves what they are for. It verifies with `dafny verify dfyconfig.toml`.

- **Message compression** (`app/compression/mcmp.py`): a 32-bit arithmetic coder over context-dependent frequency
  tables, an escape sub-model for characters outside the vocabulary, bit packing, basE91, the v2 text transport, the v3
  binary container, and the send/receive pipeline over all of it. Modules `ArithmeticCoder`, `FrequencyTable`,
  `MeshCodec`, `Base91`, `Utf8`, `Container` and `Transport` define and prove; `ContextWindow` and `Framing` say which
  context codes each character and which texts are sent and read how, without the functions that compute it;
  `CoderObjects`, `FrequencyObjects`, `CodecObjects`, `Base91Loops` and `ContainerObjects` are the objects and loops of
  the source, proved against them.
- **Channel slots** (`app/radio.py` and its callers): which radio slot holds which channel. `ChannelSlots` is the maps
  and the operations on them, `ChannelRuns` the protocol as a state machine over the interleaved steps of any number of
  tasks together with the radio's real contents, `ChannelHistory` what each step does to every slot and the order of the
  cache by the history of loads and uses, and `ChannelSlotsObject` the object with its four dictionaries.
- **Scheduling and limits**: `Cron` (the next fire time), `ReplyLimiter`, `ReplyHistory` and `ReplyLimiterObject`
  (admission of bot runs, over whole runs and judged by their history), `HostClock` (the clock verdict and its
  quarantine).
- **Radio contents and replies**: `ContactReconcile` (the background contact loop), `SplitText` (splitting replies),
  `ContactRoute` (stored routes), `ImageProtocol` (image fragments and envelopes).

How the central proof goes. The encoder's written and pending bits stand for an exact integer, of which its 32-bit
registers are a window; a turn of renormalisation doubles it exactly (`ZoomDoublesOffset`), so that a symbol selects its
slice of the exact interval (`EncodeIsExact`) and a stream that ends inside the last interval was inside every earlier
slice (`EncodeHoldsBack`). The decoder's register is the same window on the stream, so at every symbol its scaled
division lands in the encoder's slice (`SymbolSynced`).

Where the code does not do what one would expect of it, the exact condition is proved:

- A text with U+0003, with more than 4096 characters, or with U+0004 where the model gives that no frequency does not come
  back from the codec (`RoundTrip`); plain sending saves some of them (`BinaryRoundTrip`, `V2Pipeline`, `V3Pipeline`).
- Version 2 compares characters before it compares bytes, so some text that would shrink goes out plain (`V2WireIs`). A
  text that reads as a frame, with or without a leading space, is lost (`FrameLookalikeIsLost`, `LeadingSpaceIsLost`).
- The basE91 decoders differ by one byte on some odd-length texts, none of which the encoder writes (`DecodersCompared`).
- The image path plans a slot before it takes the radio lock. Such a plan can transmit on another channel or leave a
  channel both pinned and cached (`StalePlanTransmitsElsewhere`, `StaleConfigureBreaksTheMaps`). Nothing ever makes the
  maps unsound (`MapsStaySound`); what makes a mapping false, a channel double or the last slot pinned is exact
  (`RunStaysCoherent`, `RunStaysSeparate`, `RunKeepsSpare`), and so is what goes out (`TransmitsExactly`). The text path,
  which plans under the lock, is safe (`LockedSendTransmits`).
- Deleting a pinned channel unmaps its slot at once and clears it later; a send in between that is given that slot ends
  mapped to an empty one (`LateClearBreaksCoherence`). A pin write reported as failed that reached the radio does the
  same (`LockedPinKeeps`).
- The search for a fire time gives up on 29 February across 2100, and on nothing else where the day fields cannot veto
  each other (`LeapDayCanBeMissed`, `FoundExactly`); where they can, on more (`MixedFieldsCanBeMissed`). For every schedule
  one cycle of the calendar decides (`FoundByCycle`).
- The per-user reply gap is kept up to exactly 1001 global gaps (`UserSpacing`, `UserSpacingBoundIsExact`).
- A contact pass whose commands are all refused repeats for good, unless it finds the table full, which stops the loop
  (`PassStallsExactly`, `ThreeEnds`, `TwoStuckContactsStarveTheRest`).
- Numbered parts fit from a limit of 12 bytes and up to 99 parts, and not beyond (`PartsFit`, `ManyPartsOverflow`,
  `SmallBudgetOverflows`). The documentation of the function promises parts sized for the radio without a bound.
- Normalising a route twice can differ from once, for paths of 64 or more hops (`NormalizeIsIdempotent`).

Conventions: integers are unbounded, so masks and widths are written out; clocks and durations are reals; what a clock,
a radio, a reference or a database answers is a parameter of the step that asks; errors are `Result` or `Option`.

## Model

| member | source | states |
|---|---|---|
| ArithmeticCoder.NarrowStaysInside | app/compression/mcmp.py:139-141 | every slice of positive width, however thin, is a non-empty part of the interval |
| ArithmeticCoder.NarrowIsProportional | app/compression/mcmp.py:138-141 | both ends of the narrowed interval are the ends of the slice in proportion, rounded down |
| ArithmeticCoder.ZoomDoublesOffset | app/compression/mcmp.py:143-169 | a renormalisation turn doubles the exact position, whatever mix of written and pending bits holds it |
| ArithmeticCoder.RenormaliseIsExact | app/compression/mcmp.py:143-157 | renormalising scales the exact interval by a power of two and nothing else |
| ArithmeticCoder.EncodeIsExact | app/compression/mcmp.py:138-169 | a symbol selects exactly its slice of the exact interval: the 32-bit masks drop no set bit and no pending bit resolves wrongly |
| ArithmeticCoder.GridStep | app/compression/mcmp.py:143-157 | on an empty slice every turn of the loop doubles the grid the point lies on, so the loop ends within 32 turns, with the whole interval |
| ArithmeticCoder.EncodeHoldsBack | app/compression/mcmp.py:138-169 | a stream inside the interval after a symbol was inside that symbol's slice before it |
| ArithmeticCoder.FinishHolds | app/compression/mcmp.py:159-169 | the final bits put the stream inside the last interval, whatever zeros are read past them |
| ArithmeticCoder.ScaledLocates | app/compression/mcmp.py:138-216 | the scaled division falls in a slice if and only if the value lies in the narrowed interval |
| ArithmeticCoder.ScaledInRange | app/compression/mcmp.py:211-216 | the scaled division never leaves the table, on any input |
| ArithmeticCoder.SymbolSynced | app/compression/mcmp.py:138-209 | a decoder in step locates the encoder's symbol and stays in step, holding the same interval with its value inside |
| ArithmeticCoder.FoundSliceContains | app/compression/mcmp.py:211-231 | on arbitrary bytes the entry found has positive width and contains the value |
| ArithmeticCoder.UniformSliceContains | app/compression/mcmp.py:233-243 | the clamp of the uniform decoder never changes its answer |
| ArithmeticCoder.IndexSynced | app/compression/mcmp.py:211-231 | decoding with the encoder's table returns the encoder's index, also beside zero-width entries |
| ArithmeticCoder.UniformSynced | app/compression/mcmp.py:233-243 | the same for uniform symbols |
| ArithmeticCoder.StartTracks | app/compression/mcmp.py:175-191 | a fresh decoder is in step with a fresh encoder on every byte string, the empty one included |
| CoderObjects.ArithmeticEncoder.EmitBit | app/compression/mcmp.py:164-169 | writes the bit and the pending opposite bits, changing nothing else |
| CoderObjects.ArithmeticEncoder.ZoomOnce | app/compression/mcmp.py:143-157 | one turn of the loop in 32-bit arithmetic is one exact zoom of an interval, or one step of the point an empty slice leaves |
| CoderObjects.ArithmeticEncoder.Renormalize | app/compression/mcmp.py:143-157 | the loop ends, with the interval settled, also from an empty slice |
| CoderObjects.ArithmeticEncoder.EncodeSymbol | app/compression/mcmp.py:138-157 | the object refines the coder on every slice, empty ones included, and is left with a range above a quarter |
| CoderObjects.ArithmeticEncoder.FinishBits | app/compression/mcmp.py:159-162 | the final bits |
| CoderObjects.Search | app/compression/mcmp.py:217-224 | the binary search returns the first entry above the scaled value |
| CoderObjects.ArithmeticDecoder.constructor | app/compression/mcmp.py:175-183 | the register holds the first 32 bits of the stream |
| CoderObjects.ArithmeticDecoder.ReadBit | app/compression/mcmp.py:185-191 | zeros are read past the end, and the position stops there |
| CoderObjects.ArithmeticDecoder.Renormalize | app/compression/mcmp.py:193-209 | the decoder makes the same turns as the encoder |
| CoderObjects.ArithmeticDecoder.DecodeModelIndex | app/compression/mcmp.py:211-231 | refines the table decoder and stays on track on any bytes |
| CoderObjects.ArithmeticDecoder.DecodeUniformIndex | app/compression/mcmp.py:233-243 | refines the uniform decoder and stays on track on any bytes |
| FrequencyTable.DescendingIsFalling | app/compression/mcmp.py:381 | the trim order visits the largest entries first, ties in index order |
| FrequencyTable.SlackCovers | app/compression/mcmp.py:381-389 | the entries can give up at least the sum less their number |
| FrequencyTable.FirstHasSpare | app/compression/mcmp.py:383-389 | the trim never reaches an entry it cannot reduce while something is left to trim |
| FrequencyTable.TrimIsExact | app/compression/mcmp.py:381-389 | the trim removes exactly the excess and empties no entry |
| FrequencyTable.TrimCutsLargestFirst | app/compression/mcmp.py:381-389 | an entry is touched only once every larger one is down to 1 |
| FrequencyTable.FirstMaxIsMax | app/compression/mcmp.py:371-376 | the surplus goes to the first of the largest entries |
| FrequencyTable.NormaliseIsExact | app/compression/mcmp.py:368-389 | the entries add up to exactly 2^20, none that was positive becomes zero, and unless all are zero none that was zero becomes positive |
| FrequencyTable.CumulateIsCdf | app/compression/mcmp.py:391-396 | the table is non-decreasing and ends at exactly 2^20 |
| FrequencyTable.CumulateSlice | app/compression/mcmp.py:391-396 | each slice is as wide as its frequency |
| FrequencyTable.CdfIsUsable | app/compression/mcmp.py:300-396 | for every context the table is a cumulative one in which every symbol but ESC, and ESC when escapes are on, has positive width |
| FrequencyTable.SliceIsOpen | app/compression/mcmp.py:300-396 | a symbol has a slice of positive width if and only if seeding and blending gave it a frequency |
| FrequencyTable.ScriptRanges | app/compression/mcmp.py:113-123 | which codepoints are of which script |
| FrequencyTable.NearestScriptIs | app/compression/mcmp.py:319-330 | the script of a context is that of its last character that is neither U+0002 nor Common, and there is none if and only if there is no such character |
| FrequencyTable.SeedIs | app/compression/mcmp.py:317-353 | what every symbol starts with, from that character alone: the boost of 8, or 32 after a match of at most two characters, for Common symbols and the same script, and 1 for the rest; a third of the boost for Common symbols without such a character; 500 or 0 for ESC; beyond half the scale, the rescaled seed and at least 1 |
| FrequencyTable.NormaliseIs | app/compression/mcmp.py:368-389 | a shortage goes to the first of the largest entries; an excess is taken from the largest first, ties by index, each cut to 1 before the next is touched |
| FrequencyTable.TableIs | app/compression/mcmp.py:300-396 | every slice of the table of a context is as wide as the seed and blend of its symbol, so adjusted |
| FrequencyObjects.SeedInPlace | app/compression/mcmp.py:332-353 | the list of seeds, which `SeedIs` describes, rescaled in place when it takes more than half the scale |
| FrequencyObjects.AddBlend | app/compression/mcmp.py:355-366 | every entry grows by its blend, and only by it |
| FrequencyObjects.RaiseLargest | app/compression/mcmp.py:371-376 | the whole difference goes to the first largest entry |
| FrequencyObjects.TrimInPlace | app/compression/mcmp.py:381-389 | the in-place trim computes the trimmed table |
| FrequencyObjects.NormaliseInPlace | app/compression/mcmp.py:368-389 | the in-place list ends normalised |
| FrequencyObjects.RunningTotals | app/compression/mcmp.py:391-396 | the running totals |
| FrequencyObjects.ComputeCdf | app/compression/mcmp.py:300-396 | the whole computation yields the table that `TableIs` describes, usable for every context |
| FrequencyObjects.MeshModel.GetCdf | app/compression/mcmp.py:290-298 | the cache never changes an answer |
| MeshCodec.CodepointSynced | app/compression/mcmp.py:525-547 | the escape sub-model returns every codepoint below 2^21, through its block or the fallback |
| MeshCodec.PackCarries | app/compression/mcmp.py:497-512 | packed bytes, stripped or not, carry exactly the written bits and then zeros |
| MeshCodec.StripKeepsStream | app/compression/mcmp.py:507-512 | stripping trailing zero bytes changes no bit the decoder can read |
| MeshCodec.ReceivedWhole | app/compression/mcmp.py:579-602 | the receiver gets the whole text if and only if it has no EOF and at most 4096 characters |
| MeshCodec.DecodedIsOpen | app/compression/mcmp.py:579-602 | whatever the bytes, without escapes the decoder never yields an EOF, more than the limit, or an ESC that has no frequency where it stands |
| MeshCodec.RoundTrip | app/compression/mcmp.py:497-602 | stripped or not, the text comes back if and only if it has no U+0003, at most 4096 characters, and U+0004 only where that has a frequency; texts that mix U+0004 with characters outside the vocabulary are in the row of MixedRoundTrip |
| MeshCodec.LiteralEscape | app/compression/mcmp.py:553-602 | with escapes on, what stands before a literal U+0004 arrives, and the decoder, in step with the encoder there, then takes a codepoint from the bits of what follows |
| MeshCodec.MixedRoundTrip | app/compression/mcmp.py:553-602 | a text that mixes U+0004 with unknown characters: what the receiver gets, and that it comes back if and only if nothing ends the decoding before its first U+0004 and the bits written for the rest read as an escaped U+0004 and then as the rest |
| ContextWindow.ContextIsWindow | app/compression/mcmp.py:515-519 | the context in use at a position is the last `order` characters of as many U+0002 and the text before it; at order 0, all of the text before it |
| ContextWindow.CompressIsByWindows | app/compression/mcmp.py:553-576 | the coded bits of every text: each character coded against its window, escapes exactly if a character is outside the vocabulary, and the end symbol against the last window |
| ContextWindow.DecodeIsByWindows | app/compression/mcmp.py:579-602 | any bytes decode to a text if and only if each of its characters is what the decoder reads against its window, and the end symbol or the limit follows |
| CodecObjects.BitsToBytes | app/compression/mcmp.py:497-504 | setting bits one by one packs them, most significant first |
| CodecObjects.BitsToMinBytes | app/compression/mcmp.py:507-512 | the packed bytes without their trailing zeros |
| CodecObjects.WriteCodepoint | app/compression/mcmp.py:525-535 | the escape writer on the encoder object |
| CodecObjects.ReadCodepoint | app/compression/mcmp.py:538-547 | the escape reader on the decoder object |
| CodecObjects.WriteChar | app/compression/mcmp.py:558-569 | one turn of the compression loop |
| CodecObjects.WriteText | app/compression/mcmp.py:558-574 | the compression loop over a whole text, which `CompressIsByWindows` describes character by character |
| CodecObjects.CompressArithmeticBits | app/compression/mcmp.py:553-576 | the objects together compute the coded bits and the escape flag that `CompressIsByWindows` describes |
| CodecObjects.ReadTurn | app/compression/mcmp.py:584-600 | one turn of the decode loop, with its stop and its error |
| CodecObjects.ReadText | app/compression/mcmp.py:584-602 | the decode loop up to its limit |
| CodecObjects.DecodeArithmeticBytes | app/compression/mcmp.py:579-602 | the objects together compute the decoded text or the error |
| Base91.TailDecodes | app/compression/mcmp.py:427-430 | the last one or two characters carry the leftover bits and fewer than eight more |
| Base91.TextCarriesBits | app/compression/mcmp.py:407-431 | the text carries the data bits in order, with fewer than eight padding bits |
| Base91.DecodersCompared | app/compression/mcmp.py:434-491 | on any alphabet text the decoders agree, except that v3 appends one byte, the last character's value, to odd text whose pairs fill whole bytes |
| Base91.BothInvert | app/compression/mcmp.py:407-491 | both decoders return every byte string from its encoding |
| Base91.EncodedLength | app/compression/mcmp.py:407-431 | at most two characters per 13 bits, and two more |
| Base91Loops.EncodeBytes | app/compression/mcmp.py:407-431 | the accumulator loop computes the encoding |
| Base91Loops.EmitPair | app/compression/mcmp.py:416-426 | writing a pair takes 13 or 14 bits off the front of the unwritten bits |
| Base91Loops.EmitTail | app/compression/mcmp.py:427-430 | the leftover bits |
| Base91Loops.Flush | app/compression/mcmp.py:453-456 | flushing moves whole bytes out of the accumulator and loses no bit |
| Base91Loops.ReadPairs | app/compression/mcmp.py:441-456 | reading pairs accumulates exactly their bits, and refuses any other character |
| Base91Loops.DecodeTextV2 | app/compression/mcmp.py:434-464 | the v2 loop computes the v2 decoding |
| Base91Loops.DecodeTextV3 | app/compression/mcmp.py:467-491 | the v3 loop computes the v3 decoding |
| Utf8.ScalarReadsBack | app/compression/mcmp.py:697-722 | a character reads back from its UTF-8 form (section 3 of RFC 3629), whatever follows |
| Utf8.TextReadsBack | app/compression/mcmp.py:697-722 | text reads back from its UTF-8 form |
| Utf8.DecodeIsStrict | app/compression/mcmp.py:720-724 | bytes decode only if they are the UTF-8 form of the result, so overlong forms, surrogates and stray bytes are refused |
| Container.BinaryRoundTrip | app/compression/mcmp.py:693-728 | the binary form returns the text if and only if it is empty, sent as plain UTF-8 or returned by the codec, that is, transmissible |
| Container.SegmentNeverGrows | app/compression/mcmp.py:693-702 | the segment is longer than the text's UTF-8 form if and only if the text starts below U+0002 and its coded form is longer; such a character alone always grows |
| Container.SegmentIs | app/compression/mcmp.py:693-702 | the segment is the shorter of UTF-8 and the coded form, the coded one on a tie and always for a text starting below U+0002 |
| Container.SegmentReads | app/compression/mcmp.py:704-728 | how every segment is read: nothing or a lone flag byte as the empty text, a first byte above 1 as UTF-8, else as coded text |
| Container.VaruintReadsBack | app/compression/mcmp.py:769-817 | a varuint reads back below 2^35 and is refused from there on |
| Container.NameReadsBack | app/compression/mcmp.py:828-864 | a name reads back if and only if its UTF-8 form is shorter than 2^35 bytes |
| Container.HeaderReadsBack | app/compression/mcmp.py:828-926 | a header reads back, leaving the reader on the text, if and only if its names are short enough; otherwise reading fails |
| Container.SignedHeaderReads | app/compression/mcmp.py:893-927 | a 64-byte signature between the names is read past, and every field comes back |
| Container.UnknownFlagsRefused | app/compression/mcmp.py:899-901 | a body with any flag but the three known ones is refused |
| Container.BodyRoundTrip | app/compression/mcmp.py:828-947 | every field comes back, the text segment is the compressed form, and the text comes back exactly when its binary form returns it |
| ContainerObjects.WriteVaruintLoop | app/compression/mcmp.py:769-779 | the writing loop |
| ContainerObjects.ByteReader.ReadByte | app/compression/mcmp.py:789-794 | the next byte, or an error that moves nothing |
| ContainerObjects.ByteReader.ReadBytes | app/compression/mcmp.py:796-801 | the next bytes, or an error |
| ContainerObjects.ByteReader.ReadUint | app/compression/mcmp.py:803-805 | a little-endian 32-bit number |
| ContainerObjects.ByteReader.ReadVar | app/compression/mcmp.py:807-817 | the varuint loop reads what the specification reads and stops after five bytes |
| ContainerObjects.ByteReader.ReadHeaderFields | app/compression/mcmp.py:893-926 | the reader object computes the header and stands at the segment |
| ContainerObjects.CompressedTextBytes | app/compression/mcmp.py:975-996 | stripping, unframing and walking the header yields the length of the segment, or nothing on any malformed payload |
| Transport.PackedDecodes | app/compression/mcmp.py:659-689 | the packed form decodes to what the codec returns |
| Transport.V2WireIs | app/compression/mcmp.py:634-671 | a text goes out plain if and only if it is empty, framed (`Framing.EnvelopeIs`), no shorter packed in characters, or no shorter in bytes with its prefix; otherwise as the prefix and the packed form |
| Transport.PlainReturns | app/compression/mcmp.py:1140-1206 | a text sent as it is comes back if and only if no known prefix opens it, or it does not decode, or it decodes to itself |
| Transport.MalformedFrameReturns | app/compression/mcmp.py:647-689 | a prefix alone, an unknown marker or a character outside the alphabet leaves the text as it was sent |
| Transport.V2WireReads | app/compression/mcmp.py:647-689 | a packed text is read as its decoding, or left as it is where it does not decode |
| Transport.V2Pipeline | app/compression/mcmp.py:1066-1206 | the wire form is never longer than the text; the receiver gets the text back if and only if it goes out plain and is not taken for something else, or is packed and transmissible |
| Transport.V3WireReads | app/compression/mcmp.py:999-1007 | a wrapped body is read as its text, or left as it is where it does not decode |
| Transport.V3Pipeline | app/compression/mcmp.py:1066-1206 | the receiver gets the text back if and only if it goes out plain and is not taken for something else, or is wrapped and its binary form returns it |
| Framing.SpacesAre | app/compression/mcmp.py:1158 | exactly which characters count as white space before a payload |
| Framing.EnvelopeIs | app/compression/mcmp.py:1036-1057 | a text is framed if and only if one of the seven prefixes opens it or it is r:HHHH:II in lower-case hexadecimal, with or without one final newline |
| Framing.SendsV3 | app/compression/mcmp.py:1066-1118 | on version 3 every framed text goes out as it is, and so does one with an MCMP payload behind white space or a timestamp outside 32 bits; every other text is wrapped |
| Framing.SendsV2 | app/compression/mcmp.py:634-671 | on every version but 3 and MCOtxt a framed text goes out as it is, and any other is packed if and only if that is shorter in characters, or the text starts with a marker, and shorter in bytes with the prefix |
| Framing.Reads | app/compression/mcmp.py:1140-1206 | every incoming text is read by what follows its white space: MCOtxt, v3 or v2 by prefix, anything else and whatever does not decode as it is |
| Transport.WrappedReads | app/compression/mcmp.py:950-1007 | for every sender name and reply anchor: what cannot be carried goes out plain; otherwise every field comes back, the reported segment length is that of the compressed text, and the text comes back if and only if its binary form returns it; names of 2^35 bytes make the payload unreadable |
| Transport.FrameLookalikeIsLost | app/compression/mcmp.py:1140-1206 | every text that reads as a v2 frame with the empty marker, behind white space or not, arrives empty when sent as it is |
| Transport.LeadingSpaceIsLost | app/compression/mcmp.py:1050-1057 | framing is judged without stripping and decoding with it: on every model such a text is lost, with and without a leading space |
| ChannelSlots.GapExists | app/radio.py:650-660 | by pigeonhole a free slot exists, and the search finds one |
| ChannelSlots.PinSlotIsUnpinned | app/radio.py:483-492 | a pin goes to the lowest unpinned slot and is refused exactly when it would leave no slot unpinned |
| ChannelSlots.PlanIsSound | app/radio.py:554-600 | a slot is configured exactly when slots are not reused or the channel has none, and one reused holds the channel; only a pinned channel gets a pinned slot, any other the preferred or the lowest free one; eviction happens exactly when no slot is free, to the first channel of the cache; the borrow path is never taken |
| ChannelSlots.PlanKeeps | app/radio.py:554-600 | from any sound state planning keeps everything, chooses a slot in range, and borrows a pinned slot only when none is spare |
| ChannelSlots.AddResidentKeeps | app/radio.py:443-457 | pinning keeps the maps sound, the channels separate and the mappings true, and leaves a slot unpinned if and only if the pins fit |
| ChannelSlots.NoteLoadedKeeps | app/radio.py:602-623 | recording a load keeps the maps sound and the mappings true, and the channels separate if and only if the key is not pinned in another slot |
| ChannelSlots.NoteUsedKeeps | app/radio.py:625-635 | so does refreshing the order, whose meaning is in `ChannelHistory.OrderIsByLastUse` |
| ChannelSlots.InvalidateKeeps | app/radio.py:637-644 | so does dropping a cached slot |
| ChannelSlots.UnpinKeeps | app/radio.py:459-464 | so does dropping a pin |
| ChannelSlots.ClearKeeps | app/radio_sync.py:548-557 | clearing a slot keeps coherence if and only if nothing is mapped to it then |
| ChannelSlots.LoadKeeps | app/radio_sync.py:369-416 | the loading loop only records slots the radio holds |
| ChannelSlots.SyncEstablishes | app/radio_sync.py:352-470 | a full sync establishes the invariant and coherence from any state, whichever writes fail |
| ChannelRuns.ConfigureKeeps | app/imaging/aeic/transport.py:349-362 | carrying out a plan, however stale, keeps the maps sound and a slot spare; the channels separate, and the mappings true, each under its own exact condition |
| ChannelRuns.PinWriteKeeps | app/radio_sync.py:515-526 | the same for the write of a pin chosen earlier: a spare slot and true mappings, each exactly |
| ChannelRuns.StepKeeps | app/radio.py:427-660 | every step keeps the maps sound; true mappings, separate channels and a spare slot it ends if and only if it is one of three kinds, one kind and one kind |
| ChannelRuns.RunStaysCoherent | app/radio.py:427-660 | over every interleaving of any number of tasks every mapping is true of the radio at every moment, if and only if no step is an unseen write over a mapped slot, by a send or a pin, or the clearing of one |
| ChannelRuns.MapsStaySound | app/radio.py:427-660 | over every interleaving, whatever goes wrong in it, both map pairs stay exact inverses, no slot is in both and all stay in range |
| ChannelRuns.RunStaysSeparate | app/radio.py:427-660 | no channel is ever both pinned and cached, if and only if no stale plan is recorded for a channel pinned elsewhere meanwhile |
| ChannelRuns.RunKeepsSpare | app/radio.py:427-660 | a slot is always left to send from, if and only if no pin is written into the last one |
| ChannelRuns.CachedSlotIs | app/radio.py:508-519 | a channel is known to be loaded if and only if slots are reused and it is pinned or cached, in that slot |
| ChannelHistory.OrderIsByLastUse | app/radio.py:602-635 | over every interleaving the cache lists its channels by their last load or use: each load or use of a channel has a later one of every channel behind it |
| ChannelHistory.EvictionIsLeastRecent | app/radio.py:554-600 | over every interleaving a planned eviction from the cache takes the channel whose last load or use is earliest |
| ChannelHistory.StepMaps | app/radio.py:425-645 | what every step does to every slot, pinned and cached, whatever the state it meets |
| ChannelRuns.MappedSlotTransmits | app/virtual_node/server.py:1316-1331 | a mapped slot transmits on the channel it is mapped to and no other, however old the plan |
| ChannelRuns.StepPuts | app/radio.py:427-660 | exactly which steps change what the radio holds in a slot, and to what |
| ChannelRuns.TransmitsExactly | app/imaging/aeic/transport.py:268-273 | over every run, whatever has gone wrong in it, a transmission goes out on its channel if and only if the last step that wrote or cleared its slot wrote that channel; where the mappings are true and the slot is mapped, if and only if it is mapped to it |
| ChannelRuns.LockFreeRun | app/radio.py:554-644 | steps that take no lock disturb neither the radio nor a plan made under the lock |
| ChannelRuns.LockedSendTransmits | app/services/message_send.py:296-396 | the text send, under one lock hold with any lock-free steps of others between, keeps everything and transmits only on the requested channel |
| ChannelRuns.LockedPinKeeps | app/radio_sync.py:504-532 | pinning under one lock hold keeps everything, if and only if its write is not one reported as failed that reached the radio over a cached channel |
| ChannelRuns.LockedUnpinKeeps | app/radio_sync.py:535-559 | unmapping and clearing under one lock hold is always safe |
| ChannelRuns.StalePlanTransmitsElsewhere | app/imaging/aeic/transport.py:346-362 | a plan made before the lock is taken can transmit on another channel, every step being allowed |
| ChannelRuns.StaleConfigureBreaksTheMaps | app/imaging/aeic/transport.py:346-362 | a channel pinned between plan and write ends up pinned and cached, every write being confirmed and every mapping still true |
| ChannelRuns.ForgottenSlotTransmits | app/services/message_send.py:381-388 | a failed send forgets the mapping and leaves the radio as it was, so an unmapped slot may still transmit on its channel |
| ChannelRuns.LateClearBreaksCoherence | app/routers/channels.py:217-235 | deleting a pinned channel unmaps at once and clears later: whatever slot a send in between asks for, the late clear falsifies its mapping if and only if it was given the freed one; no map changes |
| ChannelSlotsObject.SlotManager.SetResidentChannels | app/radio.py:427-441 | the pinned map is replaced; a cached channel survives, in its slot and order, if and only if neither it nor its slot became pinned |
| ChannelSlotsObject.SlotManager.AddResidentChannel | app/radio.py:443-457 | the dictionaries end as specified, whatever they held |
| ChannelSlotsObject.SlotManager.RemoveResidentChannel | app/radio.py:459-464 | both dictionaries drop the pair, and the slot is returned |
| ChannelSlotsObject.SlotManager.FirstFreeResidentSlot | app/radio.py:483-491 | the lowest slot no channel is pinned in, one always being kept back |
| ChannelSlotsObject.SlotManager.PlanChannelSendSlot | app/radio.py:554-600 | the method computes the plan and changes the dictionaries as the plan does |
| ChannelSlotsObject.SlotManager.NoteChannelSlotLoaded | app/radio.py:602-623 | the four dictionaries end as specified |
| ChannelSlotsObject.SlotManager.NoteChannelSlotUsed | app/radio.py:625-635 | only the order changes, to the one `ChannelHistory.OrderIsByLastUse` describes |
| ChannelSlotsObject.SlotManager.InvalidateCachedChannelSlot | app/radio.py:637-644 | both dictionaries drop the pair |
| ChannelSlotsObject.SlotManager.FindFirstFreeChannelSlot | app/radio.py:650-660 | the preferred slot if free, else the lowest free one |
| ChannelSlotsObject.LoadResidentChannels | app/radio_sync.py:352-426 | the loop writes, records and clears slot by slot and installs exactly what it confirmed |
| Cron.NextDayOrdinal | app/bots/cron.py:132-136 | stepping a day adds one to the day number and moves the weekday by one, across months, years and leap days |
| Cron.MonthsAre | app/bots/cron.py:122-142 | the length of every month of every year |
| Cron.WeekdaysRun | app/bots/cron.py:101-103 | weekdays count from Monday, one for every day |
| Cron.OrdinalOrders | app/bots/cron.py:122-124 | day numbers order dates as their fields do |
| Cron.HorizonIsUnique | app/bots/cron.py:122-124 | the end of the search is one definite moment |
| Cron.JumpSkipsNothing | app/bots/cron.py:125-140 | no month, day, hour or minute jump passes over a matching minute |
| Cron.PlusDays | app/bots/cron.py:123 | adding days |
| Cron.NextFire | app/bots/cron.py:99-142 | the result is the least matching whole minute strictly after the start within 4 * 366 days; without one it is an error exactly when the horizon, or the last jump over it, runs off the end of the calendar, and none otherwise |
| Cron.SearchFrom | app/bots/cron.py:124-142 | the loop, from its first minute |
| Cron.LastJump | app/bots/cron.py:124-142 | the jump that leaves the horizon leaves the calendar exactly when December 9999, its last day, hour or minute is skipped |
| Cron.RecurringIsFound | app/bots/cron.py:116-142 | a schedule with a match in every kind of year is found from wherever the search starts |
| Cron.FoundExactly | app/bots/cron.py:99-142 | where the two day fields cannot veto each other, the search always finds a firing time if and only if the schedule matches every year |
| Cron.FoundByCycle | app/bots/cron.py:99-142 | for every schedule, the search finds a firing time wherever it starts, if and only if every day of one 400-year cycle is covered |
| Cron.CycleRepeats | app/bots/cron.py:99-106 | dates, day numbers and weekdays repeat every 400 years |
| Cron.MixedFieldsCanBeMissed | app/bots/cron.py:99-142 | where they can, a schedule matching five years on is given up on |
| Cron.LeapDayCanBeMissed | app/bots/cron.py:116-142 | a schedule for 29 February that does fire is given up on across 2100 |
| ReplyLimiter.RemembersStep | app/bots/engine.py:663-667 | the bounded table keeps, for the users it still holds, their last admission, and holds the most recent ones |
| ReplyLimiter.AdmissionIsSpaced | app/bots/engine.py:790-843 | an admission is a global gap after the last one and, for its user, a per-user gap or 1001 global gaps after any earlier one |
| ReplyLimiter.RunKeepsInv | app/bots/engine.py:790-843 | over every run the spacing and the memory of the table hold |
| ReplyLimiter.GlobalSpacing | app/bots/engine.py:799-812 | over every run and for every setting any two admissions are at least the global gap apart, none when it is switched off |
| ReplyLimiter.UserSpacing | app/bots/engine.py:663-667 | over every run two admissions of one user are the per-user gap apart whenever that gap is at most 1001 global gaps, despite eviction at 1000 users |
| ReplyLimiter.UserSpacingFails | app/bots/engine.py:663-667 | for every larger per-user gap, a run of 1002 calls in which a user is admitted too early |
| ReplyLimiter.UserSpacingBoundIsExact | app/bots/engine.py:790-843 | for every setting, all runs keep the per-user gap if and only if it is at most 1001 global gaps |
| ReplyHistory.EveryAnswerIsDecided | app/bots/engine.py:790-843 | over every run a call is admitted if and only if the global gap, the gap of its user, the cooldown of the bot or its queueing condition, and the per-user cooldown of the bot have each passed since the last such admission in the history, a user counting as forgotten after 1000 others; the delay is the rest of the cooldown; and a user joins the queue exactly when the call has to wait and may, even if it is then refused |
| ReplyHistory.BotUserSpacing | app/bots/engine.py:831-838 | over every run two admissions of one user by one bot are its per-user cooldown apart, unless it stamped at least 1000 other users in between |
| ReplyHistory.TableMirrors | app/bots/engine.py:831-838 | every bounded table holds, for exactly the users it still has, their last admission, and in its order the users admitted since |
| ReplyLimiterObject.Touch | app/bots/engine.py:663-667 | storing, moving to the end and popping from the front |
| ReplyLimiterObject.LoadedBot.Start | app/bots/engine.py:949-952 | a delayed run that begins leaves the queue |
| ReplyLimiterObject.BotEngine.AdmitRun | app/bots/engine.py:790-843 | the object answers and changes as specified, in every refusing and admitting branch; `EveryAnswerIsDecided` says what that is |
| HostClock.RunIsConsistent | app/host_clock.py:208-265 | over every run a stored unverified verdict is trusted exactly when no step is pending |
| HostClock.VerdictIs | app/host_clock.py:208-265 | over every run: which calls are served from the cache, and that these repeat the last verdict that was not; any other is verified exactly when a reference answers, and then trusted exactly when that offset is within its threshold |
| HostClock.QuarantineHolds | app/host_clock.py:208-265 | nothing but a reference or an uncached check after the hour ends the quarantine |
| HostClock.QuarantineOverRuns | app/host_clock.py:208-265 | from the call that notices a step, over every run without a reference, all verdicts are untrusted until the first uncached check an hour later, which is trusted and re-anchors; cached answers past the hour end within ten minutes |
| HostClock.Monitor.CheckHostClock | app/host_clock.py:208-265 | the module state changes as specified |
| ContactReconcile.PassNeverRegresses | app/radio_sync.py:1600-1795 | whatever the radio answers, a lock hold issues at most two commands and a changed view is strictly closer to the desired contacts |
| ContactReconcile.RemovalPays | app/radio_sync.py:1619-1672 | each successful removal brings the view one contact closer |
| ContactReconcile.AddingPays | app/radio_sync.py:1740-1769 | each successful addition does too, and listed contacts cost nothing |
| ContactReconcile.CooperativePass | app/radio_sync.py:1600-1769 | with commands succeeding every pass gets closer, by at least one contact per command |
| ContactReconcile.RemoveLoop | app/radio_sync.py:1619-1672 | the removal loop |
| ContactReconcile.AddLoop | app/radio_sync.py:1740-1795 | the addition loop |
| ContactReconcile.Reconcile | app/radio_sync.py:1568-1853 | with commands succeeding, whatever radio and library each pass meets, the loop ends with exactly the desired contacts, in no more passes and commands than contacts were out of place |
| ContactReconcile.RemovalStalls | app/radio_sync.py:1619-1672 | removing changes nothing if and only if every removal within the budget is refused |
| ContactReconcile.AdditionStalls | app/radio_sync.py:1740-1795 | adding changes nothing if and only if every addition within the budget is refused and no listed contact is reached |
| ContactReconcile.PassStallsExactly | app/radio_sync.py:1600-1795 | for every radio a pass changes nothing if and only if all commands it has budget for are refused |
| ContactReconcile.PassEndsFull | app/radio_sync.py:1741-1786 | a lock hold ends with the table full if and only if it reaches, with the budget the removals leave, a missing and unlisted contact whose addition says so |
| ContactReconcile.ThreeEnds | app/radio_sync.py:1568-1853 | with a radio that keeps its answers, after no more passes than contacts out of place the view is right, or the table is full and the loop stops, or every command is refused |
| ContactReconcile.StalledForGood | app/radio_sync.py:1568-1853 | in the third case no number of further passes changes the view |
| ContactReconcile.TwoStuckContactsStarveTheRest | app/radio_sync.py:1619-1672 | with two unwanted contacts a pass changes nothing, for good, if and only if the first two cannot be removed |
| ContactReconcile.TwoRefusedAdditionsStarveTheRest | app/radio_sync.py:1740-1795 | two wanted contacts the radio will not add stop the rest from being added |
| SplitText.SliceKeepsWholeCharacters | app/bots/api.py:645 | slicing the bytes and decoding leniently keeps exactly the characters that fit whole |
| SplitText.ChunksReassemble | app/bots/api.py:642-653 | the chunks with only white space between them are the text, and none is empty |
| SplitText.ChunksFit | app/bots/api.py:645-652 | every chunk fits the budget |
| SplitText.ChunkIs | app/bots/api.py:642-653 | where every chunk ends: after the most characters that fit whole, at least one; or, where more is to come and the last break among them is past half the budget, with the last ink before that break |
| SplitText.PartsFit | app/bots/api.py:628-655 | with a limit of at least 12 bytes and at most 99 parts every numbered part fits |
| SplitText.PartReads | app/bots/api.py:636-655 | the parts are the chunks in order, each behind its own number and then the number of parts, in decimal |
| SplitText.ChunkCount | app/bots/api.py:642-653 | every turn but the last uses up at least a given number of bytes, so the number of parts is bounded by the length of the text |
| SplitText.ShortTextsFit | app/bots/api.py:628-655 | with a limit of at least 12 bytes, a text of at most 99 such turns splits into at most 99 parts, and every part fits |
| SplitText.ManyPartsOverflow | app/bots/api.py:641-655 | for every limit and every number of parts from 100 on, a text splits into that many parts and one does not fit |
| SplitText.SmallBudgetOverflows | app/bots/api.py:641-655 | for every limit below 12 bytes a part does not fit |
| SplitText.TakeChunk | app/bots/api.py:645-651 | one chunk, never empty, cut at a late word break |
| SplitText.SplitLoop | app/bots/api.py:628-655 | the loop ends and computes the numbered parts |
| ContactRoute.FitIsStable | app/path_utils.py:205-218 | fitting path and hop count to each other twice is fitting once |
| ContactRoute.FitIsPrefix | app/path_utils.py:204-216 | a normalised path is always the beginning of the stored one, all of it or the hops counted; over whole hops the count is then that of the path |
| ContactRoute.ReadsLength | app/path_utils.py:190-203 | a length is a plain count, or a packed byte, signed or not, with the mode in its upper bits, or a flood |
| ContactRoute.NormalizeIsIdempotent | app/path_utils.py:167-218 | normalising twice is normalising once if and only if the input is not a reserved-mode byte over a path of whole hops, 64 or more, whose count is taken for a packed byte |
| ContactRoute.ShortPathsAreStable | app/path_utils.py:167-218 | so it is for every path of at most 63 bytes |
| ImageProtocol.FragmentsReassemble | app/image_protocol.py:149-165 | any list of an image's fragments, in any order and with repeats, gives the image if every fragment is there and nothing otherwise |
| ImageProtocol.ReassemblesExactly | app/image_protocol.py:161-165 | any packets whatever reassemble if and only if their indices are exactly those below the total |
| ImageProtocol.FragmentsEncode | app/image_protocol.py:149-158 | exactly the legal sizes fragment; every fragment encodes and their number satisfies the envelope |
| ImageProtocol.PacketReadsBack | app/image_protocol.py:93-107 | a packet parses back to itself, its session ID in lower case |
| ImageProtocol.ParsedPacketEncodes | app/image_protocol.py:93-107 | a parsed packet encodes to the payload it came from, except index 255, which parses and does not encode |
| ImageProtocol.HexReadsBack | app/image_protocol.py:32-35 | a session ID comes back from its bytes in lower case |
| ImageProtocol.Base36ReadsBack | app/image_protocol.py:21-29 | base 36 reads back, in no more digits than the value needs |
| ImageProtocol.Base36Loop | app/image_protocol.py:21-29 | the digit loop |
| ImageProtocol.FieldsReadBack | app/image_protocol.py:61-73 | splitting undoes joining |
| ImageProtocol.EnvelopeReadsBack | app/image_protocol.py:47-84 | an envelope parses back to itself, its session ID in lower case |
| ImageProtocol.EnvelopeIs | app/image_protocol.py:47-84 | exactly which envelopes are sent, with as many fragments as the size needs; and a received session is the number that was sent |

## Left out

- The float weights of the frequency blend and the JSON model file: the blend, the rescaled seeds and the matched order
  are arbitrary natural-valued functions of context and escape flag, and the results hold for all of them.
- MeshCodec.RoundTrip: where a text has U+0004, the vocabulary lists that symbol once.
- Vocabularies of more than 2^20 symbols, which cannot each have a positive frequency.
- Lone surrogates: Dafny characters are Unicode scalars, so Python strings holding surrogates are not modelled.
- MCOtxt: its codec is a parameter of the receiver, and sending with it is not modelled.
- Signed v3 bodies: verifying signatures is not modelled; reading skips the signature as the source does.
- ChannelRuns.RunStaysCoherent: a sync is one step, given a true reading of the radio; lock-free steps inside it stand
  just before it. Foreign writers to the radio, and reconnecting to another one, are not modelled.
- Channel names, upper-casing of keys, `select_resident_channels`, the periodic audit of resident channels, the sync
  path with residency switched off, and a change of slot reuse within a session.
- Cron expressions as text: the field parser, presets and validation.
- ReplyLimiter.GlobalSpacing: settings are constant over a run; per-bot cooldown spacing of start times is not claimed.
- Everything a bot does once admitted, but for a delayed run leaving the queue.
- HostClock: descriptions and rounded offsets in the status; querying SNTP and HTTP references.
- ContactReconcile.Reconcile: the auto-evict branch, busy and disconnect handling, a desired set that changes between
  passes, and stopping on a full table, which commands that succeed rule out; within one pass the radio and its library
  do not change their answers.
- `split_text_compressed`, whose fit needs compressed lengths to be monotone.
- ImageProtocol.EnvelopeReadsBack: reading base 36 is assumed only on strings of digits and lower-case letters; the
  fetch request and the voice protocol, which repeat the packet and envelope forms, are not modelled.
- Packet envelopes and path bytes (`parse_packet_envelope`, `decode_path_byte`), which would add only field decoding.
- Cryptography, repositories and SQL, the web application, feeds, translation, logging, locks and sleeps.
