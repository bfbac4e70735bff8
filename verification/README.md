# Databento C++ client: a verified model of the DBN codec, the symbol maps and the live and download protocols

This project models the parts of the Databento C++ client where bytes, state and
protocol meet, and proves what they promise.

* **Bytes in and out.** `Buffers.Buffer` is the growable byte queue under every
  decoder: an array with a read and a write cursor. `MetadataEncoding` writes
  DBN metadata frames, `MetadataReading` reads them with a moving cursor, and
  `MetadataDecoding` is the parse those cursors are proved against.
* **Streams.** `Frames` says what the records of a byte stream are.
  `StreamSpec.OneShot` says what reading a whole stream in one go does: which
  callbacks are made, and what is left over. The push decoder
  (`PushDecoding.DbnBufferDecoder`, fed chunk by chunk) and the pull decoder
  (`PullDecoding.DbnDecoder`, asked for one record at a time) are both proved to
  do exactly that, so how the input is cut up changes nothing; `PushPullAgreement`
  runs the two side by side. `FrameRoundTrip` and `StreamRoundTrip` close the
  circle with the encoder, also through a compressor and an upgrade, and `FrameRoom`
  says which frames a buffer can take. `FrameLayout` gives a frame's bytes by their
  offsets, and says what a reader refuses.
* **Version upgrades.** `RecordCompat` holds the record structs that changed
  between DBN versions 1, 2 and 3 and proves that the upgrade paths commute;
  `UpgradeMeaning` says field by field what an upgrade keeps.
* **Symbol maps.** `Calendar` is the Gregorian calendar; `SymbolMaps` builds the
  time-series and the point-in-time index and proves that the second is a slice
  of the first; `IndexMeaning` says in terms of the metadata alone what each holds
  and refuses. `DecimalText` writes and reads the numbers in symbols and prices.
* **Protocols.** `LiveSession` (records under timeouts, and that patience gets all
  of them), `Subscriptions` (chunks and ids across reconnects), `ProcessingThread`
  (the order of callbacks) and `Download` (a resumable download with a running
  hash).
* **Prices.** `Prices` prints fixed-point prices and reads them back.

Code that changes state step by step is a class or a method with loops here, as
it is there, and is proved against a function on values; the properties are
lemmas about those functions or invariants the methods keep. A callback is
represented by the list of what it was shown, so a record callback's decision to
go on may depend on everything it has seen; a source of bytes hands out any
non-empty piece it likes as long as it has bytes and is offered space.

Where code and documentation part, the model follows the code. Some properties
hold on part of their inputs only. Each is stated with the exact condition under
which it holds, and with inputs on which it does not:

* Metadata come back from their frame exactly when they are `Faithful`, have the
  symbol width of their version, and need at most a 32-bit frame length
  (`MetadataRoundTripExactly`, `TooLongFrameExists`); the declared length is exact
  under the last of these conditions (`DeclaredLengthExact`).
* A date survives exactly when it is spelled by its decimal digits
  (`DateRoundTrip`, `NegativeYearMoves`).
* Decoding a frame does not depend on the bytes behind it exactly when the frame
  does not count past its own end (`IndependentExactly`,
  `OverrunningFrameDependsOnWhatFollows`).
* A buffer has room for a frame behind the header exactly when the frame `Fits`
  (`ReserveFrame`, `FrameWithoutRoom`, `SizesWithoutRoom`).
* The two symbol indexes agree on a mapping exactly when its first covering
  interval hides nothing, and on a list of mappings exactly when nothing hidden is
  lost (`MappingSliceExactly`, `SlicesAgreeExactly`, `OverlapBreaksAgreement`).
* Joined symbols split back exactly for comma-free lists that do not start with an
  empty symbol before others (`JoinSplitExactly`, `LeadingEmptyLost`).
* Subscription ids keep growing exactly when each stored subscription found a new
  id, which they do when each reconnect is followed at once by a resubscription
  (`RunGrowsExactly`, `PairedRunsGrow`, `ReconnectAloneRepeats`).
* A download that ends with the whole content is verified except exactly when some
  attempts all broke off and yet brought all of it (`UnverifiedExactly`).
* A printed price reads back exactly when it is a multiple of the last digit shown
  (`PrintInvertsExactly`).

## Model

| member | source | states |
|---|---|---|
| Buffers.Buffer.Write | src/detail/buffer.cpp:15-21 | accepts the shorter of the data and the space left once consumed bytes are reclaimed, and appends exactly that prefix to the unread bytes |
| Buffers.Buffer.WriteAll | src/detail/buffer.cpp:26-34 | appends all the data, growing the array exactly to what is needed when it does not fit |
| Buffers.Buffer.ReadSome | src/detail/buffer.cpp:46-51 | takes bytes from the front; what was read followed by what is unread is what was unread |
| Buffers.Buffer.ReadExact | src/detail/buffer.cpp:36-44 | fails exactly when fewer bytes are unread than asked for, and then consumes nothing |
| Buffers.Buffer.Reserve | src/detail/buffer.cpp:59-70 | never shrinks, keeps the unread bytes, and moves them only when the total capacity was too small |
| Buffers.Buffer.Shift | src/detail/buffer.cpp:72-79 | moves the unread bytes to offset 0 of the same array without changing them, source and destination overlapping |
| Buffers.Buffer.ShiftForSpace | include/databento/detail/buffer.hpp:63-67 | loses nothing, and leaves the space asked for whenever the capacity has it |
| Buffers.Buffer.Fill | include/databento/detail/buffer.hpp:33-33 | appends the bytes already lying behind the write cursor |
| Buffers.Buffer.Consume | include/databento/detail/buffer.hpp:49-49 | drops bytes from the front of the unread bytes |
| Buffers.RunIsFifo | src/detail/buffer.cpp:15-79 | over any run of operations, bytes returned followed by bytes unread are the bytes first there followed by the bytes accepted; runs without `Write` accept everything offered |
| Buffers.Apply | src/detail/buffer.cpp:15-79 | each operation on the array refines its step on the abstract queue |
| Buffers.ApplyAll | src/detail/buffer.cpp:15-79 | any run on the array refines the run on the queue, so it is first in, first out |
| Metadatas.DateRoundTrip | src/dbn_encoder.cpp:44-49 | a date is decoded as it was encoded if and only if its month and day are below 100 and its year is not negative |
| Metadatas.NegativeYearMoves | src/dbn_encoder.cpp:44-49 | a negative year wraps to a number whose last four digits are never the month and day |
| Metadatas.DecodedDateParts | src/dbn_decoder.cpp:57-64 | decoding any 32-bit number gives a month and a day below 100 that spell its last four digits |
| Metadatas.FindNul | src/dbn_decoder.cpp:48-54 | the position found is the first NUL, or the length when there is none |
| MetadataEncoding.DeclaredLengthExact | src/dbn_encoder.cpp:84-168 | a frame is 8 bytes plus its declared length if and only if that length needs no more than 32 bits; padding is below 8; a version 3 frame is a multiple of 8 long; earlier versions are not padded |
| MetadataEncoding.EncodedLength | src/dbn_encoder.cpp:126-168 | the bytes written field by field add up to what the length calculation counts |
| MetadataEncoding.EncodeMetadata | src/dbn_encoder.cpp:84-135 | succeeds exactly when the version is known and every string is shorter than its width; then it has appended exactly the specified frame; otherwise it only ever appended |
| MetadataEncoding.EncodeFixedLenCStr | src/dbn_encoder.cpp:24-37 | refuses exactly the strings that leave no room for a NUL, writing nothing for them |
| MetadataEncoding.EncodeRepeatedSymbolCStr | src/dbn_encoder.cpp:51-59 | succeeds exactly when every symbol fits, having appended the specified list |
| MetadataEncoding.EncodeSymbolMappings | src/dbn_encoder.cpp:61-77 | succeeds exactly when every mapping fits, having appended the specified list |
| FrameLayout.FixedLayout | src/dbn_encoder.cpp:84-124 | the bytes of a frame by offset: DBN, version, length, dataset, schema or FFFF, start, end, limit, symbologies or FF, timestamp flag, symbol width, zeros, and the empty schema definition that ends at 112 |
| FrameLayout.OldRecordCount | src/dbn_encoder.cpp:106-109 | in a version 1 frame the 8 bytes from 50 on are FF |
| FrameLayout.ListsLayout | src/dbn_encoder.cpp:126-134 | behind it the symbols, the partial and the unresolved symbols and the mappings, each behind its count, then the padding |
| FrameLayout.ItemAt | src/dbn_encoder.cpp:51-59 | item k of a list of strings lies k widths behind its start, filled up with zeros |
| FrameLayout.DateSpelled | src/dbn_encoder.cpp:44-49 | the decimal digits of an encoded date are those of the year, two of the month and two of the day |
| MetadataDecoding.ExtensionStable | src/dbn_decoder.cpp:107-165 | a frame that does not run past its end parses to the same value or error whatever follows it, and leaves exactly what follows |
| MetadataDecoding.IndependentExactly | src/dbn_decoder.cpp:107-165 | decoding gives the same whatever follows the frame if and only if the frame does not count past its own end: any frame that does is changed by enough bytes behind it |
| MetadataDecoding.MappingListReach | src/dbn_decoder.cpp:378-426 | for any list of mappings there are bytes that, put behind it, leave no count reaching past the end |
| MetadataReading.DecodeSymbol | src/dbn_decoder.cpp:45-55 | moves the cursor by the width and agrees with the parse, including the missing-NUL error |
| MetadataReading.DecodeRepeatedSymbol | src/dbn_decoder.cpp:360-376 | the cursor never passes the end of the buffer; result and cursor agree with the parse on every input |
| MetadataReading.DecodeSymbolMapping | src/dbn_decoder.cpp:394-426 | the same for a mapping with its intervals |
| MetadataReading.DecodeSymbolMappings | src/dbn_decoder.cpp:378-392 | the same for the list of mappings, whose count is not bounded by the buffer |
| MetadataReading.DecodeFixedFields | src/dbn_decoder.cpp:110-154 | the unchecked reads stay inside any buffer of 104 bytes and agree with the parse, each version with its own layout |
| MetadataReading.DecodeMetadataFields | src/dbn_decoder.cpp:107-165 | the cursor-moving decoder returns what the parse gives, for every buffer of at least 104 bytes |
| FrameLayout.HeaderRefusedExactly | src/dbn_decoder.cpp:90-105 | a header is refused exactly for a prefix other than DBN or a length below 100; otherwise it gives version and length |
| FrameLayout.StreamRefusedExactly | src/dbn_decoder.cpp:167-183 | the front of a stream: too short a header or frame is the end of the input, otherwise the header is refused as above |
| FrameLayout.FieldsRefusedExactly | src/dbn_decoder.cpp:107-154 | fields are refused as newer exactly from version 4 on, and for a schema definition exactly when its length is not 0, the version is known and the dataset is terminated |
| MetadataRoundTrip.FrameBack | src/dbn_decoder.cpp:107-165 | decoding an encoded frame gives its normal form (dates through the wire, strings cut at NUL, sentinels as absent) and leaves only the padding and what follows |
| MetadataRoundTrip.FrameHeader | src/dbn_decoder.cpp:90-105 | the encoded prelude decodes to the written version and declared length |
| MetadataRoundTrip.NormalizeIdentity | src/dbn_encoder.cpp:84-135 | metadata equals its normal form if and only if it has a version the decoder knows, no sentinel value, no NUL in a string and only dates that fit |
| MetadataRoundTrip.BodyRoundTrip | src/dbn_encoder.cpp:97-134 | given the whole body and anything behind it, decoding returns the metadata if and only if they are faithful and their counts and symbol width fit their fields |
| FrameRoundTrip.MetadataRoundTripExactly | src/dbn_encoder.cpp:84-168 | for everything the encoder accepts and anything behind the frame: a reader that cuts the frame at its declared length gets the metadata back if and only if they are faithful, have the symbol width of their version, and the frame fits a 32-bit length |
| FrameRoundTrip.CutFrameTruncated | src/dbn_decoder.cpp:177-181 | a frame whose length was truncated to 32 bits runs into its cut |
| FrameRoundTrip.TooLongFrameFails | src/dbn_encoder.cpp:159-167 | metadata that meet every other condition fail to decode when their frame is too long for the length field |
| FrameRoundTrip.TooLongFrameExists | src/dbn_encoder.cpp:159-167 | there are such metadata: 65538 empty symbols of width 65535 |
| FrameRoundTrip.LengthBoundsCounts | src/dbn_encoder.cpp:143-168 | every count of a frame that fits a 32-bit length fits 32 bits |
| MetadataRoundTrip.DecodedFrameFits | src/dbn_decoder.cpp:107-165 | whatever is decoded has counts and a symbol width that can be encoded |
| MetadataRoundTrip.OverrunningFrameDependsOnWhatFollows | src/dbn_decoder.cpp:360-376 | a concrete frame that fails by itself and parses when zero bytes follow it |
| RecordCompat.UpgradePathsMeet | src/dbn_decoder.cpp:192-275 | for every record of a version 1 stream, with or without a send timestamp: upgrading to 2 and then to 3 is upgrading to 3 |
| RecordCompat.DefPathsMeet | src/v1.cpp:17-187 | instrument definitions reach version 3 alike through version 2 and directly |
| RecordCompat.UpgradeConforms | src/dbn_decoder.cpp:192-288 | an upgraded record has the shape of the target version, a header that states its true size, its old timestamp, and fits the compat buffer; it is unchanged when no upgrade is needed |
| RecordCompat.ErrorCodeMeaning | src/v1.cpp:214-234 | each error code is given to exactly the messages with its text, the order of the tests notwithstanding |
| RecordCompat.SystemCodeMeaning | src/v1.cpp:267-293 | each system code is given to exactly the messages with its beginning and ending |
| RecordCompat.UpgradeKeepsMeaning | src/v1.cpp:189-204 | widening an array keeps the C string in it; a quantity is undefined after the upgrade exactly when it was before |
| UpgradeMeaning.UpgradeKeepsRecord | src/v1.cpp:17-295 | for every conforming record, version and policy: publisher, instrument, event time, every timestamp, price and number of the upgraded record are those of the field of the same name, every text is the same C string, an undefined quantity becomes the 64-bit undefined one, new leg fields are empty, and the send timestamp stays |
| UpgradeMeaning.ErrorCodeHere | src/v1.cpp:206-236 | an upgraded error has the code that its terminated text calls for, and no code if the text is not terminated |
| UpgradeMeaning.SystemCodeHere | src/v1.cpp:260-295 | the same for a system message |
| UpgradeMeaning.UpgradeCountsSize | src/dbn_decoder.cpp:192-288 | upgraded or not, a record has the type number of its struct, and its header counts that struct's size in bytes and 8 more for a send timestamp |
| UpgradeMeaning.MetadataMatchRecords | src/dbn.cpp:18-26 | upgraded metadata state the version the upgraded records have, the larger of the stream's and the policy's; the symbol width is 71 whenever the version moved; nothing else changes, and nothing at all exactly when no upgrade is needed |
| Frames.ParseIsSplit | src/detail/dbn_buffer_decoder.cpp:53-68 | the records of a stream followed by the tail are the stream, each record has the size it states, and the tail holds no whole record |
| Frames.ParseUnique | src/dbn_decoder.cpp:291-316 | there is no other way to cut a stream into such records and such a tail |
| Frames.ParseAppend | src/detail/dbn_buffer_decoder.cpp:53-68 | parsing starts afresh behind any number of whole records |
| Frames.ParseExtend | src/detail/dbn_buffer_decoder.cpp:53-68 | parsing a stream that grew continues from the old tail |
| Frames.WordsCounted | src/detail/dbn_buffer_decoder.cpp:53-68 | a byte n followed by 4n - 1 others is the first record of any stream that begins so |
| Frames.DeliverAppend | src/detail/dbn_buffer_decoder.cpp:64-66 | delivering two batches is delivering them one after the other unless the first was stopped |
| StreamSpec.MetadataFirst | src/detail/dbn_buffer_decoder.cpp:34-51 | the metadata callback is made once, before any record callback, and nothing else is |
| StreamSpec.EndStable | src/detail/dbn_buffer_decoder.cpp:64-66 | bytes that arrive after a stop or a failure change nothing |
| StreamSpec.AdmissiblePrefix | src/detail/dbn_buffer_decoder.cpp:10-72 | the streams that can be read in pieces have only prefixes that can |
| PushDecoding.DbnBufferDecoder.Process | src/detail/dbn_buffer_decoder.cpp:10-72 | after any chunks, the callbacks so far, the outcome and the unread bytes are those of reading everything fed so far in one go; with even record sizes, every record lay at an offset divisible by 8 |
| PushDecoding.DbnBufferDecoder.SettledHasSpace | src/detail/dbn_buffer_decoder.cpp:13-19 | progress: in every state the decoder waits in there is space to read into |
| PushDecoding.DbnBufferDecoder.Refill | src/detail/dbn_buffer_decoder.cpp:13-19 | a read gives nothing if and only if the source has nothing |
| PushDecoding.DbnBufferDecoder.ReadHeader | src/detail/dbn_buffer_decoder.cpp:21-33 | leaves the decoder consistent with what it consumed, or fails as a one-shot read fails |
| PushDecoding.DbnBufferDecoder.ReadMetadata | src/detail/dbn_buffer_decoder.cpp:34-51 | decodes the metadata although more than the frame may lie in the buffer, as a one-shot read of the exact frame does |
| PushDecoding.DbnBufferDecoder.ReadRecord | src/detail/dbn_buffer_decoder.cpp:54-67 | shows the callback one record, upgraded or not, and stops with exactly the callbacks of a one-shot read |
| PushDecoding.DbnBufferDecoder.ReadRecords | src/detail/dbn_buffer_decoder.cpp:52-69 | goes on until no whole record is left or the callback stops |
| PushDecoding.TimeseriesGetRange | src/historical.cpp:999-1021 | chunk independence of the whole request: callbacks, outcome and the partial-record warning depend only on the body, not on how it was cut |
| PullDecoding.DbnDecoder.DetectCompression | src/dbn_decoder.cpp:330-352 | with any decompressor, finds the DBN stream in plain or compressed input, or the error that the law below says, and loses none of its bytes |
| PullDecoding.OpenedExactly | src/dbn_decoder.cpp:79-88 | by the bytes of the input: plain if it starts with DBN; if with 28 B5 2F FD, what the decompressor makes of it, which must start with DBN; otherwise the legacy error or the unknown-input error; fewer than 4 bytes are refused |
| PullDecoding.SkippableIsLegacy | src/dbn_decoder.cpp:341-349 | every input whose first bytes are those of a skippable frame, 50 to 5F then 2A 4D 18, is refused as legacy |
| PullDecoding.DbnDecoder.DecodeMetadata | src/dbn_decoder.cpp:167-189 | gives the metadata of the remaining stream or its error, and leaves exactly what follows the frame, at offset 0 |
| FrameRoom.ReserveFrame | src/dbn_decoder.cpp:174-179 | after the call of `Reserve` between header and frame there is room for the frame if and only if it fitted behind the write cursor, or exceeded the capacity with nothing left unread |
| FrameRoom.FrameWithoutRoom | src/dbn_decoder.cpp:174-179 | metadata that survive the round trip and whose padded frame has no room in a new buffer |
| FrameRoom.SizesWithoutRoom | src/live_blocking.cpp:176-183 | a new buffer lacks room exactly for frames of 65529 to 65536 bytes; bytes left over from before take it from all longer frames too |
| PullDecoding.DbnDecoder.FillBuffer | src/dbn_decoder.cpp:318-324 | with less than a full buffer unread, nothing is read if and only if the input is at its end; the remaining stream is unchanged |
| PullDecoding.DbnDecoder.DecodeRecord | src/dbn_decoder.cpp:291-316 | returns the first record of the remaining stream if and only if there is a whole one; warns exactly about a partial one; says where in the buffer the record lay, and keeps records of even sizes at offsets divisible by 8 |
| PullDecoding.DbnDecoder.AwaitRecord | src/dbn_decoder.cpp:292-308 | reads until the whole next record is buffered; gives up exactly when the rest of the stream holds no whole record, with a warning exactly if it holds anything |
| PullDecoding.Replay | src/dbn_store.cpp:23-35 | makes the callbacks of a one-shot read of the same bytes for any pattern of short reads, hence those of the push decoder; with even record sizes, every record lay at an offset divisible by 8 |
| PushPullAgreement.ReadBothWays | src/detail/dbn_buffer_decoder.cpp:10-72 | for any chunks and any short reads, the push request and the pull replay of the same bytes make the same callbacks, metadata errors included, and end alike, except that the one waits where the other fails when the stream ends before its metadata |
| StreamRoundTrip.EncodeRecord | src/dbn_encoder.cpp:137-139 | writes exactly the bytes the record's header counts |
| StreamRoundTrip.WrittenStreamReads | src/dbn_encoder.cpp:84-141 | reading any written stream and any tail, under any policy and callback, gives the normalized metadata, the written records up to the first stop, and the tail |
| StreamRoundTrip.WholeStreamRoundTrip | src/dbn_encoder.cpp:84-141 | reading a written stream as it is gives the same metadata, the same records in order, and nothing left over |
| StreamRoundTrip.UpgradedStreamRoundTrip | src/dbn_decoder.cpp:167-189 | under any policy: the metadata come back at the larger of the two versions, with width 71 if that moved them, and then each record in order, upgraded exactly in that case, and nothing is left over |
| StreamRoundTrip.WriteStream | src/dbn_encoder.cpp:84-141 | writing a frame and its records gives the bytes of the specified stream |
| StreamRoundTrip.WriteThenReplay | src/dbn_store.cpp:23-35 | the same end to end: encoder, sink, compression detection, decoder and replay loop |
| StreamRoundTrip.CompressThenReplay | src/dbn_decoder.cpp:79-88 | the same through any compressor whose output starts with 28 B5 2F FD and is undone by the decompressor |
| Sources.ByteSource.ReadSome | include/databento/ireadable.hpp:27-29 | hands out some prefix of what remains; nothing only at the end of the stream or when offered no space |
| Sources.ByteSource.ReadExact | src/detail/zstd_stream.cpp:29-41 | any pattern of short reads adds up to exactly the bytes asked for, or the stream ends before |
| Sources.ReadExactInto | include/databento/ireadable.hpp:25-26 | appends exactly the bytes asked for to the unread bytes, or fails for want of them |
| Calendar.YearLength | src/symbol_map.cpp:71-73 | consecutive years start 366 days apart if and only if the first is a leap year |
| Calendar.MonthLength | src/symbol_map.cpp:71-73 | consecutive months start as many days apart as the first has: 31 and 30 in turn, over again from August, and 28 or 29 for February |
| Calendar.LeapYears | src/symbol_map.cpp:71-73 | every fourth year is a leap year, but of the hundredth years every fourth |
| Calendar.OrdersAgree | src/symbol_map.cpp:63-71 | comparing valid dates field by field is comparing their serial days, and no two share a day |
| Calendar.FromDayInverse | src/symbol_map.cpp:72-72 | every serial day is the day of a valid date |
| Calendar.DayRoundTrip | src/symbol_map.cpp:72-72 | a valid date is recovered from its serial day |
| SymbolMaps.TsSymbolMap.Insert | src/symbol_map.cpp:60-74 | fails exactly when the end lies before the start field by field; adds exactly the valid dates between the serial days of the ends for that instrument, also when the ends are days that their months do not have; never overwrites an entry |
| SymbolMaps.TsSymbolMap.Add | src/symbol_map.cpp:60-74 | insertion keeps the index equal to a linear search over the inserted intervals |
| SymbolMaps.TsSymbolMap.Load | src/symbol_map.cpp:32-58 | the finished index holds for every valid date and instrument what a linear search over all intervals in order finds, and nothing else; errors are those of the first bad mapping |
| DecimalText.StoulReads | src/symbol_map.cpp:39-39 | the decimal text of any number, behind any blanks and a sign and before anything but a digit, is read as that number, counted down from 2^64 behind a minus sign, and refused if it needs more than 64 bits |
| DecimalText.StoulRefuses | src/symbol_map.cpp:39-39 | a text without a digit where the number should start is refused |
| SymbolMaps.ParseIdReads | src/symbol_map.cpp:39-52 | every 32-bit instrument ID is read back from its decimal text, with blanks and a plus sign before it and any text but a digit behind it |
| SymbolMaps.ParseIdRefuses | src/symbol_map.cpp:39-52 | a symbol without a number at its start is refused as an instrument ID |
| IndexMeaning.IndexableExactly | src/symbol_map.cpp:15-29 | metadata can be indexed exactly when one symbology is the instrument ID, and the raw symbols are the IDs exactly when it is the input symbology |
| IndexMeaning.IndexMeans | src/symbol_map.cpp:32-58 | for each date and instrument, the search finds a name exactly when some interval with a symbol covers the date and gives the instrument a name, and then the name that the first such interval gives |
| IndexMeaning.IndexRefusedExactly | src/symbol_map.cpp:32-66 | the time-series index is refused exactly when a mapping has a text that is no number where an ID should be, or an interval that ends before it starts, and the error is one of these |
| SymbolMaps.FindInterval | src/symbol_map.cpp:87-91 | finds the first interval covering the date |
| SymbolMaps.PitSymbolMap.Load | src/symbol_map.cpp:78-104 | holds for each instrument the name of the first mapping that gives it one at the date; refuses dates outside the range |
| SymbolMaps.InRangeExactly | src/symbol_map.cpp:78-84 | a date is in range exactly when its day and the half-open queried range have an instant in common |
| IndexMeaning.SliceMeans | src/symbol_map.cpp:85-103 | the point-in-time lookup finds a name exactly when the first interval of some mapping to cover the date has a symbol and names the instrument, and then the name the first such mapping gives |
| IndexMeaning.SliceRefusedExactly | src/symbol_map.cpp:85-103 | the point-in-time index is refused exactly when the text that should be the ID of a shown interval is no number |
| SymbolMaps.PitSymbolMap.OnRecord | src/symbol_map.cpp:106-125 | a symbol mapping record replaces the instrument's name and no other; other records change nothing |
| SymbolMaps.PitSymbolMap.OnRecords | src/symbol_map.cpp:106-125 | after any records an instrument has the name its last mapping record gave, or else the one it had |
| SymbolMaps.CoverageAgrees | src/symbol_map.cpp:71-91 | the two indexes' notions of an interval covering a date are one |
| SymbolMaps.MappingSliceExactly | src/symbol_map.cpp:46-95 | within one mapping, the search over all intervals and the first covering interval name every instrument alike if and only if, when any covering interval has a symbol, the first has one too and names the same instrument |
| SymbolMaps.DisjointHidesNothing | src/symbol_map.cpp:87-95 | intervals of which no two cover the date meet that condition |
| SymbolMaps.SlicesAgreeExactly | src/symbol_map.cpp:32-104 | for any mappings with valid dates: the point-in-time index can be built whenever the time-series index can, and names an instrument as that index does at the date if and only if what a mapping hides of it is shown by a later mapping under the same name |
| SymbolMaps.SlicesAgree | src/symbol_map.cpp:32-104 | when no mapping hides anything, the point-in-time lookup is the time-series search at that date, for every instrument |
| SymbolMaps.IndexesAgree | src/symbol_map.cpp:32-104 | the same of the two built objects |
| SymbolMaps.OverlapBreaksAgreement | src/symbol_map.cpp:87-95 | concrete overlapping intervals on which the two indexes differ |
| LiveSession.Connection.ReadSome | include/databento/ireadable.hpp:30-35 | reports a timeout exactly when no data came in time, data exactly when bytes were read, and closed only at the end or without space |
| LiveSession.LiveBlocking.Start | src/live_blocking.cpp:171-194 | returns the metadata of the stream, or exactly the error the header, the fields or the end of the connection call for; a successful start loses no byte behind the frame, whatever was buffered before |
| LiveSession.StartedFresh | src/live_blocking.cpp:176-183 | with nothing buffered before, a start reads what any reader of the stream reads |
| LiveSession.StartedExactly | src/live_blocking.cpp:176-183 | a start fails for want of bytes exactly when the connection itself has too few, and otherwise reads what any reader of the stream reads |
| LiveSession.LiveBlocking.FillBuffer | src/live_blocking.cpp:491-501 | a read adds what came behind the unread bytes; a timeout changes nothing |
| LiveSession.LiveBlocking.AwaitData | src/live_blocking.cpp:222-231 | a read brings at least a byte, or the call times out with nothing lost, or the connection is at its end |
| LiveSession.LiveBlocking.NextRecord | src/live_blocking.cpp:209-233 | returns the next record of the stream, without waiting if it is buffered, unless a wait saw no data, each earlier wait having brought a byte, or the stream ends before the record is complete; otherwise nothing is lost |
| LiveSession.LiveBlocking.TryNextRecord | src/live_blocking.cpp:235-243 | returns a record if and only if a header and the whole record are buffered, and never reads |
| LiveSession.LiveBlocking.ConsumeBufferedRecord | src/live_blocking.cpp:503-509 | takes the first buffered record and upgrades it |
| LiveSession.RunSession | src/live_blocking.cpp:209-243 | for any interleaving of calls, timeouts and partial reads: the records delivered are in order the first records of the bytes received; each call whose waits all see data returns a record or reports the end; and once the end is reported every record of the stream has been delivered, if none is shorter than a header |
| LiveSession.NothingLeft | src/live_blocking.cpp:210-231 | a session at its end without a whole record buffered has handed out all records of the stream |
| Subscriptions.JoinSplitExactly | src/symbology.cpp:36-46 | splitting at commas undoes joining if and only if no symbol has a comma and the list does not start with an empty symbol before others |
| Subscriptions.LeadingEmptyLost | src/symbology.cpp:42-45 | an empty symbol before others leaves no trace in the joined text |
| Subscriptions.ChunksComplete | src/live_blocking.cpp:137-169 | the messages of a request split back to all its symbols in order, each has 1 to 500, and only the last is marked last |
| Subscriptions.RequestAsks | src/live_blocking.cpp:94-135 | a request asks for the schema and symbology given; it has no start exactly for none and for a snapshot, the text for a text, and a decimal numeral that reads back as the nanoseconds for a time; it asks for a snapshot exactly for a snapshot |
| Subscriptions.Subscriber.Send | src/live_blocking.cpp:137-169 | writes exactly those messages, and none for an empty list, which it refuses |
| Subscriptions.Subscriber.IncrementSubCounter | src/live_blocking.cpp:478-485 | adds one, up to the largest 32-bit number |
| Subscriptions.Subscriber.Subscribe | src/live_blocking.cpp:94-135 | every message sent asks for what the caller asked for: schema, symbology, start, snapshot and the new id; the subscription is stored under the advanced counter only when it was sent; stored ids go on growing if and only if none reaches the new one or the counter is exhausted |
| Subscriptions.Subscriber.Resubscribe | src/live_blocking.cpp:261-275 | resends every subscription in order under the running maximum of the ids, without its start |
| Subscriptions.ResentCompletely | src/live_blocking.cpp:261-275 | subscriptions resent under their own ids ask, message by message, for the schema, symbology and snapshot of a stored subscription but never for a start time, and for all their symbols in order, if these are sendable |
| Subscriptions.IdsReused | src/live_blocking.cpp:261-275 | with growing ids not below the counter, every subscription is resent under its own id |
| Subscriptions.Subscriber.ReconnectAndResubscribe | src/live_blocking.cpp:247-275 | a reconnect followed by a resubscription reuses all stored ids, forgets all start times, and leaves a counter from which ids go on growing |
| Subscriptions.RunGrowsExactly | src/live_blocking.cpp:94-275 | over any run of subscriptions, reconnects and resubscriptions the stored ids are strictly increasing until the counter is exhausted if and only if each stored subscription found no stored id as high as its own |
| Subscriptions.PairedRunsGrow | src/live_blocking.cpp:247-275 | they are in every run in which each reconnect is followed at once by a resubscription |
| Subscriptions.ReconnectAloneRepeats | src/live_blocking.cpp:247-259 | subscribe, reconnect, subscribe: both subscriptions get the id 1 |
| Subscriptions.RunSession | src/live_blocking.cpp:94-275 | any run of the client changes counter and ids as the model of those lemmas says, and never the id or symbols of a stored subscription |
| ProcessingThread.LiveThread.Run | src/live_threaded.cpp:195-247 | the trace is exactly what the answers of the environment to the turns taken amount to, turn by turn, and it is allowed; the thread takes every turn until the owner asks it to end, unless it ends by itself, notified exactly if from inside the record loop |
| ProcessingThread.LiveThread.StartTurn | src/live_threaded.cpp:209-223 | one turn of the outer loop makes the events its answers amount to and leaves the thread in the record loop, at the loop head, or ended without notification |
| ProcessingThread.LiveThread.RecordTurn | src/live_threaded.cpp:225-245 | one turn of the record loop does so and leaves the thread in it, at the outer loop head, or ended and notified |
| ProcessingThread.LiveThread.RecordLoop | src/live_threaded.cpp:225-245 | leaves only by a notified stop, by restarting, or by the owner's request |
| ProcessingThread.LiveThread.ExceptionHandler | src/live_threaded.cpp:249-265 | restarts exactly when there is a callback that asks for it; otherwise the session is stopped |
| ProcessingThread.LiveThread.NotifyOfStop | src/live_threaded.cpp:24-28 | the last callback result becomes Stop as the last event |
| ProcessingThread.RecordsOnlyInSession | src/live_threaded.cpp:209-246 | in every allowed trace, a record callback has a successful start before it with only uneventful reads, accepted records and the metadata callback in between |
| ProcessingThread.NoCallbackAfterStop | src/live_threaded.cpp:225-265 | after a record or exception callback asked to stop, all that can follow is stopping the session and notifying, in this order |
| ProcessingThread.UndisturbedTrace | src/live_threaded.cpp:209-245 | a session that starts well and is neither stopped nor failed shows the metadata once if asked to, then for each turn in order the record callback for a record and nothing for a timeout |
| Download.Downloader.CheckIfFileExists | src/historical.cpp:130-171 | compares the sizes; afterwards a fresh hasher has absorbed exactly the file to be resumed, and nothing in any other case |
| Download.Downloader.GetRawStream | src/historical.cpp:472-482 | however the body is cut up or broken off, file and hash hold the same prefix of the remote content, all of it if the request completes |
| Download.Downloader.TryOnce | src/historical.cpp:457-505 | fetches exactly what is missing unless the file shows that nothing is or too much is there; a try that breaks off leaves the first bytes of the content, as many as were there and its pieces bring |
| Download.Downloader.DownloadFile | src/historical.cpp:454-506 | over any failed and resumed attempts the file stays a prefix of the remote content and never shrinks; on completion the file and the verified hash input are the whole content; giving up takes 5 attempts and leaves what all their pieces brought; the outcome is the one the sizes predict |
| Download.UnverifiedExactly | src/historical.cpp:456-505 | a download of the expected size ends complete but unverified if and only if the file was complete to begin with or fewer than five attempts all broke off and yet brought what was missing |
| Download.BrokenOffTries | src/historical.cpp:457-482 | attempts that all break off leave the file as long as the sum of all their pieces makes it, up to the whole content |
| Prices.PrintTruncates | src/pretty.cpp:18-40 | the printed price reads back as the price truncated toward zero; precisions 0 to 5 show as many decimals, all others nine |
| Prices.TruncatedIsNearest | src/pretty.cpp:35-37 | the truncation is the multiple of the last digit shown that lies nearest on the side of zero |
| Prices.PrintInvertsExactly | src/pretty.cpp:11-41 | a price survives printing if and only if it is a multiple of the last digit shown; every price does in the default precision |
| Prices.UndefinedPriceReads | src/pretty.cpp:14-17 | the undefined price prints to a text of its own that reads back |

## Left out

- libzstd, OpenSSL, sockets, polling, files, HTTP and JSON are abstract: a source or a connection yields its bytes in arbitrary pieces, a sink takes them, a hasher is the bytes it absorbed, a decompressor is a function.
- PushDecoding.DbnBufferDecoder.Process: a chunk stands for the bytes it decompresses to, because the decompressor's own buffering is libzstd's.
- StreamSpec.OneShot: the record upgrade on bytes is a parameter of the stream modules; what the upgrade does to each struct is RecordCompat's. The memory layout of record structs beyond their sizes and their reserved bytes are not modelled.
- StreamSpec.Admissible: the streams readers are proved on have a frame of at least 104 bytes (the schema definition length is read unchecked behind the 100 fixed bytes), a frame that does not count past its own end (OverrunningFrameDependsOnWhatFollows shows why), and no record of length 0 (no reader steps over one).
- PullDecoding.DbnDecoder.DecodeMetadata: what happens when a frame without room is read past the end of the array is not modelled; decoding requires that the frame fits, and FrameRoom says exactly which do.
- LiveSession.LiveBlocking.Start: the same for the live client.
- LiveSession.LiveBlocking.NextRecord: the clock is a parameter that says whether data comes in time and whether the heartbeat deadline has passed; the overload without a timeout, a loop around this one, is not modelled.
- LiveSession.LiveBlocking: its record path and its subscriptions are two classes here, LiveBlocking and Subscriptions.Subscriber; they share only the buffer that `Reconnect` clears.
- Subscriptions.Subscriber.Subscribe: a start given as an empty text is the call without a start; it is modelled as NoStart only.
- Subscriptions.Message: messages are values with the fields of the text; the text around the symbols is not modelled.
- SymbolMaps.TsSymbolMap.Load: the months of interval ends are months; what date.h makes of other months is unspecified, and date.h is not part of the repository. The lemmas that compare the two indexes are about valid dates.
- Metadatas.DecodeDate: the year is stored as a signed 16-bit number, as date.h does, which is not part of the repository.
- MetadataEncoding.EncodeMetadata: metadata of version 0 is written as version 1, so it does not come back as it was; Faithful excludes it.
- Download.Downloader.DownloadFile: that the existing file is a prefix of the remote content is assumed of the caller's directory; a hash that does not match is a warning in a log, so verification is modelled as what the hasher has absorbed.
- ProcessingThread.LiveThread.Run: an infinite run is modelled by all its finite beginnings; a session that fails to start and is not restarted ends the thread without a notification, as in the source. Destruction of the owner and the waiting side are not modelled.
- Prices.Print: the smallest 64-bit value, whose negation overflows, and negative stream precisions, which index past the divisor table, are not prices or precisions here.
- Authentication (challenge, response parsing, gateway names, connection retries), `SymbologyResolution::CreateSymbolMap` over an unordered map, enum and publisher tables, equality operators, stream output of objects, builders, URL parameters, log texts and time-of-day formatting: they would add only easy members, or depend on foreign code.
