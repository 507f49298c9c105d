# Verified models of the ZeroDDS endpoint protocols and codecs

Dafny models of four parts of ZeroDDS, with machine-checked proofs about them. `dafny verify dfyconfig.toml`
checks the whole project.

**The reliable XRCE stream** (sections 8.4.10 and 8.4.11 of DDS-XRCE 1.0). `ReliableEndpoints` has the sender and the
receiver as classes that change their fields in place. `ReliableStream` puts the two at the ends of a network that
keeps every frame ever sent, so a frame can be lost, repeated, delayed and overtaken at will, and lets the steps of
the drain loop happen in any order. `UnboundedStream` is the same machine with sequence numbers that never wrap.
`ReliableStream` and `StreamRealization` connect the two both ways: every run of the 16-bit machine, octet frames
included, is a run of the unbounded one, and every run of the unbounded one whose frames are fresh is a run of the
16-bit machine. The only assumption is that a frame is processed before its own number is 2^15 behind the numbers
submitted (2^15 - 15 where a HEARTBEAT is used as a hint, because the fifteen slots above the base are compared with
it too). On that base: delivery in order and at most once, the receiver never refusing a sample, conservation of
submitted samples, what an ACKNACK hint can lose, and progress (`ReliableProgress`), all of the 16-bit machine.

**IEEE binary128** (`runtime/go/float128.go`), all in integers. `Value(b)` is what a pattern means in units of the
smallest subnormal. `DecimalGrammar` tells which texts are decimals and what they mean. Parsing is compared with the
nearest pattern under that meaning (section 4.3.1 of IEEE 754-2008), and printing with parsing. `Binary128Layout` ties
patterns to numbers field by field, and `Binary128Printing` says which text is printed.

**The XCDR writer and reader** (sections 7.4.1, 7.4.1.2 and 7.4.3.4.2 of DDS-XTypes 1.3). `XcdrValue` tells the
encoding of a value directly: every length is known before it is written and no octet is touched twice.
`XcdrWriter` is the writer that patches, inserts and removes, and `XcdrEncode` proves that it writes the direct
encoding. `XcdrReader` is the reader; `XcdrDecode` reads a value by its type, the way a generated decoder calls the
reader: headerless members in order, members behind a header by their id, an unknown member skipped by its length.
`XcdrRoundTrip` proves that this inverts encoding. A round trip leaves open where a writer and its reader put things, as
long as they agree; `XcdrAlignment`, `XcdrHeaders` and `XcdrCounted` state it octet by octet. `XcdrSizes` and
`XcdrTyped` say which values are written and come back, to a reader of the same type and of an older one. The packed
decimal `fixed` and the wide strings are round trips of their own, with their layouts in `FixedLayout` and
`WstringLayout`.

**Serial framing** (Annex C.1.1 of DDS-XRCE 1.0, FCS-16 of Appendix C.2 of RFC 1662), with its layout in
`SerialLayout`.

Where the code and its own description differ, the model follows the code:

- `float128.go` says a value is rounded once. A result in the subnormal range is rounded twice. `NearestExactly`
  states for which fractions the result is still the nearest pattern, and `DecimalMisread` gives a decimal text for
  which it is not.
- The payload cap of `Submit` is 65535 octets, but a frame also carries a base of four, so a payload above 65531
  has no frame. Safety does not depend on it. `LossFreeRoundDelivers` and `UnsendableStopsDelivery` say what it does to
  progress, and `OversizeSampleWedges` gives the input.
- An ACKNACK built under a hint leaves the slots above the hint clear, and a clear slot is taken as acknowledged.
  `HintedAckConserves` states exactly when a sample is lost by that, and `HintLosesFrame` is a run of the 16-bit
  machine that loses one.
- `shortenEmheader` is documented as safe with an alignment cap of four. `CompletionIsDirectExactly` states that it is
  safe exactly then, and `ShorteningNeedsCapFour` gives the members for which it is not.
- A text with U+0000 is written into a terminated wide string and refused when it is read, and a length of 2^32 or
  more is truncated; `WstringBack` states both as an equivalence.
- A narrow string that is not UTF-8 is written and refused when it is read, and a length of 2^32 or more is truncated
  there too (`TextBack`).

## Model

| member | source | states |
|---|---|---|
| `SerialNumbers.SerialOrderIsTrueOrder` | endpoints/go/reliable.go:64-70 | up to half a turn apart, the serial comparison of two wrapped numbers is the true order, and is false both ways at distance exactly 2^15 |
| `SerialNumbers.SerialOrderFailsPastHalf` | endpoints/go/reliable.go:64-70 | past half a turn the comparison is reversed, so the freshness bound cannot be widened |
| `SerialNumbers.SerialOrderIsOffsetOrder` | endpoints/go/reliable.go:64-70 | among numbers within half a turn of any anchor the comparison orders them by distance from the anchor |
| `XrceFrames.ReadWriteFrame` | endpoints/go/reliable.go:78-94 | a data frame reads back as its number and sample, whatever follows it, exactly if the sample with its base fits the 16-bit length; otherwise there is no frame; no data frame parses as an ACKNACK |
| `XrceFrames.BaseReadsBack` | endpoints/go/endpoint.go:47-85 | whatever trails a data frame, its base gives the sequence number as request id and the object id, and the sample, as WRITE_DATA and as DATA; the reliable reader takes WRITE_DATA only |
| `XrceFrames.BaseNeedsItsFrame` | endpoints/go/endpoint.go:75-85 | a frame is read exactly if it is data of either direction, at least twelve octets long, and holds the body of at least four octets its length announces |
| `XrceFrames.HeadsSayWhatFollows` | endpoints/go/reliable.go:132-165 | the head of every data, HEARTBEAT and ACKNACK frame gives back session, stream and number, has the submessage id 0x07, 0x0B or 0x0A and the flag 0x01, and states the length of its body; a payload with a frame has at most 65531 octets |
| `XrceFrames.BodiesOctetByOctet` | endpoints/go/reliable.go:132-165 | the base is big-endian, the bodies of HEARTBEAT and ACKNACK little-endian, field by field |
| `XrceFrames.ParseAckNackInverse` | endpoints/go/reliable.go:148-202 | an ACKNACK frame parses back in both payload forms and is taken for no other frame |
| `XrceFrames.ParseHeartbeatInverse` | endpoints/go/reliable.go:132-182 | a HEARTBEAT frame parses back |
| `ReliableEndpoints.ReliableSender.constructor` | endpoints/go/reliable.go:221-231 | an empty window at number zero |
| `ReliableEndpoints.ReliableSender.Submit` | endpoints/go/reliable.go:239-250 | too large exactly above 65535 octets, else refused exactly with sixteen samples in flight, else the sample is in flight under the next number, wrapped; a refusal changes nothing |
| `ReliableEndpoints.ReliableSender.SerialWindow` | endpoints/go/reliable.go:264-279 | for any iteration order of the map, the scan returns the serially oldest and newest number in flight, seen from every anchor that has them within half a turn |
| `ReliableEndpoints.ReliableSender.PendingHeartbeat` | endpoints/go/reliable.go:300-314 | a HEARTBEAT exactly when something is in flight and none was sent for 500 milliseconds, naming the oldest and newest number and stream 0x80 |
| `ReliableEndpoints.ReliableSender.RecvAcknack` | endpoints/go/reliable.go:320-336 | what stays in flight is exactly what the ACKNACK does not acknowledge |
| `ReliableEndpoints.NackOctets` | endpoints/go/reliable.go:320-336 | slot i of the bitmap is bit i of its low octet, or bit i - 8 of its high one |
| `ReliableEndpoints.ReliableReceiver.constructor` | endpoints/go/reliable.go:363-371 | nothing received, number zero expected |
| `ReliableEndpoints.ReliableReceiver.RecvData` | endpoints/go/reliable.go:392-404 | a sample is refused exactly if it is new and 64 are buffered, and the buffer afterwards; the earlier of two samples with a number is kept |
| `ReliableEndpoints.ReliableReceiver.DrainInOrder` | endpoints/go/reliable.go:408-420 | the consecutive samples from the expected number on leave the buffer in order |
| `ReliableEndpoints.DrainHandsOver` | endpoints/go/reliable.go:408-420 | the i-th sample handed over has the i-th number from the expected one, wrapped, and the payload buffered under it |
| `ReliableEndpoints.DrainStops` | endpoints/go/reliable.go:408-420 | the drain stops at the first number that is not buffered, having taken as many samples as it hands over |
| `ReliableEndpoints.DrainKeeps` | endpoints/go/reliable.go:408-420 | what stays buffered stays as it was |
| `ReliableEndpoints.ReliableReceiver.PendingAcknack` | endpoints/go/reliable.go:426-444 | the bitmap built bit by bit names exactly the missing numbers among the sixteen from the expected one, up to the hint |
| `UnboundedStream.DrainMeans` | endpoints/go/reliable.go:408-420 | a drain takes the longest run of buffered numbers from the expected one and leaves the rest untouched |
| `UnboundedStream.StepKeepsInv` | endpoints/go/reliable.go:496-580 | every step, from any state of the invariant, keeps it: what is in flight, buffered, delivered and on the network agrees with what was enqueued |
| `UnboundedStream.RunKeepsInv` | endpoints/go/reliable.go:496-580 | so does every run |
| `UnboundedStream.SpanBound` | endpoints/go/reliable.go:239-336 | although the window limits the count only, the next number never exceeds the largest processed ACKNACK base by more than 32 |
| `UnboundedStream.BufferBound` | endpoints/go/reliable.go:392-404 | so at most 32 samples are buffered, below the cap of 64 |
| `UnboundedStream.UnhintedAckConserves` | endpoints/go/reliable.go:320-336 | an ACKNACK without hint, however stale, strikes only samples the receiver has |
| `UnboundedStream.StepConserves` | endpoints/go/reliable.go:320-444 | every step keeps each submitted sample delivered, buffered or in flight, unless a hint strikes a sample |
| `UnboundedStream.RunConserves` | endpoints/go/reliable.go:496-580 | so does every run in which each hinted ACKNACK meets the condition of `HintedAckConserves` when it is processed |
| `UnboundedStream.UnhintedRunConserves` | endpoints/go/reliable.go:496-580 | in particular every run without hinted ACKNACKs |
| `UnboundedStream.EmptyWindowDeliversAll` | endpoints/go/reliable.go:568-578 | with an empty window, one drain makes delivered equal to submitted |
| `UnboundedStream.HintedAckConserves` | endpoints/csharp/Reliable.cs:315-396 | a hinted ACKNACK keeps conservation exactly if no submitted number above the hint and inside its sixteen slots is still missing at the receiver; in particular if nothing was submitted after the hint |
| `UnboundedStream.HintLosesSample` | endpoints/csharp/Reliable.cs:315-396 | a run of the unbounded machine that ends with an empty window and a sample that is never delivered |
| `StreamProgress.NextSampleIsAtHand` | endpoints/go/reliable.go:408-420 | in the unbounded machine, while samples are outstanding, the expected one is buffered or in flight |
| `StreamProgress.OutstandingFalls` | endpoints/go/reliable.go:408-420 | in the unbounded machine only submit raises the number of outstanding samples, and a drain that finds the expected sample lowers it |
| `StreamProgress.AcknowledgedLeaves` | endpoints/go/reliable.go:320-444 | after a drain and its ACKNACK, exactly the undelivered and the buffered numbers beyond sixteen slots stay in flight |
| `StreamProgress.LossFreeRoundEmptiesWindow` | endpoints/go/reliable.go:555-578 | in the unbounded machine, one round in which everything in flight arrives, in any order, is drained and acknowledged empties the window exactly if every sample the receiver lacks fits a frame; then all submitted samples are delivered |
| `StreamProgress.UnsendableWedges` | endpoints/go/reliable.go:239-336 | in the unbounded machine, every submitted sample that fits no frame stays in flight and lacking, in every run in which no hint strikes a sample |
| `ReliableStream.StepSim` | endpoints/go/reliable.go:239-444 | every step of the 16-bit machine with octet frames is the corresponding step of the unbounded one |
| `ReliableStream.RunRefines` | endpoints/go/reliable.go:496-580 | so is every run, across any number of wraps |
| `StreamRealization.Realize` | endpoints/go/reliable.go:239-444 | every step of the unbounded machine whose message is fresh is a step of the 16-bit machine, with a frame that is on the network |
| `StreamRealization.RunRealized` | endpoints/go/reliable.go:496-580 | every fresh run of the unbounded machine is a run of the 16-bit machine to the same state |
| `StreamRealization.HintLosesFrame` | endpoints/csharp/Reliable.cs:315-396 | a run of the 16-bit machine, frames included, after which nothing is pending, nothing is in flight, and one drain leaves the second of two samples undelivered |
| `ReliableStream.SerialWindowIsTrueWindow` | endpoints/go/reliable.go:264-279 | the scan's two numbers are the true oldest and newest in flight |
| `ReliableStream.AcknowledgesTruly` | endpoints/go/reliable.go:320-336 | pruning by wrapped numbers and bitmap slots strikes exactly what true order would |
| `ReliableStream.DeliversPrefix` | endpoints/go/reliable.go:496-580 | in every reachable state the delivered payloads are a prefix of the enqueued ones: each once, in order |
| `ReliableStream.NeverRefuses` | endpoints/go/reliable.go:392-404 | in every reachable state the receiver accepts every fresh data frame, and at most 32 samples are outstanding |
| `ReliableStream.NetworkIsOurs` | endpoints/go/reliable.go:72-165 | every frame on the network of every run has session and stream 0x80, the flag of little-endian order, the submessage id of what it was made as and the length of its body, or is the empty frame of a sample above 65531 octets |
| `ReliableStream.ExitTestIsSound` | endpoints/go/reliable.go:568-578 | when the drain loop may end (nothing pending, nothing in flight), one drain makes delivered equal to enqueued, in every run in which no hint strikes a sample |
| `ReliableStream.UnhintedMeetsHints` | endpoints/go/reliable.go:426-444 | runs without hinted ACKNACKs are among those |
| `ReliableProgress.ExpectedIsAtHand` | endpoints/go/reliable.go:408-420 | in every such reachable state of the 16-bit machine, while samples are outstanding, the expected one is buffered or in flight |
| `ReliableProgress.OutstandingFallsOnDrain` | endpoints/go/reliable.go:408-420 | in every reachable state of the 16-bit machine only submit raises the number of outstanding samples, and a drain that finds the expected sample lowers it |
| `ReliableProgress.LossFreeRoundDelivers` | endpoints/go/reliable.go:555-578 | from every such reachable state a loss-free round, in any order, is a run of the 16-bit machine; it empties the window exactly if every sample submitted and not delivered fits a frame, and then delivers all that was submitted |
| `ReliableProgress.UnsendableStopsDelivery` | endpoints/go/reliable.go:239-336 | in every such reachable state, a submitted sample that fits no frame is in flight and nothing is delivered from it on |
| `ReliableProgress.OversizeSampleWedges` | endpoints/go/reliable.go:55-250 | every payload of 65532 to 65535 octets can be enqueued and submitted first, and then no run without hints delivers anything or empties the window |
| `Fcs16.ComputeFcs` | endpoints/java/ZdwEndpoint.java:130-139 | the loop computes the check of a slice |
| `Fcs16.ShiftOctet` | endpoints/java/ZdwEndpoint.java:130-139 | the inner loop is eight shifts of the register |
| `Fcs16.BurstChangesFcs` | endpoints/java/ZdwEndpoint.java:130-139 | two messages of one length that differ only inside sixteen neighbouring bits, at any bit offset, have different checks |
| `Fcs16.WithinTwoIsBurst` | endpoints/java/ZdwEndpoint.java:130-139 | a difference inside two neighbouring octets is such a burst |
| `SerialFraming.Stuff` | endpoints/java/ZdwEndpoint.java:141-151 | the loop replaces exactly the flag and the escape octet by their two-octet forms |
| `SerialFraming.SerialFrame` | endpoints/java/ZdwEndpoint.java:170-185 | a frame exactly for payloads up to 65535 octets: the flag and the stuffed header, payload and check |
| `SerialFraming.SerialDeframe` | endpoints/java/ZdwEndpoint.java:192-225 | for every octet sequence the loop gives the message or the error the specification function gives |
| `SerialFraming.NoFlagInside` | endpoints/java/ZdwEndpoint.java:141-151 | stuffed octets never contain the flag |
| `SerialFraming.DeframeInvertsFrame` | endpoints/java/ZdwEndpoint.java:170-225 | a frame followed by anything deframes to its message |
| `SerialFraming.DeframeAcceptsOnlyFrames` | endpoints/java/ZdwEndpoint.java:192-225 | whatever is accepted begins with the very frame of the message returned |
| `SerialFraming.CutRecoversFrames` | endpoints/java/ZdwEndpoint.java:141-185 | cutting any concatenation of frames at each flag gives back exactly those frames |
| `SerialFraming.WrongCheckIsRefused` | endpoints/java/ZdwEndpoint.java:216-222 | a frame with any other check is refused for its check |
| `SerialFraming.AlteredPayloadIsRefused` | endpoints/python/zerodds_endpoint.py:100-168 | a frame whose payload was altered inside sixteen neighbouring bits under its old check is refused |
| `SerialFraming.CheckedLeavesResidue` | endpoints/java/ZdwEndpoint.java:216-222 | a message and its own check always leave the register at 0xF0B8 |
| `SerialFraming.AlteredFrameIsRefused` | endpoints/java/ZdwEndpoint.java:192-225 | a frame damaged inside sixteen neighbouring bits anywhere but in its two length octets, across payload and check too, is refused |
| `SerialLayout.CheckOfNineDigits` | endpoints/java/ZdwEndpoint.java:125-139 | the check of the digits 1 to 9 is 0x906E |
| `SerialLayout.FrameOctets` | endpoints/java/ZdwEndpoint.java:166-185 | behind the flag 0x7E, before stuffing: source, remote, the length and behind the payload the check, both least significant octet first |
| `SerialLayout.StuffedForms` | endpoints/java/ZdwEndpoint.java:141-151 | 0x7E and 0x7D become 0x7D 0x5E and 0x7D 0x5D wherever they stand, every other octet stays, and 0x7E is nowhere in the result |
| `SerialLayout.EachRefusal` | endpoints/java/ZdwEndpoint.java:192-225 | a frame that breaks off after any number of its octets is refused for being short, for the flag that follows, for an escape with nothing behind it or for an escape of another octet; what does not begin with the flag is refused for that |
| `Binary128.ShiftRoundMeans` | runtime/go/float128.go:207-222 | shifting right rounds the quotient to nearest, ties to even, and reports exactly whether anything was dropped |
| `Binary128.StickyRounds` | runtime/go/float128.go:135-148 | rounding the quotient with its sticky bit rounds the fraction itself |
| `Binary128Meaning.FromFractionMeans` | runtime/go/float128.go:135-203 | the pattern of a fraction is its 113-bit rounding packed, capped at infinity, or rounded off once more below the normal range; the sign is the top bit |
| `Binary128Nearest.LocalIsGlobal` | runtime/go/float128.go:153-203 | a pattern on the right side of both neighbouring midpoints is nearest among all patterns |
| `Binary128Nearest.NormalIsNearest` | runtime/go/float128.go:153-203 | every result that is normal or overflows is the nearest pattern, ties to even |
| `Binary128Order.NearestExactly` | runtime/go/float128.go:135-203 | for every fraction the result is one of the two neighbours, and is the nearest pattern exactly if the first rounding does not land on the midpoint of two subnormals from the side that ties to even turns back; never the case in the normal range |
| `Binary128Order.Monotone` | runtime/go/float128.go:135-203 | a larger fraction never gives a smaller pattern, across subnormal, normal and infinite results |
| `Binary128Order.SameFraction` | runtime/go/float128.go:135-148 | equal fractions give the same pattern, however they are written |
| `Binary128Order.ExactIsIdentity` | runtime/go/float128.go:135-203 | the exact value of a finite pattern composes to that pattern |
| `Binary128Order.DoubleRoundingWitness` | runtime/go/float128.go:153-203 | a fraction whose result is not the nearest pattern |
| `Binary128Layout.TopOfTheRange` | runtime/go/float128.go:31-44 | the sign is bit 127 and infinity is 0x7FFF above 112 zero bits |
| `Binary128Layout.UnitsAre` | runtime/go/float128.go:187-203 | the unit values are counted in is 2^-16494, the least subnormal number |
| `Binary128Layout.FieldsMean` | runtime/go/float128.go:246-268 | an exponent field e above a fraction f means (2^112 + f) * 2^(e - 1) of these units, and f of them if e is zero |
| `Binary128Layout.FieldsCompose` | runtime/go/float128.go:135-203 | the number every finite pattern of either sign means is composed to that pattern |
| `Binary128Layout.PowersOfTwo` | runtime/go/float128.go:187-203 | 2^k is composed to (16383 + k) * 2^112 for every k from -16382 to 16383 |
| `Binary128Layout.KnownDecimals` | runtime/go/wire_test.go:207-233 | 1.0, 1.5 and -2.0 are read as 0x3FFF, 0x3FFF8 and 0xC000 followed by zeros |
| `Binary128Layout.NamesMean` | runtime/go/float128.go:55-68 | every name of infinity and NaN, in any case and with space around it, is read as its pattern |
| `Binary128Layout.NamesInAnyCase` | runtime/go/float128.go:53-68 | two names in mixed case between any two of the eight kinds of space |
| `Binary128Layout.ExponentLimits` | runtime/go/float128.go:78-86 | an exponent is read exactly if it fits a signed integer of 64 bits |
| `Binary128Text.ReadSpelled` | runtime/go/float128.go:48-111 | a text of digits, point, digits and exponent is read as the integer of its digits times a power of ten |
| `DecimalGrammar.GrammarIsRead` | runtime/go/float128.go:48-111 | every text of space, sign, digits with an optional point and either side of it possibly empty, an exponent of `e` or `E`, and space is read as the number it means |
| `DecimalGrammar.ReadIsGrammar` | runtime/go/float128.go:48-111 | every text read as a number is of that form |
| `DecimalGrammar.ReadsExactlyTheGrammar` | runtime/go/float128.go:48-111 | so besides the names exactly these texts are accepted, each with its own meaning |
| `Binary128RoundTrip.ReadRendered` | runtime/go/float128.go:296-321 | all three spellings of a digit string and its point are read back as the same number |
| `Binary128RoundTrip.FiniteRoundTrip` | runtime/go/float128.go:240-321 | the exact decimal of a finite nonzero pattern is read back as that pattern |
| `Binary128RoundTrip.PrintReadIdentity` | runtime/go/float128.go:48-321 | printing and reading back is the identity on zeros, subnormals, normals and infinities of either sign |
| `Binary128RoundTrip.PatternsCovered` | runtime/go/float128.go:240-292 | those are all 128-bit patterns that are no NaN |
| `Binary128Printing.PrintedExactly` | runtime/go/float128.go:240-321 | the text of a finite nonzero pattern is a decimal of the grammar with exactly its value, a point with digits on both sides, no zero that could be left out, and an exponent exactly below 10^-6 and from 10^34 on, signed and behind one nonzero digit before the point |
| `Binary128Printing.SpecialTexts` | runtime/go/float128.go:251-273 | the texts of both zeros, both infinities and every NaN |
| `Binary128Decimals.DecimalIsNearest` | runtime/go/float128.go:48-123 | for every text of the grammar with a nonzero value, the pattern read is a neighbour of the value and nearest under the same condition |
| `Binary128Decimals.DecimalsStayInOrder` | runtime/go/float128.go:48-123 | texts of the grammar in order of value, signs and zeros included, are read as patterns in order |
| `Binary128Decimals.DecimalMisread` | runtime/go/float128.go:112-122 | a decimal text that is read as a pattern that is not the nearest |
| `XcdrOctets.OctetsInverse` | runtime/go/reader.go:220-234 | an integer reads back in either byte order |
| `XcdrOctets.OctetOrder` | runtime/go/writer.go:129-139 | little-endian is least significant octet first, big-endian last |
| `XcdrOctets.PadReachesBoundary` | runtime/go/writer.go:114-126 | padding leads to the next multiple of the width, capped, and no further |
| `XcdrWriter.Writer.constructor` | runtime/go/writer.go:91-101 | an empty buffer with its origin at zero |
| `XcdrWriter.Writer.AlignTo` | runtime/go/writer.go:114-126 | zeros up to the next multiple of the alignment, capped, counted from the origin, and no further |
| `XcdrWriter.Writer.WriteRaw` | runtime/go/writer.go:129-139 | the octets of an integer in the stream's order |
| `XcdrWriter.Writer.WriteInt` | runtime/go/writer.go:142-145 | padding and octets, and the octets alone on a boundary |
| `XcdrWriter.Writer.Patch` | runtime/go/writer.go:1040-1053 | exactly the field is overwritten, and a value too large for it is refused with nothing changed |
| `XcdrWriter.Writer.WriteDheader` | runtime/go/writer.go:788-792 | padding and four open octets |
| `XcdrWriter.Writer.FinishDheader` | runtime/go/writer.go:797-802 | the length of what followed is in, or is refused |
| `XcdrWriter.Writer.WriteEmheader` | runtime/go/writer.go:809-831 | the header word, with four open octets under length code 4; an id above 28 bits is refused |
| `XcdrWriter.Writer.FinishEmheader` | runtime/go/writer.go:837-861 | the NEXTINT patched, or the header shortened, or the length held to its code |
| `XcdrWriter.Writer.ShortenEmheader` | runtime/go/writer.go:867-882 | four octets removed and bits 28 to 30 of the word replaced, nothing else |
| `XcdrWriter.Writer.WritePid` | runtime/go/writer.go:904-932 | a short header with an open length; alignment then counts from the value |
| `XcdrWriter.Writer.WritePidExtended` | runtime/go/writer.go:938-963 | an extended header with an open length; alignment then counts from the value |
| `XcdrWriter.Writer.FinishPid` | runtime/go/writer.go:978-1002 | the length patched or the header promoted, the enclosing origin restored, padding if the framing asks for it |
| `XcdrWriter.Writer.PromotePid` | runtime/go/writer.go:1010-1026 | eight octets inserted and four fields patched amount to an extended header in place of the short one |
| `XcdrWriter.Writer.WriteSentinel` | runtime/go/writer.go:1032-1037 | the list end with its flags |
| `XcdrValue.EncPeriodic` | runtime/go/writer.go:114-126 | the octets of any value depend on its position modulo the alignment cap only |
| `XcdrAlignment.ItemsAreAligned` | runtime/go/writer.go:114-145 | in the octets of every value, every number at every depth begins at a multiple of its width, capped, from the first octet of the sample or, inside a parameter, from the first octet behind its header; all numbers, counts and texts are there in order |
| `XcdrAlignment.LaidMeans` | runtime/go/writer.go:114-145 | what that layout says of each of them: its octets at its place, its origin, and the next one behind it |
| `XcdrAlignment.OctetThenNumber` | runtime/go/wire_test.go:18-45 | an octet and a number of any width behind it, with exactly the zeros between them that the number's boundary asks for |
| `XcdrHeaders.ShortCodesArePowers` | runtime/go/writer.go:837-882 | a length has the short code k exactly if it is 2^k, for k below 4 |
| `XcdrHeaders.WordOctets` | runtime/go/writer.go:788-831 | a DHEADER and an EMHEADER octet by octet: the flag in bit 31, the code in bits 28 to 30, the id below |
| `XcdrHeaders.SequenceOctets` | runtime/go/wire_test.go:195-205 | a sequence of one short octet by octet: length, count, element |
| `XcdrHeaders.MutableOctets` | runtime/go/writer.go:809-861 | a mutable aggregate of one long octet by octet, with a NEXTINT and with a short code |
| `XcdrHeaders.SentinelOctets` | runtime/go/writer.go:1032-1037 | the list end octet by octet, under every flag policy |
| `XcdrHeaders.ShortHeaderOctets` | runtime/go/writer.go:904-932 | a short header octet by octet, under every flag policy |
| `XcdrHeaders.ExtendedHeaderOctets` | runtime/go/writer.go:938-963 | an extended header octet by octet, under every flag policy |
| `XcdrHeaders.DeclaredLengthMeans` | runtime/go/writer.go:978-1002 | the declared length covers the padding to the next multiple of four exactly if the framing says so for the parameter's role |
| `XcdrHeaders.SpecificationParameter` | runtime/go/policy.go:188-199 | a parameter of the specification framing octet by octet, short or extended, in either role, with its zeros behind |
| `XcdrEncode.PromotionIsExtension` | runtime/go/writer.go:904-1026 | a promoted short header leaves the octets and the declared length that writing the extended header first would have left, for any value, role and framing |
| `XcdrEncode.ShortenedIsDirect` | runtime/go/writer.go:867-882 | a shortened header is the header written with the short code first |
| `XcdrEncode.MutableMemberIs` | runtime/go/writer.go:809-882 | where shortening is safe, a member written with length code 4 and completed is the member written directly, with code 0 to 3 where it has one |
| `XcdrEncode.ShorteningNeedsCapFour` | runtime/go/writer.go:837-882 | under a cap of eight with shortening on, every eight-octet primitive whose header ends between two multiples of eight comes out of completion other than it is written directly |
| `XcdrEncode.CompletionIsDirectExactly` | runtime/go/writer.go:837-882 | completion gives the direct octets for every member exactly if shortening is off or the cap is four |
| `XcdrEncode.ParameterIs` | runtime/go/writer.go:904-1026 | a parameter header, its value and its completion are the parameter written directly, short, extended or promoted |
| `XcdrEncode.EncodeParameter` | runtime/go/writer.go:904-1002 | a parameter written through the writer is the direct encoding, and the origin is restored |
| `XcdrEncode.EncodeMutableMember` | runtime/go/writer.go:809-861 | a mutable member written through the writer is the direct encoding; refused exactly if its id or its length does not fit |
| `XcdrEncode.EncodeMembers` | endpoints/python/zerodds_reflect.py:58-78 | so are the members of an aggregate of any extensibility |
| `XcdrEncode.EncodeElements` | endpoints/python/zerodds_reflect.py:45-55 | so are the count and the elements of a sequence |
| `XcdrEncode.EncodeValue` | runtime/go/writer.go:788-1053 | every value tree, walked as `endpoints/python/zerodds_reflect.py` walks it, is written as its direct encoding with all back-patched lengths; this writer refuses it exactly if an id or a length does not fit its field, where the Python one masks a length |
| `XcdrSizes.ShortValuesFit` | runtime/go/writer.go:1040-1053 | every value whose framed ids have 28 bits and whose encoding has fewer than 2^32 - 4 octets is written |
| `XcdrSizes.FittingHasIds` | runtime/go/writer.go:809-818 | and a value with another id, at any depth, is refused |
| `XcdrReader.Assemble` | runtime/go/reader.go:220-234 | shifting octets in gives the integer they write in either order |
| `XcdrReader.Reader.constructor` | runtime/go/reader.go:92-104 | a cursor at the first octet |
| `XcdrReader.Reader.AlignTo` | runtime/go/reader.go:195-204 | the cursor moves to the next multiple of the alignment, capped, counted from the origin, over the padding a writer would have put there |
| `XcdrReader.Reader.Take` | runtime/go/reader.go:208-216 | the next octets, or a refusal exactly if there are too few |
| `XcdrReader.Reader.ReadUnsigned` | runtime/go/reader.go:220-234 | the integer behind the padding, or a refusal |
| `XcdrReader.Reader.SkipTo` | runtime/go/reader.go:149-161 | forward only: behind the cursor refuses, past the end stops |
| `XcdrReader.Reader.ReadDheader` | runtime/go/reader.go:721-728 | the length, refused exactly if it is cut off or the stream does not hold as many octets behind it |
| `XcdrReader.Reader.ReadEmheader` | runtime/go/reader.go:734-775 | id, flag, code and extent, under all eight length codes |
| `XcdrReader.Reader.ReadPidAs` | runtime/go/reader.go:779-829 | either header form with its flags; alignment then counts from the value |
| `XcdrReader.Reader.FinishPidRead` | runtime/go/reader.go:835-841 | the enclosing origin is back and the cursor at the next boundary, except after the list end or a refusal |
| `XcdrReader.DheaderBack` | runtime/go/reader.go:721-728 | a DHEADER reads back the length of its body, so that skipping by it ends where the body ends |
| `XcdrRoundTrip.TextBack` | runtime/go/reader.go:354-366 | a string reads back, with the cursor behind its terminator, exactly if it is UTF-8 and its length with the terminator is below 2^32 |
| `XcdrReader.UnsignedTruncated` | runtime/go/reader.go:220-234 | a count of 2^32 or more, truncated to its field, reads back as a smaller one |
| `XcdrRoundTrip.MutableHeaderBack` | runtime/go/reader.go:734-775 | an EMHEADER, shortened or not, reads back the member's id and flag and the exact length of its value |
| `XcdrCounted.EncodeCounted` | runtime/go/writer.go:809-861 | a member under length codes 5 to 7 written through the writer is its header word and its value; refused exactly if its id or a length in it does not fit |
| `XcdrCounted.CountedHeaderBack` | runtime/go/reader.go:734-775 | under codes 5, 6 and 7, over units of one, four and eight octets, the header reads back id and flag, leaves the cursor before the count, and has an extent equal to the length of the value, exactly unless eight-octet numbers under a cap of eight need padding behind the count |
| `XcdrCounted.CountedIsSkipped` | runtime/go/reader.go:734-775 | a reader that does not know such a member goes on right behind it |
| `XcdrCounted.CountedIsRead` | runtime/go/reader.go:734-775 | a reader that knows it reads the value with the count it leads with and goes on right behind it |
| `XcdrRoundTrip.ParameterBack` | runtime/go/reader.go:779-841 | a parameter, short, extended or promoted, padded or not, reads back its id and flag, leaves the cursor at its value, and leads to the boundary of the next header under the enclosing origin |
| `XcdrRoundTrip.SentinelBack` | runtime/go/reader.go:779-815 | the sentinel reads back as the end of the list |
| `XcdrHeaders.ShortBits` | runtime/go/reader.go:795-816 | what the bits of a short header say: id, must-understand, and whether it can be a member |
| `XcdrHeaders.ExtendedBits` | runtime/go/reader.go:783-794 | what the bits of an extended header say |
| `XcdrHeaders.ForeignIsSkipped` | runtime/go/reader.go:68-73 | a parameter of the writer's own, of a reserved id or of the id to ignore is passed over whatever the type has |
| `XcdrDecode.ExactSeesAll` | endpoints/python/zerodds_reflect.py:45-78 | a reader whose type has every member loses none |
| `XcdrRoundTrip.DecodeInvertsEncode` | endpoints/python/zerodds_wire.py:266-529 | for every value tree, both byte orders and both caps, a reader of a matching type (strings being UTF-8, counts fitting 32 bits) gets the value without the members its type lacks, at every depth, with the cursor at the end of the encoding, wherever in the data that stands |
| `XcdrRoundTrip.ParametersBack` | runtime/go/reader.go:779-841 | every sentinel-terminated parameter list reads back ids, flags and values, nested to any depth, under the specification framing and every framing that keeps the flags apart, whatever it pads |
| `XcdrRoundTrip.SpecificationIsReadable` | runtime/go/policy.go:132-199 | the specification framing is one of those |
| `XcdrRoundTrip.RoundTrip` | endpoints/python/zerodds_wire.py:266-529 | a sample read by its own type gives back the value and ends at the last octet |
| `XcdrTyped.OwnTypeMatches` | endpoints/python/zerodds_reflect.py:45-78 | every value with UTF-8 text, 32-bit counts, elements of one type and no id twice among members found by id is of its own type, with every member |
| `XcdrTyped.EveryValueReadsBack` | endpoints/python/zerodds_wire.py:266-529 | so every such value with 28-bit ids and fewer than 2^32 - 4 octets is written, and read by its own type comes back whole with the cursor at the end |
| `XcdrTyped.OlderTypeReadsItsMembers` | runtime/go/reader.go:734-841 | a reader whose type has any selection of the members of a mutable aggregate or a parameter list gets exactly those and ends where the sample ends |
| `XcdrTyped.OlderTypeReadsItsPrefix` | runtime/go/reader.go:721-728 | a reader whose type has the first k members of an appendable aggregate gets these and ends where the sample ends |
| `XcdrRoundTrip.OctetsDetermineValue` | endpoints/python/zerodds_reflect.py:45-78 | two values of one type with the same octets are the same |
| `FixedDecimal.Split` | runtime/go/writer.go:588-602 | sign, integer digits and fraction of a text |
| `FixedDecimal.Parts` | runtime/go/writer.go:588-629 | the checks pass exactly for decimals whose integer part and fraction fit the type |
| `FixedDecimal.SignificantDigits` | runtime/go/writer.go:647-653 | the digits from the first nonzero one are as many as the number has |
| `FixedDecimal.FixedNibbles` | runtime/go/writer.go:570-689 | exactly the fitting texts are taken, as the digits of their value in the width the count asks for, with one sign and no negative zero |
| `FixedDecimal.WireHoldsValue` | runtime/go/writer.go:654-667 | no digit count drops a significant digit, and none needs more than 31 |
| `FixedDecimal.WriteFixed` | runtime/go/writer.go:559-564 | the octets are the packed digits of the value |
| `FixedDecimal.TakeField` | runtime/go/reader.go:590-616 | the field is cut by its declared width, or at the first sign nibble within sixteen octets |
| `FixedDecimal.Spelled` | runtime/go/reader.go:622-650 | the text is the canonical spelling of the number: one integer digit at least, all digits of the scale, one zero |
| `FixedDecimal.ReadFixed` | runtime/go/reader.go:577-650 | for every data: the canonical spelling of what the field says, refused exactly if there is no field or a nibble is no digit |
| `FixedRoundTrip.FieldBack` | runtime/go/reader.go:577-650 | what was written for a text is found as a field of its value, whatever follows it, under all three counts |
| `FixedRoundTrip.WriteThenRead` | runtime/go/writer.go:559-564 | writing a text and reading it back gives the canonical decimal of the same value, and every accepted text is read |
| `FixedRoundTrip.DeclaredOctetsAreTheValue` | runtime/go/writer.go:570-689 | under the declared count two texts have the same octets exactly if they are equal in value |
| `FixedRoundTrip.CanonicalMeansItsValue` | runtime/go/reader.go:622-650 | the canonical spelling of a value that fits is accepted by the writer and has that value |
| `FixedLayout.TextMeans` | runtime/go/writer.go:570-632 | which texts of sign, digits, point and digits are taken, each part possibly missing, and the value each of them has |
| `FixedLayout.TextIsOfForm` | runtime/go/writer.go:588-615 | and no other text is taken |
| `FixedLayout.WireWidth` | runtime/go/writer.go:647-667 | the digits on the wire: as declared, the fewest that hold the value, or those written made odd |
| `FixedLayout.NibbleAt` | runtime/go/writer.go:669-688 | the digit of 10^k is the k-th nibble before the sign, which is 0xD below zero and 0xC otherwise, with a zero in front exactly for an even count |
| `FixedLayout.OctetAt` | runtime/go/writer.go:559-564 | of the two nibbles of an octet the first is the high one |
| `Utf8.DecodeInvertsEncode` | runtime/go/writer.go:273-289 | UTF-8 decodes back to its scalar values |
| `Utf8.ValidIsEncoded` | runtime/go/writer.go:273-289 | and nothing else is valid: no overlong form, no surrogate, nothing above U+10FFFF |
| `Utf8.KnownEncodings` | runtime/go/wire_test.go:299-331 | the octets of one character of each length |
| `Wstrings.Utf16UnitsOf` | runtime/go/writer.go:273-289 | the loop gives the UTF-16 units of UTF-8 text and refuses exactly what is not UTF-8 |
| `Wstrings.TextOf` | runtime/go/reader.go:473-491 | the loop gives the text of its units and refuses exactly if a surrogate is alone |
| `Wstrings.TextOfItsUnits` | runtime/go/reader.go:473-491 | decoding inverts encoding, surrogate pairs included |
| `Wstrings.FrameBack` | runtime/go/reader.go:448-472 | mark and terminator are undone in every cell and order, empty text and a leading U+FEFF included; refused exactly if a terminated text holds U+0000 |
| `Wstrings.WriteWstring` | runtime/go/writer.go:296-334 | the length field and the units, in width and order; refused exactly if the text is not UTF-8, or has a character of two units where each unit of two octets counts as one |
| `Wstrings.WriteUnit` | runtime/go/writer.go:441-462 | one unit behind its boundary, in its own order |
| `Wstrings.ReadUnits` | runtime/go/reader.go:533-566 | the units, refused exactly if the stream is too short or a four-octet unit exceeds sixteen bits |
| `Wstrings.ReadWstring` | runtime/go/reader.go:432-492 | for every data: length, units and text as the specification function reads them, given as UTF-8 |
| `Wstrings.WstringBack` | runtime/go/reader.go:432-492 | a text reads back with the cursor at its end, in all eight cells and four orders and wherever it stands, exactly if its length is below 2^32 and a terminated text holds no U+0000 |
| `Wstrings.WriteThenRead` | runtime/go/writer.go:296-334 | written and read back, a string is the same octets, exactly if it is UTF-8 the cell takes and meets that condition |
| `WstringLayout.UnitStands` | runtime/go/writer.go:441-462 | the i-th unit behind the length, in two or four octets, in the stream's order, always big-endian or always little-endian as the unit order says |
| `WstringLayout.LengthCounts` | runtime/go/writer.go:319-334 | the length counts the units with mark and terminator, or their octets; the mark is U+FEFF in front and the terminator zero at the end |
| `WstringLayout.AcceptedExactly` | runtime/go/writer.go:305-315 | a count of two-octet units as characters takes exactly the texts of one unit per character, every other length every text |
| `WstringLayout.ClefInUnits` | runtime/go/wire_test.go:61-74 | the octets of U+1D11E in both byte orders |
| `WstringLayout.BigEndianIsRead` | runtime/go/reader.go:405-425 | big-endian text, marked or not, reads back under the byte order mark, a leading U+FEFF being taken for the mark |

## Left out

- Sockets, threads, clocks and close deadlines of the async writers: time is an argument of the HEARTBEAT gate, and
  the drain loop's actions are steps in any order.
- `Reset`, and the deadlines after which the C#, Python and Node writers give a sample up: they end a run.
- `InFlightSeqs`: the order of retransmission is arbitrary in the model.
- The XRCE client session modules: a three-state lifecycle and fixed layouts.
- Ports of the stream that differ from the Go one: Python's numeric HEARTBEAT window, and the serial comparison of
  C# and Node at distance exactly 2^15.
- `ReliableStream.DeliversPrefix`: a frame is processed before its own number is 2^15 behind, as section 8.4.11 of
  DDS-XRCE 1.0 presupposes; without it the 16-bit comparison reverses (`SerialOrderFailsPastHalf`).
- The 16-octet array form of a binary128 and its byte order, NaN payloads, and white space and letter case beyond
  ASCII, U+0085 and U+00A0 in decimal text.
- Decimal exponents near the limits of a 64-bit integer are read without bounds on memory.
- `XcdrEncode.EncodeValue`: alignment caps other than four and eight, and shortening under a cap of eight, which the
  source documents as unsafe.
- `XcdrRoundTrip.DecodeInvertsEncode`: framings that leave a member's must-understand flag out or put it on every
  member, which lose the flag, and short ids in the reserved range, which are read as something else.
- Refusing an unknown must-understand member is left to the decoder, and choosing the length code of a member to the
  planner of `crates/ast-layout`.
- `WstringLayout.BigEndianIsRead`: unmarked big-endian text that begins with the noncharacter U+FFFE, which reads as a
  mark, and units of four octets, which a reader in the other order refuses.
- Enumerations, bit masks, bit sets, unions and their overlay, `wchar`, bounded strings and sequences, packed
  elements, optional parameters, and the two-pass save and restore of the reader.
- The decoder that is generated per type is not part of this model; `XcdrDecode` reads by type in its place.
