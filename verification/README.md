# SNMPv3 agent: a Dafny model of the wire codec, GETBULK, framing, USM and engine boots

The agent reads SNMPv3 messages from TCP streams, checks them against the User-based Security Model,
answers from an ordered store of managed objects and signs and encrypts its replies. This project models
that path from the octets received to the octets sent, and proves what holds for every input and every run.

Each layer has a specification, a function on octet strings or states, and, where the program works step by
step, a class or a method with loops proved equal to it. The theorems are about the specifications, so they
hold of the methods too.

| file | content |
|---|---|
| `Bytes.dfy` | octets, big-endian numbers, slices and splices |
| `BerInteger.dfy`, `BerOid.dfy`, `Ber.dfy` | integers, object identifiers, lengths and elements of BER, with `BerReader` and `BerWriter` |
| `Oids.dfy` | object identifiers: order, text form |
| `Varbinds.dfy`, `Pdus.dfy`, `Envelope.dfy` | variable bindings, PDUs, the SNMPv3 message and the place of its MAC |
| `Mib.dfy`, `Bulk.dfy` | the store, GETNEXT, GETBULK with its size estimate |
| `Framing.dfy`, `Connections.dfy` | the frame cutter of a TCP stream, the connection table |
| `Boots.dfy`, `Usm.dfy` | snmpEngineBoots across crashes, security levels and the time window |
| `Outbound.dfy`, `Dispatch.dfy`, `Agent.dfy` | replies and Reports, the validation pipeline, theorems about the whole agent |

## Main results

- **A reply is never longer than negotiated** once a GETBULK row is committed: it is sent, estimator, envelope
  and cipher together stay within the 512 octets reserved (267 at worst), and it is cut back out of the
  receiving stream as one frame (`Agent.BulkAnswerWithinNegotiatedSize`).
- **The offset of the MAC is right for every accepted message**, whoever wrote it, and signing is a splice:
  zeroing gives back exactly the octets that were hashed (`Envelope.OffsetLocatesAuthParams`,
  `Envelope.SigningIsSplice`, `Agent.SignedMessageVerifies`).
- **End to end and back**: a request sealed with the agent's credentials, with any msgMaxSize from 484 and any
  reportableFlag, at any configured level, is decoded, decrypted, verified and handed to its handler unchanged,
  and the requester reads the handler's bindings from the answer (`Agent.ProperRequestIsServed`,
  `Agent.ProperRequestIsAnswered`).
- **Refused messages, from octets to octets**: the first defect in order moves its counter by one, and exactly
  a sender who set reportableFlag reads that counter and its new value from the answer; what has no counter is
  dropped in silence, and every refusal is one of these (`Agent.FirstDefectIsReported`,
  `Agent.FlagMismatchIsSilent`, `Agent.OtherContextIsSilent`, `Agent.ForeignInsideIsReported`,
  `Agent.EveryRefusalIsCovered`).
- **Only authentic frames read the store**: if two stores make a difference to what a frame does, the frame is
  its zeroed form with that form's MAC spliced in, and timely (`Agent.GateExact`,
  `Agent.OnlyAuthenticFramesReadTheStore`).
- **Framing does not depend on how the stream is split into reads** (`Framing.FramingIndependentOfChunking`).
- **A connection in use is never swept** before its timeout, over any run of the event loop
  (`Connections.ActiveConnectionSurvives`).
- **Engine boots strictly increase** over any sequence of starts, I/O errors and power losses under one engine
  ID, so a frame admitted in one boot epoch is refused in every later one (`Boots.BootsStrictlyIncrease`,
  `Agent.NoFrameIsReplayed`).
- **GETBULK is iterated GETNEXT**, binding by binding, with the one longest run of rows the limits allow
  (`Bulk.HandleGetBulk`, `Bulk.BulkCell`, `Bulk.RowCountIsLongest`, `Bulk.LongestIsUnique`, `Mib.GetNextFollowsWalk`).

## Where the code does not do what it promises

The model follows the code. In each case a lemma gives an input, or a family of them, and one gives the exact
condition.

- Non-repeaters are not counted against the size limit, though REQ-0133 bounds the whole response.
  `Outbound.NonRepeatersOverrun` gives an overlong response. `Outbound.ReplySizeExact` computes the size of a
  reply from field lengths alone, and by `Outbound.BulkFitsIffHeadsFit` a response fits exactly when that size,
  for the octets of the non-repeaters' answers, is within the limit.
- `decode_base128` means to reject sub-identifiers above 64 bits, but `checked_shl` tests only the shift
  amount, so such values wrap. `BerOid.OverflowAccepted` gives the whole family that passes unnoticed;
  `BerOid.DecodeOidFaithful` says the decoder reports what is written exactly when every written
  sub-identifier is below 2^64.
- OID text may carry a `+` before a component. `Oids.SignedTextAccepted` shows two texts for one OID;
  `Oids.PrintParse` says an accepted text is the printed form exactly when it has no `+`.
- When an engine ID comes back after another one was used, its boots counter starts at 1 again.
  `Boots.ReturningEngineIdRestarts` shows it. By `Boots.ReturnedIncreaseIfContiguous` values returned under each
  ID increase, whatever errors and power losses occur, unless another ID reached the rename in between; by
  `Boots.WrittenIncreaseIffContiguous` that condition is exact for the values written in runs without power loss.
- The framer takes at most four length octets, the element reader eight. `Framing.LongLengthFieldCloses` gives
  readable elements over which the connection is closed; `Framing.FrameIffElement` says which are cut as frames.
- A comment in `handle_get_bulk` says negative request fields are rejected earlier. `Pdus.BulkFieldsClamped`:
  every GETBULK with negative fields is accepted with zero in their place, and the fields arrive as written
  exactly when neither is negative.
- Section 3.2 of RFC 3414 refuses a msgAuthoritativeEngineID that is not the agent's. The code compares it only
  for ciphertext; for plaintext it compares contextEngineID, and msgAuthoritativeEngineID need only be non-empty.
  `Agent.ForeignEngineIdAdmitted` gives the frame; `Agent.EngineIdComparedIffEncrypted` says exactly which values
  are admitted, and `Agent.AdmittedEngineId` what holds of every admitted frame.

## Model

| member | source | states |
|---|---|---|
| `Ber.LengthRoundTrip` | src/codec/ber.rs:364-444 | reading a length inverts writing it for every 64-bit length, whatever follows |
| `Ber.LengthShortest` | src/codec/ber.rs:619-638 | no length field the reader accepts for a value is shorter than the written one |
| `Ber.LengthAccepts` | src/codec/ber.rs:364-444 | exactly which octets are read as a length, in numbers, and the value read |
| `Ber.EncodeLength` | src/codec/ber.rs:619-638 | stripping leading zero octets by bit count appends the DER length field |
| `Ber.SignificantOctets` | src/codec/ber.rs:619-638 | counting leading zero bits finds exactly the base-256 digits of the length |
| `Ber.ParseTlvOfTlv` | src/codec/ber.rs:449-466 | an element is read back with its tag and contents, leaving what follows |
| `Ber.ElementExtends` | src/codec/ber.rs:449-466 | octets behind an element change nothing about it |
| `Ber.ShortElement` | src/codec/ber.rs:179-185 | an element of up to 127 octets is tag, number of octets and contents |
| `Ber.ExpectOfTlv` | src/codec/ber.rs:471-484 | an element written under a tag is read back under it, leaving what follows |
| `Ber.ExpectIntegerOfInteger` | src/codec/ber.rs:508-511 | a written INTEGER is read back, leaving what follows |
| `Ber.ExpectOidOfOid` | src/codec/ber.rs:588-591 | a written OBJECT IDENTIFIER is read back, leaving what follows |
| `Ber.ParseTlv` | src/codec/ber.rs:449-466 | contents are the slice of the input right before the remainder, and the remainder is a suffix |
| `Ber.BerWriter.WriteRaw` | src/codec/ber.rs:174-177 | appends the octets as they are |
| `Ber.BerWriter.WriteTlv` | src/codec/ber.rs:179-185 | appends the element whose length field is the shortest one |
| `Ber.BerWriter.WriteInteger` | src/codec/ber.rs:199-202 | appends the minimal two's-complement INTEGER |
| `Ber.BerWriter.WriteOctetString` | src/codec/ber.rs:252-254 | appends the OCTET STRING element |
| `Ber.BerWriter.WriteOid` | src/codec/ber.rs:274-277 | appends the OBJECT IDENTIFIER element |
| `Ber.BerReader.PeekTag` | src/codec/ber.rs:347-354 | the next octet, or an error at the end, without moving |
| `Ber.BerReader.ReadTag` | src/codec/ber.rs:357-361 | the next octet, and the cursor one further |
| `Ber.BerReader.ReadLength` | src/codec/ber.rs:364-379 | succeeds exactly on a well-formed length field and leaves the cursor behind it |
| `Ber.BerReader.ReadLongFormLength` | src/codec/ber.rs:384-444 | the accumulating loop yields the big-endian value of one to eight octets and rejects everything else |
| `Ber.BerReader.ReadTlv` | src/codec/ber.rs:449-466 | succeeds exactly when an element is complete, returning its tag and contents |
| `Ber.BerReader.ReadExpectedTlv` | src/codec/ber.rs:471-484 | succeeds exactly when the next element carries the tag |
| `Ber.BerReader.ReadConstructed` | src/codec/ber.rs:493-505 | the sub-reader covers the contents and its base offset puts their end at the parent's cursor |
| `Ber.BerReader.ReadSequence` | src/codec/ber.rs:487-489 | the same for a SEQUENCE |
| `Ber.BerReader.ReadInteger` | src/codec/ber.rs:508-511 | succeeds exactly when the next element is an INTEGER of 32 bits |
| `Ber.BerReader.ReadOctetString` | src/codec/ber.rs:570-573 | succeeds exactly when the next element is an OCTET STRING |
| `Ber.BerReader.ReadOid` | src/codec/ber.rs:588-591 | succeeds exactly when the next element is a decodable OBJECT IDENTIFIER |
| `BerInteger.EncodeSignedCorrect` | src/codec/ber.rs:649-675 | the encoding has the value, is minimal and has one to four octets |
| `BerInteger.EncodeSignedWidth` | src/codec/ber.rs:649-675 | the number of octets written, told from the range of the value |
| `BerInteger.MinimalIsShortest` | src/codec/ber.rs:649-675 | a minimal encoding is no longer than any other of the same value |
| `BerInteger.DecodeSignedExact` | src/codec/ber.rs:722-766 | on octets of any length: succeeds iff non-empty with a two's-complement value of 32 bits, and returns it |
| `BerInteger.SignedRoundTrip` | src/codec/ber.rs:722-766 | decoding inverts encoding for every 32-bit integer |
| `BerInteger.EncodeUnsignedCorrect` | src/codec/ber.rs:680-712 | the encoding has the value, a clear sign bit and no redundant octet |
| `BerInteger.DecodeUnsignedExact` | src/codec/ber.rs:778-840 | on octets of any length: succeeds iff the sign bit is clear and the value below 256^N, and returns it |
| `BerInteger.UnsignedRoundTrip` | src/codec/ber.rs:778-840 | decoding inverts encoding for 32 and 64 bits, in at most five and nine octets |
| `BerInteger.LargestUnsigned` | src/codec/ber.rs:680-712 | the largest 32-bit and 64-bit values take five and nine octets |
| `BerOid.EncodeBase128` | src/codec/ber.rs:871-889 | collecting seven-bit groups and emitting them backwards writes the base-128 form |
| `BerOid.DecodeBase128` | src/codec/ber.rs:975-1004 | shifting and adding in 64 bits yields the written value modulo 2^64 and the octets used |
| `BerOid.ShiftStep` | src/codec/ber.rs:975-1004 | shifting a wrapped accumulator equals wrapping the shifted one, so the addition never overflows |
| `BerOid.Base128Correct` | src/codec/ber.rs:871-889 | the encoding carries the value, ends at its last octet and does not start with 0x80 |
| `BerOid.RedundantLeadingOctet` | src/codec/ber.rs:975-1004 | leading 0x80 octets do not change what is decoded |
| `BerOid.EncodeOid` | src/codec/ber.rs:852-862 | the loop over the arcs writes the combined first arc and all others |
| `BerOid.DecodeOid` | src/codec/ber.rs:892-967 | the loop over the octets decodes all sub-identifiers, splits the first and validates |
| `BerOid.OidRoundTrip` | src/codec/ber.rs:892-967 | decoding inverts encoding for every valid OID, arc 2 with any second arc included |
| `BerOid.OidEncodingInjective` | src/codec/ber.rs:852-862 | different OIDs have different encodings |
| `BerOid.OidArcsWritten` | src/codec/ber.rs:852-862 | the octets carry 40 times the first arc plus the second, then the other arcs |
| `BerOid.KnownEncodings` | src/codec/ber.rs:852-889 | octets of 300 in base 128 and of the OID 2.999.3 |
| `BerOid.ArcsEndAtLast` | src/codec/ber.rs:892-967 | octets are a row of sub-identifiers iff the last octet ends one |
| `BerOid.OidEncodingShortest` | src/codec/ber.rs:852-862 | no octets that decode to an OID are shorter than its encoding |
| `BerOid.EncodedOidBound` | src/codec/ber.rs:852-889 | an OID of n arcs takes at most 5(n-1) octets |
| `BerOid.DecodeOidFaithful` | src/codec/ber.rs:975-1004 | the decoded OID is the one written iff every written sub-identifier is below 2^64 |
| `BerOid.OverflowAccepted` | src/codec/ber.rs:984-1000 | an arc plus any multiple of 2^64 decodes as that arc |
| `Oids.TryFrom` | src/codec/oid.rs:351-369 | succeeds, changing nothing, iff there are 2 to 128 components, the first at most 2 and the second at most 39 unless the first is 2 |
| `Oids.LessTotal` | src/codec/oid.rs:40-46 | of two different OIDs one is less |
| `Oids.LessTransitive` | src/codec/oid.rs:40-46 | the lexicographic order is transitive |
| `Oids.LessIrreflexive` | src/codec/oid.rs:40-46 | no OID is less than itself |
| `Oids.FirstDifferenceDecides` | src/codec/oid.rs:40-46 | the first arc that differs decides the order, and a proper prefix comes first |
| `Oids.Display` | src/codec/oid.rs:199-213 | the printing loop joins the decimal components with dots |
| `Oids.ParsePrint` | src/codec/oid.rs:143-213 | parsing the printed form of any valid OID gives it back |
| `Oids.PrintParse` | src/codec/oid.rs:143-197 | printing what was parsed gives the text back iff it has no plus sign |
| `Oids.SignedTextAccepted` | src/codec/oid.rs:170-185 | two different texts parse to the same OID |
| `Oids.SplitJoin` | src/codec/oid.rs:170-172 | splitting at dots inverts joining dot-free parts |
| `Oids.JoinSplit` | src/codec/oid.rs:170-172 | joining inverts splitting for every text |
| `Varbinds.EncodeVarbind` | src/codec/ber/varbind.rs:265-326 | writes the SEQUENCE of the name and the value element |
| `Varbinds.EncodeVarbinds` | src/codec/ber/varbind.rs:249-257 | the loop writes the bindings one after the other inside one SEQUENCE |
| `Varbinds.DecodeVarbindValue` | src/codec/ber/varbind.rs:106-166 | the value element is interpreted by its tag, or rejected |
| `Varbinds.DecodeVarbind` | src/codec/ber/varbind.rs:81-99 | one binding is read and the cursor left at the next |
| `Varbinds.DecodeVarbindList` | src/codec/ber/varbind.rs:81-99 | the loop reads bindings until the SEQUENCE is used up |
| `Varbinds.ValueRoundTrip` | src/codec/ber/varbind.rs:106-326 | every value is interpreted and promoted back to itself |
| `Varbinds.VarbindListRoundTrip` | src/codec/ber/varbind.rs:81-257 | every list of bindings is decoded back to itself |
| `Varbinds.ValueTags` | src/codec/ber/varbind.rs:282-326 | the tag of every type of value in numbers |
| `Varbinds.ValueAdmitted` | src/codec/ber/varbind.rs:106-240 | exactly which contents each tag admits, and that no other tag names a value |
| `Varbinds.BindingEndsWithValue` | src/codec/ber/varbind.rs:157-163 | a binding with anything behind its value is rejected |
| `Pdus.EncodePdu` | src/codec/ber/pdu.rs:147-168 | writes the fields and the raw list under the tag, rejecting the bulk tag and unknown ones |
| `Pdus.EncodeBulkPdu` | src/codec/ber/pdu.rs:181-196 | writes a GETBULK PDU |
| `Pdus.ReadValidatedVarbindList` | src/codec/ber/pdu.rs:106-121 | accepts exactly one SEQUENCE with nothing behind it and returns it unread |
| `Pdus.DecodePdu` | src/codec/ber/pdu.rs:58-102 | reads tag, three integers and the list in order, with every error case |
| `Pdus.PduRoundTrip` | src/codec/ber/pdu.rs:58-196 | what any written PDU decodes to, list unchanged, and exactly which are rejected |
| `Pdus.PduTags` | src/codec/ber/pdu.rs:147-196 | the first octet of every PDU in numbers |
| `Pdus.TrailingOctetsRejected` | src/codec/ber/pdu.rs:58-121 | anything behind a PDU or behind its list is rejected |
| `Pdus.RequestRoundTrip` | src/codec/pdu/decode.rs:15-99 | every request, with its bindings, survives encoding and decoding |
| `Pdus.BulkFieldsClamped` | src/codec/pdu/decode.rs:15-74 | negative GETBULK fields become zero; the fields arrive as written iff neither is negative |
| `Envelope.DecodeV3Envelope` | src/codec/ber/snmp.rs:154-179 | reads version, header, security parameters and payload in order and computes the offset of the MAC |
| `Envelope.DecodeHeaderData` | src/codec/ber/snmp.rs:186-218 | reads msgID, msgMaxSize, msgFlags and the security model with their range checks |
| `Envelope.DecodeUsmSecurityParameters` | src/codec/ber/snmp.rs:227-268 | reads the six fields, rejects long user names and returns where the MAC starts |
| `Envelope.DecodeScopedPduData` | src/codec/ber/snmp.rs:275-300 | distinguishes ciphertext from a plaintext ScopedPDU by tag |
| `Envelope.DecodeScopedPdu` | src/codec/ber/snmp.rs:310-321 | reads context engine ID, context name and the raw PDU |
| `Envelope.OffsetLocatesAuthParams` | src/codec/ber/snmp.rs:154-268 | for every accepted message: no offset iff the MAC is empty, else the message holds the MAC there and `find_auth_params_offset` agrees |
| `Envelope.UsmHeadSlice` | src/codec/ber/snmp.rs:227-268 | the security parameters hold the MAC at the offset computed from cursor positions |
| `Envelope.EncodeV3Message` | src/codec/ber/snmp.rs:399-439 | writes the message and returns the position of the MAC, none when it is empty |
| `Envelope.EncodeScopedPdu` | src/codec/ber/snmp.rs:328-339 | writes the ScopedPDU |
| `Envelope.EncodeUsmParams` | src/codec/ber/snmp.rs:342-359 | writes the six security parameters |
| `Envelope.EncodeHeaderData` | src/codec/ber/snmp.rs:362-376 | writes the header |
| `Envelope.WrapInOuterSequence` | src/codec/ber/snmp.rs:462-466 | wraps the contents in one SEQUENCE |
| `Envelope.FindAuthParamsOffset` | src/codec/ber/snmp.rs:479-509 | re-reads the message and finds the field, or none when its length is zero |
| `Envelope.LocateInMessage` | src/codec/ber/snmp.rs:479-509 | in a written message the field found is the one written |
| `Envelope.EnvelopeRoundTrip` | src/codec/ber/snmp.rs:154-439 | every field returns, plaintext or encrypted, with the offset of the MAC; msgID below 0, msgMaxSize below 484 or a user name over 32 octets is rejected |
| `Envelope.MessageLayout` | src/codec/ber/snmp.rs:342-439 | the order of all fields with tags and version in numbers |
| `Envelope.HeaderRoundTrip` | src/codec/ber/snmp.rs:186-218 | a header is read back iff its msgID and msgMaxSize are in range |
| `Envelope.OtherVersionsRejected` | src/codec/ber/snmp.rs:154-179 | any version but 3 is reported as such, whatever follows |
| `Envelope.FlagsFieldIsOneOctet` | src/codec/ber/snmp.rs:186-218 | msgFlags of any other length is rejected |
| `Envelope.TrailingOctetsIgnored` | src/codec/ber/snmp.rs:154-179 | octets behind any accepted message change nothing |
| `Envelope.ScopedRoundTrip` | src/codec/ber/snmp.rs:310-339 | a written ScopedPDU is read back, in the clear and after decryption |
| `Envelope.SigningIsSplice` | src/codec/ber/snmp.rs:399-439 | encoding with one MAC equals encoding with another of the same length and overwriting at the offset |
| `Mib.Store.Set` | src/mib.rs:89-91 | the entry is replaced or added, all others stay |
| `Mib.Store.Get` | src/mib.rs:112-115 | present iff stored, with the stored value |
| `Mib.Next` | src/mib.rs:140-144 | the least stored key above the OID with its value, none iff no key is above |
| `Mib.WalkVisitsAbove` | src/mib.rs:140-144 | repeated successors visit every key above the OID once, in increasing order, and no other |
| `Mib.GetNextFollowsWalk` | src/transport/request.rs:97-110 | the r-th GETNEXT answers the r-th key of the walk, and after the last always EndOfMibView without moving |
| `Bulk.HandleGetBulk` | src/transport/request.rs:134-198 | by index: the non-repeaters' successors, then row by row each repeated variable one GETNEXT step further, with the longest run of rows for min(max-repetitions, cap) and the size less 512 |
| `Bulk.BulkIsByIndex` | src/transport/request.rs:134-198 | the same of the specification, with the number of rows |
| `Bulk.BulkCell` | src/transport/request.rs:164-190 | repetition r of repeated variable c stands at n + r*w + c and is its GETNEXT answer after r steps |
| `Bulk.AppendRows` | src/transport/request.rs:164-190 | the row loop commits complete rows until cap, budget or end of view |
| `Bulk.RunRows` | src/transport/request.rs:171-190 | the loop itself: rows are built whole, then committed or dropped |
| `Bulk.BuildRepeatingRow` | src/transport/request.rs:221-243 | answers every column, advances the columns in place, sums the estimates and notices the end |
| `Bulk.ResolveHeads` | src/transport/request.rs:153-162 | answers the non-repeaters and sums their estimates |
| `Bulk.RowCountIsLongest` | src/transport/request.rs:164-190 | the committed rows fit, none but the last is all EndOfMibView, and one more is excluded by cap, end or budget |
| `Bulk.LongestIsUnique` | src/transport/request.rs:164-190 | only one number of rows satisfies that description |
| `Bulk.LengthOfLengthExact` | src/transport/request.rs:317-326 | the count from the bit length is the exact size of the length field |
| `Bulk.EstimateDominates` | src/transport/request.rs:284-326 | the estimate of an element bounds every element with contents within the bound |
| `Bulk.ValueWithinBound` | src/transport/request.rs:284-308 | every value is written within the contents bound of its type |
| `Bulk.EstimateIsUpperBound` | src/transport/request.rs:284-308 | no binding is written with more octets than estimated |
| `Bulk.EstimateIsWorstCase` | src/transport/request.rs:284-326 | the estimate is the exact size of a binding whose name and value take their bounds in full |
| `Bulk.ValueBoundAttained` | src/transport/request.rs:284-308 | every bound is taken in full by some value of the type; an OID's is five octets an arc |
| `Bulk.EstimateCoversList` | src/transport/request.rs:284-308 | no list is written with more octets than the sum of estimates |
| `Bulk.EstimateWithinBudgetIff` | src/transport/request.rs:134-198 | the whole response is estimated within the budget iff the non-repeaters are |
| `Outbound.EncodeV3Envelope` | src/codec/pdu/encode.rs:121-223 | encode with a zero MAC, encrypt, hash, overwrite: the message whose MAC field is the MAC of its placeholder |
| `Outbound.IvLayout` | src/codec/pdu/encode.rs:121-223 | the initialisation vector is engine boots, engine time, salt, most significant octet first |
| `Outbound.SealedDecodes` | src/codec/pdu/encode.rs:121-223 | a sealed message, whatever its header and fields, decodes to them, with its MAC at its offset |
| `Outbound.EncodeV3Response` | src/codec/pdu/encode.rs:282-323 | the response PDU secured that way |
| `Outbound.EncodeV3Report` | src/codec/pdu/encode.rs:427-459 | a Report is an unsecured message of the counter and its value |
| `Outbound.ResponseWithin` | src/transport/request.rs:263-275 | all headers, MAC, salt and identifiers add at most 267 octets to the bindings |
| `Outbound.EstimatedResponseFits` | src/transport/request.rs:134-198 | bindings estimated within the budget give a message within the negotiated size |
| `Outbound.CommittedRowsFit` | src/transport/request.rs:134-198 | with a committed row, or non-repeaters within the budget, the message fits |
| `Outbound.BulkFitsIffHeadsFit` | src/transport/request.rs:134-198 | the message fits iff the size computed from field lengths for the non-repeaters' octets is within the limit |
| `Outbound.SealedSizeExact` | src/codec/ber/snmp.rs:328-439 | the size of any sealed message, element by element |
| `Outbound.ReplySizeExact` | src/codec/pdu/encode.rs:282-323 | the size of a response from the octets of its bindings, identifier lengths, MAC and salt |
| `Outbound.ReplySizeMono` | src/codec/pdu/encode.rs:282-323 | more octets of bindings never give a shorter message |
| `Outbound.NonRepeatersOverrun` | src/transport/request.rs:150-162 | one non-repeater with a 600-octet value overruns a limit of 484 |
| `Framing.ParseBerLength` | src/transport/event_loop.rs:917-940 | the accumulating loop reads a length field of at most four octets, or asks for more, or rejects |
| `Framing.Connection.NextCompleteFrame` | src/transport/event_loop.rs:845-882 | cuts one frame off the buffer, or asks for more, or closes, buffer otherwise unchanged |
| `Framing.Connection.Receive` | src/transport/event_loop.rs:627-734 | after a read, all complete frames are dispatched in order and the rest kept, and the loop ends |
| `Framing.NextFrameStable` | src/transport/event_loop.rs:845-882 | a decision other than waiting is not changed by later octets |
| `Framing.FramingIndependentOfChunking` | src/transport/event_loop.rs:627-734 | every split of a stream into reads gives the frames and the decision to close of the unsplit stream, and while open its leftover |
| `Framing.ChunkingIrrelevant` | src/transport/event_loop.rs:627-734 | reads one by one give the frames, leftover and decision of one read of everything |
| `Framing.CutConserves` | src/transport/event_loop.rs:669-734 | frames and leftover make up the octets received; while open the leftover is below 65535 octets |
| `Framing.CutsAreFrames` | src/transport/event_loop.rs:669-734 | every frame dispatched is a frame by itself, and what is kept is why the cutting stopped |
| `Framing.FrameIsOneElement` | src/transport/event_loop.rs:845-899 | every frame is one SEQUENCE for the reader, nothing trailing |
| `Framing.FrameIffElement` | src/transport/event_loop.rs:845-940 | a readable SEQUENCE is cut as a frame iff its length field and size are within the framer's limits, else the connection closes |
| `Framing.FramerByOctets` | src/transport/event_loop.rs:845-940 | the decision on every buffer, in numbers |
| `Framing.LongLengthFieldCloses` | src/transport/event_loop.rs:917-940 | elements with a six-octet length field are readable and close the connection |
| `Framing.WrittenElementIsFramed` | src/transport/event_loop.rs:845-899 | any written SEQUENCE of at most 65535 octets is cut back out whole |
| `Connections.EventLoop.NextConnectionToken` | src/transport/event_loop.rs:795-810 | the wrapping search returns the first free token and terminates whenever one is free |
| `Connections.TokenCycle` | src/transport/event_loop.rs:795-810 | tokens run from 2 to 2^64 - 1 and then start at 2 again |
| `Connections.EventLoop.RegisterAndInsert` | src/transport/event_loop.rs:535-558 | a registered connection enters under the first free token; a failed registration adds nothing |
| `Connections.EventLoop.AcceptConnections` | src/transport/event_loop.rs:498-528 | every pending connection is accepted or refused in order, up to the limit |
| `Connections.EventLoop.CloseConnection` | src/transport/event_loop.rs:737-744 | removes that connection only |
| `Connections.EventLoop.RecordActivity` | src/transport/event_loop.rs:627-653 | a read renews that connection's time only |
| `Connections.EventLoop.SweepIdleConnections` | src/transport/event_loop.rs:763-787 | near the limit exactly the connections within the pressure timeout stay, otherwise those within the normal one, all with their times |
| `Connections.FreeTokenExists` | src/transport/event_loop.rs:795-810 | below 2^64 - 2 connections a token is free |
| `Connections.FirstFreeUnique` | src/transport/event_loop.rs:795-810 | there is one first free token |
| `Connections.ReachableStatesKeepInvariant` | src/transport/event_loop.rs:498-810 | in every state of every run: at most the limit, all tokens at least 2, the next token valid |
| `Connections.LiveConnectionSurvives` | src/transport/event_loop.rs:498-787 | a live entry leaves iff it is closed or swept while idle, and no accept overwrites it |
| `Connections.ActiveConnectionSurvives` | src/transport/event_loop.rs:498-787 | over any run a connection accepted or read from at time u survives every sweep before u plus the smaller timeout |
| `Connections.IdleConnectionIsSwept` | src/transport/event_loop.rs:763-787 | a sweep leaves no connection idle for both timeouts |
| `Connections.AcceptAllFills` | src/transport/event_loop.rs:498-528 | accepting keeps all entries and fills the table to the limit or by the number registered |
| `Boots.RecordRoundTrip` | src/usm/boots.rs:199-282 | loading a saved record returns it iff the engine ID has at most 32 octets, else it is rejected |
| `Boots.RecordLayout` | src/usm/boots.rs:245-282 | length, engine ID and boots at their places, most significant octet first |
| `Boots.RecordAccepts` | src/usm/boots.rs:199-243 | the loader accepts exactly the records of IDs of at most 32 octets |
| `Boots.FileEngineBootsStore.Load` | src/usm/boots.rs:199-243 | absent, rejected or loaded, from the visible file |
| `Boots.FileEngineBootsStore.Save` | src/usm/boots.rs:245-282 | the disk after write, sync, rename and directory sync, stopped at any of them |
| `Boots.FileEngineBootsStore.InitialiseEngineBoots` | src/usm/boots.rs:138-163 | the value returned and the disk left by a start |
| `Boots.UndisturbedStart` | src/usm/boots.rs:138-163 | over this engine's record Ok(b + 1) iff b is below 2^31 - 1; over none or another's Ok(1); durable when Ok |
| `Boots.CountsFromOne` | src/usm/boots.rs:138-163 | n undisturbed starts from an empty disk give 1 to n, for every n below 2^31 |
| `Boots.UnreadableRefuses` | src/usm/boots.rs:199-243 | a file that cannot be read or is rejected fails the start and stays |
| `Boots.StartKeepsInv` | src/usm/boots.rs:138-163 | a start fails and keeps the bound, or returns more than every earlier value and raises it |
| `Boots.CrashKeepsInv` | src/usm/boots.rs:245-282 | a power loss at any time keeps the bound |
| `Boots.BootsStrictlyIncrease` | src/usm/boots.rs:138-163 | over all runs of starts, errors and power losses of one engine ID, values increase within 1 to 2^31 - 1 |
| `Boots.SoundAlways` | src/usm/boots.rs:245-282 | no run leaves an unsynced file under the final name |
| `Boots.CeilingRefuses` | src/usm/boots.rs:145-152 | at the ceiling every start fails and the disk is untouched |
| `Boots.OkValuesAreRenames` | src/usm/boots.rs:245-282 | the values returned are those of the starts that renamed and did not fail after it |
| `Boots.ReturnedIncreaseIfContiguous` | src/usm/boots.rs:138-282 | over all runs with errors and power losses: values returned increase per ID unless another ID reached the rename in between |
| `Boots.WrittenIncreaseIffContiguous` | src/usm/boots.rs:138-163 | from any disk and whatever errors, without power loss: values written increase per ID iff no ID comes back after another reached the rename |
| `Boots.ReturningEngineIdRestarts` | src/usm/boots.rs:138-163 | an ID used, replaced and used again gets 1, 1, 1 |
| `Boots.LostRenameStillIncreases` | src/usm/boots.rs:245-282 | after a power loss that takes back another ID's rename, values increase although that ID came between |
| `Boots.NoReplayAcrossRestarts` | src/usm/time_window.rs:27-41 | boots and time fields timely in one boot epoch are timely in no later one, and in their own only within 150 seconds |
| `Boots.ProbeNeverTimely` | src/usm/time_window.rs:27-41 | a message with boots zero is never timely |
| `Usm.LevelWindow` | src/transport/dispatch/dispatch_context.rs:66-80 | a level is accepted iff the flags name one between the floor and the user's level |
| `Usm.FlagBits` | src/usm/user.rs:180-200 | auth, priv and reportable by their bit values, and the level they name |
| `Usm.ProtocolLengths` | src/usm/auth.rs:45-65 | key and MAC lengths in octets |
| `Usm.WindowInNumbers` | src/usm/time_window.rs:27-41 | same boots and at most 150 seconds apart, negative wire values read as 2^32 - 1 |
| `Usm.BuiltAgentHasOneLevel` | src/lib.rs:440-461 | a built agent's floor is its user's level, so exactly the configured level passes |
| `Dispatch.DecodeV3Message` | src/codec/pdu/decode.rs:165-242 | the inbound record with its PDU decoded, ciphertext kept, signed fields read as unsigned |
| `Dispatch.ZeroAuthParamsInMessage` | src/transport/dispatch.rs:524-543 | the loop zeroes exactly the field, or nothing when it is out of range |
| `Dispatch.DispatchContext.EmitReportResponse` | src/transport/dispatch/report.rs:91-122 | one counter up by one, saturating; then a Report of that value, or silence |
| `Dispatch.DispatchContext.CheckMessageEnvelope` | src/transport/dispatch.rs:108-149 | security model, then engine IDs, each with its counter |
| `Dispatch.DispatchContext.VerifyAuthentication` | src/transport/dispatch.rs:226-263 | a user with auth credentials needs a valid MAC, else wrongDigests |
| `Dispatch.DispatchContext.VerifyHmac` | src/transport/dispatch.rs:389-402 | the MAC is checked over the message with its field zeroed; no offset means invalid |
| `Dispatch.DispatchContext.RunChecks` | src/transport/dispatch.rs:52-103 | the checks in order, the first failure deciding counters and answer |
| `Dispatch.DispatchContext.DecryptScopedPdu` | src/transport/dispatch.rs:426-512 | decrypts, decodes and checks the inner engine ID and context, each failure with its outcome |
| `Dispatch.DispatchContext.ProcessSnmpv3Request` | src/transport/dispatch.rs:41-103 | counters and answer of one frame |
| `Dispatch.DispatchContext.DispatchPdu` | src/transport/dispatch.rs:327-372 | the handler chosen by PDU type, GETBULK with the smaller of the two size limits |
| `Dispatch.AnswersInNumbers` | src/transport/request.rs:66-198 | request-id, error fields and every binding of each answer; GETBULK with cap 100 and at most 65535 octets; SET refused with 17 and index 1 |
| `Dispatch.CounterOids` | src/usm/counters.rs:92-146 | the arcs of the seven counters, all different |
| `Agent.GateExact` | src/transport/dispatch.rs:52-307 | a PDU reaches its handler iff the message is authorised for it, all conditions at once |
| `Agent.MibGated` | src/transport/dispatch.rs:52-103 | without authorisation counters and answer are the same for every store and salt |
| `Agent.FirstDefectIsReported` | src/transport/dispatch.rs:52-512 | of all defects of a message's fields, MAC and ciphertext the first in order is counted once, and reported iff the sender asks |
| `Agent.FlagMismatchIsSilent` | src/transport/dispatch.rs:208-220 | privFlag and payload in disagreement: no counter, no answer |
| `Agent.OtherContextIsSilent` | src/transport/dispatch.rs:301-307 | another context, in the clear or encrypted: no counter, no answer |
| `Agent.NoKeyIsSilent` | src/transport/dispatch.rs:432-441 | ciphertext to an agent without privacy key: no counter, no answer |
| `Agent.ForeignInsideIsReported` | src/transport/dispatch.rs:491-504 | a ciphertext for another engine moves unknownEngineIDs and is reported iff asked |
| `Agent.EveryRefusalIsCovered` | src/transport/dispatch.rs:52-512 | every refused message has a first defect, a flag mismatch, a foreign inside or another context |
| `Agent.MalformedIsSilent` | src/transport/dispatch.rs:41-50 | octets that do not decode: no counter, no answer |
| `Agent.OnlyAuthenticFramesReadTheStore` | src/transport/dispatch.rs:52-263 | a frame whose effect depends on the store is its zeroed form with that form's MAC spliced in, and timely |
| `Agent.OneCounterPerFrame` | src/transport/dispatch/report.rs:91-122 | at most one counter moves, never with a handler's answer; a Report goes out iff reportable and encodable |
| `Agent.CountedIsReported` | src/transport/dispatch/report.rs:91-122 | the Report of a counted frame carries the counter's OID and new value |
| `Agent.CountersMonotone` | src/usm/counters.rs:58-60 | over any run no counter ever decreases |
| `Agent.ReportedValuesIncrease` | src/transport/dispatch/report.rs:91-122 | over any run the values decoded from the Reports for one counter strictly increase until saturation |
| `Agent.ReportDecodes` | src/codec/pdu/encode.rs:427-459 | a receiver of a Report reads msgID, size, level, engine ID, boots and time, empty user and context, the msgID as request-id, and the counter's OID with the counted value |
| `Agent.ZeroingIsExact` | src/transport/dispatch.rs:524-543 | for every decoded frame with an offset, zeroing and writing the MAC back restores the frame |
| `Agent.SignedMessageVerifies` | src/transport/dispatch.rs:389-402 | the verifier hashes exactly what the signer hashed, so the MAC verifies |
| `Agent.ArrivedHmac` | src/transport/dispatch.rs:389-402 | the MAC check succeeds iff the field is the MAC of the message printed with a zero field |
| `Agent.OneLevelBothWays` | src/lib.rs:440-461 | a built agent admits and answers at the configured level only |
| `Agent.DecodedRanges` | src/codec/ber/snmp.rs:186-268 | every decoded frame has msgID at least 0, msgMaxSize at least 484 and a user name of at most 32 octets |
| `Agent.WireDecodes` | src/codec/pdu/decode.rs:165-242 | the record any printed message decodes to, field by field |
| `Agent.ProperRequestIsServed` | src/transport/dispatch.rs:41-103 | a request sealed with the agent's credentials, any size limit and flags, timely where checked, reaches its handler unchanged and moves no counter |
| `Agent.ProperRequestIsAnswered` | src/transport/dispatch.rs:41-103 | such a request is answered, and the requester reads all of that and what the handler returned for it |
| `Agent.ReplyOpens` | src/transport/dispatch.rs:327-372 | the requester verifies, decrypts and decodes a reply: identifiers, level, engine ID, boots, time, user, salt, default context, and the handler's response with its error fields |
| `Agent.EngineIdComparedIffEncrypted` | src/transport/dispatch.rs:108-149 | an otherwise proper request is admitted iff its msgAuthoritativeEngineID is non-empty and, with privacy, the agent's own |
| `Agent.ForeignEngineIdAdmitted` | src/transport/dispatch.rs:108-149 | a plaintext frame with another engine's msgAuthoritativeEngineID is admitted |
| `Agent.AdmittedEngineId` | src/transport/dispatch.rs:108-149 | admitted ciphertext names this engine; an admitted plaintext record would pass naming any other |
| `Agent.NoFrameIsReplayed` | src/transport/dispatch.rs:268-295 | over all runs of starts, errors and power losses: a frame admitted with credentials in one epoch is refused in every later one |
| `Agent.AnswerIsOneFrame` | src/transport/event_loop.rs:845-882 | an answer within 65535 octets is cut as one frame from any stream that starts with it |
| `Agent.BulkAnswerWithinNegotiatedSize` | src/transport/dispatch.rs:327-372 | an admitted GETBULK with a committed row is answered, iff boots and time are below 2^31, in one frame within both size limits |

## Left out

- HMAC, SHA-2, AES-CFB and key derivation: a MAC of the protocol's length and a length-preserving cipher with an inverse are parameters (`Usm.Primitives`).
- Sockets, polling, wakers and threads: reads are arbitrary chunks, accepts and closes are events, time is a number given by the caller.
- Write errors and write readiness: the model ends at the answer handed to the socket.
- The file system: each call is a step that may fail or be the last before a power loss; rename is atomic, and the entry under the final name is durable only after the directory sync.
- The salt counter and its random start: the salt is a parameter of each reply.
- The engine clock: engine boots and time are parameters of each frame.
- Traps, SNMPv2c responses and the unsecured PDU encoders: they reuse the writers modelled here.
- GET and SET handlers: one lookup and one constant answer each, present only as parts of `Dispatch.DispatchContext.DispatchPdu`.
- Constructors of engine IDs, user names and keys, error texts, key zeroisation: single-branch facts or no function at all.
- Overflow of 64-bit sizes: lengths the program adds as machine words are unbounded here, and encoders require the message to fit in 64 bits, which memory enforces in the program.
- Connections.EventLoop.AcceptConnections: requires a limit of at most 2^64 - 2 connections, because with every token in use the token search of the program would not end.
- Boots.WrittenIncreaseIffContiguous: leaves out power losses, because one may take back a rename; for the values returned in runs with power losses only one direction holds, `Boots.ReturnedIncreaseIfContiguous`, as `Boots.LostRenameStillIncreases` shows.
- Dispatch.DispatchContext.ProcessSnmpv3Request: requires the answer to fit in 64 bits of octets, which memory enforces in the program.
- Dispatch.DecodeV3Message: promotes a decoded PDU with the specification function of the binding list, because the loop is modelled on its own as `Varbinds.DecodeVarbindList`.
- Mib.Store: a map with successor search; the balanced tree behind it is not modelled.
