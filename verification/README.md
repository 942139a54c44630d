# Cell Broadcast Centre: a verified model

A Cell Broadcast Centre takes CAP alerts, prepares them as CBS messages
(TS 23.041), chooses the cells to warn, and delivers the messages to MMEs over
SBcAP (TS 29.168, aligned PER of ITU-T X.691). This project models the parts of
it where a mistake would be silent, and proves what they promise:

- **The wire format** (`Bits`, `Per`, `Pdu`, `Elements`, `Messages`, `Restart`,
  `Wire`, and the cursor classes and loops of `Codec`, `SbcapCodec`,
  `RestartCodec`). The bit writer and reader are classes whose buffer is changed
  bit by bit; each operation is tied to a function on bit sequences, and the
  round trips are proved about those functions at every alignment, through
  nested open types and lists. `Wire` writes every message out as octets, with
  the standard's numbers, and proves that the bit-level encoders produce exactly
  these. Which messages can be encoded at all is stated exactly.
- **Cell selection** (`Segments`, `Geometry`, `Regions`, `Nesting`, `Selection`,
  `MmePlans`, `Preview`). Segment intersection is exact over the reals; whether
  two areas share a point is characterised exactly, and so is the one case the
  program's test misses, which polygons with well-nested holes never are; an odd
  ray count implies containment in the bounding box, and so the bounding-box
  candidate query never loses a matching cell. The preview reports a row if and
  only if it is active, of the network, and meets the area.
- **The MME association** (`Association`, `Answers`, `Reconnect`, `Rebroadcast`).
  A step system whose steps are the lock-protected regions, channel operations
  and returns of blocking calls; its invariant is proved over every
  interleaving, and so is that each call ends in the answer that what happened
  to it calls for. Beside it: reconnect pacing over whole runs, and the exact
  content of what is sent again after an eNB restart.
- **CBS preparation** (`Encoding`, `Charset`, `Container`, `Numerals`, `Serials`,
  `Prepare`, `Updates`). The alphabets and coding schemes by their numbers,
  septet packing, paging, the page container, the serial number allocator over
  all call sequences, one alert's preparation, and what an update of it does to
  its serials; joined in one statement from the text to what the receiver of the
  octets reads.
- **Alert and inventory state** (`Alerts`, `Import`). The in-memory alert index
  against the alerts table, and merge and replace imports as map updates.

Octets are integers from 0 to 255, 16- and 32-bit quantities are bounded
integers with their truncations written out, bit operations are defined on bit
sequences, coordinates are reals, and database tables are maps with
transactions as atomic steps. A clock, an I/O failure, a random identifier or a
text parser of the standard library appears as a parameter.

## Where the code falls short of a stronger reading

- The area intersection test looks at the vertices of the exterior rings only.
  `Regions.TestIsExact` proves that it is right for every pair of polygons but
  one kind: those that share a point only because vertices of inner rings lie
  inside the other, while no edges meet. Genuine holes are never of that kind.
  When the rings of each polygon do not touch, and its inner rings lie inside
  its exterior and outside one another, the test is exact
  (`Nesting.WellNestedIsExact`, and `Nesting.IntersectsIffShare` for whole
  areas), so a shared point is missed only where that nesting, which the parser
  does not ask for, is broken. `Regions.InnerRingMissed` is such an input: a
  polygon of two separate squares, and a square around the second.
- An unsuccessful outcome is matched to the waiting request by procedure alone.
  `Association.MisdeliveredIffSameProcedure`: a refusal that names one request
  can be returned to another exactly when both are of the same procedure.
  `Association.RefusalReachesWrongRequest` is the run.
- An alert that lists itself in its references, and is not a cancel, ends up
  active in memory and superseded in the table
  (`Alerts.SelfReferenceDisagrees`). `Alerts.PerformAgrees` states exactly which
  complete operations keep the two equal; a recovery after start-up that finds
  something to expire does not, because it never removes from the index.
- Expiry and recovery leave the lock around a store call.
  `Alerts.ExpireOverlapExactly` and `Alerts.RecoverOverlapExactly` state exactly
  when an ingest in between is harmless.
- One unfragmented open type holds fewer than 16384 octets, which limits a
  Warning-Area-List to a few thousand entries although its own bound is 65535
  (`Messages.WriteReplaceAccepts`).
- A GSM text that needs more than 1395 septets is refused and not retried in
  UCS-2 (`Encoding.Encode`).
- Scopes are two bits on the wire. Two scopes can yield equal serial numbers
  exactly when they are distinct and equal modulo 4
  (`Serials.ClashIffOverlapping`). The program uses scopes 1 to 3.
- README.md of the repository calls the SBcAP wire format deferred; the code
  implements it, and the model follows the code.

## Model

| member | source | states |
|---|---|---|
| Bits.FromToBits | internal/sbcap/bits.go:12-61 | a number that fits n bits is recovered from its n most-significant-first bits |
| Bits.ToBitsAt | internal/sbcap/bits.go:12-23 | each bit position of the sequence is the shift-and-mask bit the writer tests |
| Bits.OrDisjoint | internal/storage/sqlite/sqlite.go:305 | words that occupy different bit fields OR to their sum |
| Codec.SetNextHolds | internal/sbcap/bits.go:12-23 | setting the next bit keeps the buffer at ceil(n/8) octets, the unused tail zero and every earlier bit unchanged |
| Codec.BitWriter.PutBits | internal/sbcap/bits.go:12-23 | appends exactly the low bits of the value, most significant first, to the bits already written |
| Codec.BitWriter.Align | internal/sbcap/bits.go:26-30 | appends zero bits up to the next octet boundary and nothing else |
| Codec.BitWriter.PutOctets | internal/sbcap/bits.go:34-37 | on an aligned writer appends the octets' bits |
| Codec.BitWriter.Octets | internal/sbcap/bits.go:39 | the buffer is the written bits padded to whole octets |
| Codec.BitReader.GetBits | internal/sbcap/bits.go:49-61 | reads the next bits as a 64-bit number, or fails at the end; the cursor moves forward and stays in the buffer |
| Codec.BitReader.Align | internal/sbcap/bits.go:63-70 | skips to the octet boundary or fails at the end |
| Codec.BitReader.GetOctets | internal/sbcap/bits.go:73-83 | reads whole octets from an aligned cursor, refusing an unaligned one or a length past the end |
| Codec.BitsForMethod | internal/sbcap/aper.go:78-84 | the loop finds the least n with 2^n at least the range |
| Codec.PutConstrainedWholeNumber | internal/sbcap/aper.go:17-40 | writes a constrained whole number in the form its range calls for, or refuses a value outside the range |
| Codec.GetConstrainedWholeNumber | internal/sbcap/aper.go:42-74 | reads a constrained whole number at any cursor, with the errors of the source |
| Codec.PutOpenType | internal/sbcap/aper.go:98-114 | writes alignment, length and content, widening an empty content to one zero octet |
| Codec.GetOpenType | internal/sbcap/aper.go:116-137 | reads an open type, refusing fragments |
| Per.BitsReadBack | internal/sbcap/bits.go:12-61 | bits written anywhere are read back as the same number by the reader at that position |
| Per.NumberReadBack | internal/sbcap/aper.go:17-74 | a constrained number written after any bits is read back, whatever follows, and writing it changes no earlier bit |
| Per.OpenTypeReadBack | internal/sbcap/aper.go:98-137 | an open type written at any alignment is read back octet for octet |
| Per.FieldsReadBack | internal/sbcap/aper.go:17-137 | any sequence of bit, alignment, number and open-type writes, from any starting alignment, is read back value for value by the matching reads |
| Per.WriteFieldsExtends | internal/sbcap/aper.go:17-114 | no sequence of writes changes a bit written before |
| SbcapCodec.PutIEContainer | internal/sbcap/pdu.go:34-50 | the element loop writes the count and every element in order, stopping at the first that cannot be written |
| SbcapCodec.GetIEContainer | internal/sbcap/pdu.go:52-74 | the counted loop reads exactly the elements the bit sequence holds, in order |
| SbcapCodec.FindProtocolIE | internal/sbcap/pdu.go:76-83 | finds the first element with the identifier, and nothing exactly when there is none |
| SbcapCodec.EncodePduMethod | internal/sbcap/pdu.go:122-142 | the imperative PDU encoder computes the specified encoding, errors included |
| SbcapCodec.DecodePduMethod | internal/sbcap/pdu.go:153-186 | the imperative PDU decoder terminates on every octet string and computes the specified decoding |
| SbcapCodec.EncodeWarningAreaListCells | internal/sbcap/ies.go:196-211 | the cell loop writes every E-UTRAN cell of the list in order |
| SbcapCodec.EncodeWarningAreaListTais | internal/sbcap/ies.go:213-228 | the tracking-area loop writes every area of the list in order |
| SbcapCodec.DecodeWarningAreaList | internal/sbcap/ies.go:238-285 | both alternatives of the list are read with the source's errors |
| SbcapCodec.BuildWarningAreaIE | internal/sbcap/messages.go:19-45 | one area element per scope, none for the PLMN, an error for a TAC beyond 16 bits |
| SbcapCodec.EncodeWriteReplace | internal/sbcap/messages.go:56-97 | the imperative request encoder computes the specified request |
| SbcapCodec.EncodeStop | internal/sbcap/messages.go:107-123 | the imperative stop encoder computes the specified request |
| SbcapCodec.DecodeWarningMessageContent | internal/sbcap/ies.go:82-92 | the contents decoder reads what the specification reads, with its errors |
| SbcapCodec.DecodeResponseIds | internal/sbcap/messages.go:171-196 | the response's identifiers, or the refusal of another outcome, another procedure or a missing element |
| Pdu.PduReadBack | internal/sbcap/pdu.go:34-186 | decoding an encoded PDU gives the same choice, procedure, criticality and element list in order, an empty value as one zero octet |
| Pdu.EncodePduAccepts | internal/sbcap/pdu.go:89-142 | a PDU is encoded if and only if its fields are in range and its body is below 16384 octets |
| Pdu.BodyRoom | internal/sbcap/pdu.go:52-116 | every octet string accepted as a body of n elements has at least 3 + 4n octets |
| Pdu.IEsRoom | internal/sbcap/pdu.go:52-74 | the cursor advances at least four octets per element read and never passes the end |
| Elements.IntReadBack | internal/sbcap/ies.go:56-66 | an encoded small integer element decodes to its value |
| Elements.ContentsReadBack | internal/sbcap/ies.go:72-92 | warning contents of 1 to 9600 octets, and only those, are encoded and read back octet for octet |
| Elements.CgisReadBack | internal/sbcap/ies.go:100-146 | any list of E-UTRAN cells with PLMNs is read back in order at any alignment |
| Elements.TaisReadBack | internal/sbcap/ies.go:153-184 | any list of tracking areas is read back in order at any alignment |
| Elements.CellAreaReadBack | internal/sbcap/ies.go:196-285 | a cell-list area element decodes to its PLMN and every cell identity in order |
| Elements.TrackingAreaReadBack | internal/sbcap/ies.go:213-285 | a tracking-area-list element decodes to its PLMN and every TAC in order |
| Elements.CellAreaSize | internal/sbcap/ies.go:196-211 | which cell lists are encoded, and that n cells take 4 + 7n octets |
| Elements.TrackingAreaSize | internal/sbcap/ies.go:213-228 | which tracking-area lists are encoded, and that n areas take 3 + 6n octets |
| Messages.WriteReplaceReadBack | internal/sbcap/messages.go:56-97 | the receiver of an encoded Write-Replace-Warning-Request finds the identifiers, area, repetition, broadcasts, coding scheme, contents and both flags that were requested |
| Messages.WriteReplaceAccepts | internal/sbcap/messages.go:56-97 | exactly which Write-Replace-Warning-Requests can be encoded, in terms of the arguments and their sizes |
| Messages.StopReadBack | internal/sbcap/messages.go:107-123 | a Stop-Warning-Request carries its identifiers and the whole warning area, and no other element |
| Messages.RequestIdsReadBack | internal/sbcap/messages.go:202-227 | the correlation identifiers of either request are read back from its octets |
| Messages.ResponseReadBack | internal/sbcap/messages.go:161-252 | a response reads as a successful outcome of its own procedure with its identifiers and cause, for no other procedure, and never as a request |
| Messages.StopAccepts | internal/sbcap/messages.go:107-123 | exactly which Stop-Warning-Requests can be encoded, in terms of the arguments and their sizes |
| Messages.ResponseAccepts | internal/sbcap/messages.go:232-252 | a response can be encoded if and only if its procedure is one of the two and its cause fits one octet |
| Messages.ErrorIndicationReadBack | internal/sbcap/messages.go:128-157 | an error indication exists exactly for causes 0 to 255 and gives its cause back |
| Restart.EnbIdReadBack | internal/sbcap/restart.go:50-149 | all four eNB identity forms, root and extension, are read back at any alignment |
| Restart.GlobalEnbIdReadBack | internal/sbcap/restart.go:159-186 | a Global-ENB-ID decodes to its PLMN and eNB identity |
| Restart.CellListReadBack | internal/sbcap/restart.go:196-211 | a bounded cell list decodes to its cells in order, under its own size constraint |
| Restart.TaiListReadBack | internal/sbcap/restart.go:223-238 | a restart tracking-area list decodes to its areas in order |
| Restart.RestartReadBack | internal/sbcap/restart.go:264-308 | every PWS-Restart-Indication of the reference encoder decodes to its eNB, cells and areas |
| Restart.FailureReadBack | internal/sbcap/restart.go:325-357 | every PWS-Failure-Indication of the reference encoder decodes to its eNB and cells |
| Restart.WriteReplaceIndicationReadBack | internal/sbcap/restart.go:373-398 | a Write-Replace-Warning-Indication gives its identifiers whatever elements follow them |
| Wire.PduIs | internal/sbcap/pdu.go:34-142 | every encoded PDU, octet by octet: kind, procedure, criticality, lengths in one or two octets, count, and each element with its identifier, criticality and value |
| Wire.WriteReplaceOctets | internal/sbcap/messages.go:56-97 | a broadcast request starts with the octets 0 and 0 and holds the elements 5, 11, 15, 10, 7, 3, 16, 20 and 24 with their criticalities in this order, numbers high octet first |
| Wire.StopOctets | internal/sbcap/messages.go:107-123 | a stop request starts with 0 and 1 and holds the elements 5, 11 and 15 |
| Wire.ResponseOctets | internal/sbcap/messages.go:232-252 | a response starts with 32 and the procedure and holds the elements 5, 11 and 1 |
| Wire.ErrorIndicationOctets | internal/sbcap/messages.go:128-135 | an error indication is procedure 2 with the cause alone |
| Wire.CauselessIndicationRead | internal/sbcap/messages.go:137-157 | an error indication without a cause is understood as such |
| Wire.AreaIs | internal/sbcap/messages.go:19-45 | the area element octet by octet: none, tracking areas of six octets each, or cells of seven |
| Wire.CellListRead | internal/sbcap/ies.go:238-285 | an area of cells of any networks is read in order, with the network of the last |
| Wire.TaiListRead | internal/sbcap/ies.go:238-285 | an area of tracking areas of any networks is read in order, with the network of the last |
| Wire.RestartOctets | internal/sbcap/restart.go:264-308 | the octets of a PWS-Restart-Indication (procedure 5, elements 30, 28 and 31) are decoded to its cells, eNB and areas |
| Wire.FailureOctets | internal/sbcap/restart.go:325-357 | the same for a PWS-Failure-Indication (procedure 6, elements 33 and 28) |
| Wire.WriteReplaceIndicationOctets | internal/sbcap/restart.go:373-398 | the same for the identifiers of a Write-Replace-Warning-Indication (procedure 3) |
| RestartCodec.DecodeEnbId | internal/sbcap/restart.go:60-113 | the cursor-driven identity decoder reads what the specification reads, extension alternatives included |
| RestartCodec.GetNormallySmallNumber | internal/sbcap/restart.go:121-149 | the small-number reader and its refusals |
| RestartCodec.DecodeRestartIndication | internal/sbcap/restart.go:264-308 | the imperative decoder computes the specified indication, so it inverts the reference encoder |
| RestartCodec.DecodeFailureIndication | internal/sbcap/restart.go:325-357 | the same for the failure indication |
| Segments.IntersectIffShare | internal/inventory/geometry.go:263-301 | the orientation test is true if and only if the two closed segments have a common point, degenerate and collinear segments included |
| Geometry.BuildRingsMethod | internal/inventory/geometry.go:74-106 | the ring-building loops accept and close rings as specified and report the first error |
| Geometry.RingsBuilt | internal/inventory/geometry.go:74-106 | coordinates are accepted if and only if every ring has three positions in range, and four once closed; the rings have these positions, longitude first, and end where they start |
| Geometry.RebuildRings | internal/inventory/geometry.go:74-172 | built rings are closed with at least four points, and their stored coordinates build the same rings again |
| Geometry.BoundsLeast | internal/inventory/geometry.go:109-136 | the bounds hold every vertex and lie inside every box that does |
| Geometry.ComputeBounds | internal/inventory/geometry.go:109-136 | the nested loops with the first-point flag compute those bounds |
| Geometry.CountRayCrossings | internal/inventory/geometry.go:198-211 | the edge loop counts the edges whose crossing of the ray lies to the east |
| Geometry.StraddleParity | internal/inventory/geometry.go:198-211 | a ring crosses a latitude an odd number of times exactly when its two ends are on different sides, so a closed one an even number |
| Geometry.OddIsEnclosed | internal/inventory/geometry.go:187-211 | a point with an odd count against a closed ring lies in every box that holds the ring |
| Geometry.InsideIsWithinBounds | internal/inventory/geometry.go:109-211 | a point counted inside a geometry lies within its bounds, holes and several polygons included |
| Geometry.PolygonsIntersect | internal/inventory/geometry.go:235-261 | the vertex and edge loops decide whether some vertex is inside or some edges meet |
| Geometry.Intersects | internal/inventory/geometry.go:216-228 | on built geometries the answer is that of the polygon test alone, the fast reject not mattering |
| Geometry.RejectIsExact | internal/inventory/geometry.go:216-261 | whenever some polygons meet, the bounds overlap, so the fast reject never changes an answer |
| Geometry.IntersectsSymmetric | internal/inventory/geometry.go:216-261 | the intersection test does not depend on the order of its arguments |
| Geometry.IntersectsSound | internal/inventory/geometry.go:216-301 | when the test says yes the two closed regions have a common point |
| Regions.EdgeParity | internal/inventory/geometry.go:198-211 | an edge that meets a segment nowhere changes the two ray counts at its ends together exactly when it enters or leaves the region beside the segment |
| Regions.InsideIsConstant | internal/inventory/geometry.go:187-211 | being inside a polygon cannot change along a segment that meets none of its edges |
| Regions.CommonInside | internal/inventory/geometry.go:235-261 | two polygons with a point inside both, and no meeting edges, have a vertex of one inside the other |
| Regions.ShareIffContact | internal/inventory/geometry.go:235-261 | two closed regions share a point if and only if some edges meet or a vertex of any ring of one lies inside the other |
| Regions.TestIsExact | internal/inventory/geometry.go:235-261 | the polygon test is true if and only if the regions share a point and not through inner rings alone; with one ring each it is exact |
| Regions.IntersectsExactly | internal/inventory/geometry.go:213-228 | for any two areas, exactly when the whole test says yes |
| Regions.InnerRingMissed | internal/inventory/geometry.go:235-261 | two accepted areas with a common interior point for which the test says no |
| Nesting.NotBothInside | internal/inventory/geometry.go:187-211 | of two rings that do not meet, one at most has a vertex inside the other |
| Nesting.EnclosedToo | internal/inventory/geometry.go:187-211 | a ring that reaches into another without meeting it lies inside it with every point it encloses |
| Nesting.InsideIsOutsideHoles | internal/inventory/geometry.go:187-196 | in a well-nested polygon the even-odd count over all rings says inside exactly for the points inside the exterior and in no hole |
| Nesting.WellNestedIsExact | internal/inventory/geometry.go:235-261 | for well-nested polygons the polygon test is true if and only if they share a point, though it looks at no hole's vertices |
| Nesting.IntersectsIffShare | internal/inventory/geometry.go:213-228 | for areas of well-nested polygons the whole test, fast reject included, says whether they share a point |
| Selection.CanonicalReparses | internal/inventory/geometry.go:36-172 | the canonical document stored for an area parses back to the very geometry it was made from |
| Selection.ParsedExactly | internal/inventory/geometry.go:36-72 | exactly which documents are accepted; the parsed area has the document's polygons in order |
| Selection.CheckedIsValidated | internal/inventory/csv.go:244-255 | row validation leaves coverage and bounds both absent or both made from one document |
| Selection.MatchIsCandidate | internal/storage/sqlite/inventory.go:453-481 | an active cell of the PLMN that matches exactly is returned by the candidate query |
| Selection.IndexLosesNothing | internal/inventory/selection.go:73-88 | selecting among the candidates gives the same cells, in the same order and for the same reasons, as selecting among all active cells of the PLMN |
| Selection.Evaluate | internal/inventory/selection.go:73-88 | a cell without coverage is selected if and only if its centre is known and inside some polygon of the area; one with coverage if and only if that shares a point with the area (polygons well nested), and never for its centre |
| Selection.EvaluateExactly | internal/inventory/selection.go:73-88 | the same of the judgement the preview is stated through |
| Selection.CandidatesAre | internal/storage/sqlite/inventory.go:453-481 | the candidate query returns exactly the active rows of the network whose box shares a point with the area's, or whose centre is in it |
| Selection.SelectionIsExact | internal/inventory/service.go:184-204 | a report is selected if and only if it is that of an active row of the network that meets the area, with the row's own identity, area code, eNB and MME |
| MmePlans.TextOrder | internal/inventory/selection.go:111 | plans are ordered by the first differing character of their names |
| MmePlans.BuildMmePlans | internal/inventory/selection.go:90-131 | one plan per MME of a selected cell, ascending by name, each listing exactly that MME's areas and cells, once and ascending |
| Preview.SelectionPreview | internal/inventory/service.go:166-225 | refused exactly for another policy, an unacceptable area or a failing query; otherwise a row is reported if and only if it is active, of the network and meets the area, its MME has a plan, and the warnings are those of the inventory version |
| Association.InvAlways | internal/delivery/delivery.go:57-340 | the association's invariant holds after every run, whatever the interleaving of senders, reader and peer |
| Association.OneJobInFlight | internal/delivery/delivery.go:125-158 | at most one job is registered, it belongs to the holder of the send lock, and a waiting sender's job is that one |
| Association.NilIsEarned | internal/delivery/delivery.go:125-158 | a sender returns nil only if a successful outcome with its own procedure, message identifier and serial was delivered to its own job |
| Answers.ConfirmationReturnsNil | internal/delivery/delivery.go:125-158 | from every reachable state with a sender waiting on a connection being read, a confirming response makes its call return nil |
| Answers.AcceptedRequestReturnsNil | internal/delivery/delivery.go:125-158 | for every request there is a run in which the peer's successful response is all that is received and the call returns nil |
| Answers.LossIsReported | internal/delivery/delivery.go:330-340 | from every such state the loss of the connection is found in the sender's own channel and returned |
| Answers.AnswerIsWhatHappened | internal/delivery/delivery.go:125-158 | over every run, whatever follows, a call ends in the answer its way out calls for: nil, rejection or loss by the verdict taken, timeout, closed channel, failed write, no connection |
| Association.OneResponseOneJob | internal/delivery/delivery.go:279-328 | no received response is accepted for two jobs |
| Association.ClosedOnce | internal/delivery/delivery.go:236-244 | every done channel is closed at most once, and an open one belongs to the connection being served |
| Association.CapturedPair | internal/delivery/delivery.go:70-90 | the connection and channel a sender holds come from one setConn, and that connection has no other channel |
| Association.NoWaiterStranded | internal/delivery/delivery.go:236-244 | a waiting sender's channel is closed and lets it return, or its connection is still served by the maintainer |
| Association.ClosedWithinFourSteps | internal/delivery/delivery.go:236-244 | over every run from the end of the read loop on, whatever the senders do, the channel is closed within four steps of the maintainer, whose next step is possible until then |
| Association.ResponseConfirmsOnly | internal/delivery/delivery.go:304-328 | an encoded response confirms the request it was made for and no other |
| Association.RefusalReachesWrongRequest | internal/delivery/delivery.go:304-328 | a run in which a refusal naming one timed-out request is returned to another request of the same procedure |
| Association.MisdeliveredIffSameProcedure | internal/delivery/delivery.go:304-328 | a refusal naming one request can be returned to another if and only if their procedures are equal |
| Reconnect.Maintain | internal/delivery/delivery.go:215-272 | a dial follows at once after a connection that lived at least the minimum, and otherwise after the backoff in force, which lies between minimum and maximum |
| Reconnect.BackoffInBounds | internal/delivery/delivery.go:215-272 | whatever mix of failures, early drops and long connections, the backoff stays between its minimum and maximum |
| Reconnect.BackoffExactly | internal/delivery/delivery.go:215-272 | after k quick failures in a row the backoff is the minimum doubled k times, capped at the maximum |
| Reconnect.DialsInWindow | internal/delivery/delivery.go:215-272 | a window of length T holds at most 1 + T/min dials |
| Rebroadcast.NarrowTargetToRestart | internal/delivery/delivery.go:455-490 | both loops keep exactly the values that name something restarted, in order, and a PLMN-wide target is never narrowed to itself |
| Rebroadcast.ResentIsExact | internal/delivery/delivery.go:389-490 | a re-sent request keeps identifiers, coding scheme and pages, and its area names exactly the stored cells or tracking areas that restarted, in order, at least one and never the PLMN |
| Rebroadcast.WrappedCodeReachesNobody | internal/delivery/delivery.go:472-486 | a stored code that matches only in its low 16 bits makes the request unencodable |
| Rebroadcast.HandleRestart | internal/delivery/delivery.go:389-450 | the loops send, in order, exactly what is owed to the messages of active records for the cells and areas the indication names, and nothing for a foreign PLMN or when loading fails |
| Rebroadcast.SentExactlyForActive | internal/delivery/delivery.go:389-490 | a request is sent if and only if a message of an active alert's plan has cells or areas the indication names, and then for exactly these, in the stored order |
| Encoding.GsmSeptets | internal/cbs/encoding.go:45-62 | the septets of a text, or the reason it has none |
| Charset.BaseSeptet | internal/cbs/encoding.go:10-19 | a character is the single septet v if and only if it stands at position v of the default alphabet of TS 23.038, given by number |
| Charset.EscapedSeptet | internal/cbs/encoding.go:20 | the ten characters that follow an escape, and their septets |
| Charset.PlainText | internal/cbs/encoding.go:45-62 | letters, digits, space and shared punctuation are sent as their ASCII numbers, in order |
| Charset.Unrepresentable | internal/cbs/encoding.go:45-62 | exactly which characters have no septets |
| Encoding.TextReadBack | internal/cbs/encoding.go:10-62 | un-escaping the septets of any representable text gives the text, and every septet is below 128 |
| Encoding.PackSeptets | internal/cbs/encoding.go:81-92 | the shifting loop puts bit k of septet i at bit 7i + k of the octets and zeros behind |
| Encoding.UnpackPacked | internal/cbs/encoding.go:63-92 | any septets are recovered from their packed octets, whatever pads the page |
| Encoding.FinishPages | internal/cbs/encoding.go:119-128 | 1 to 15 pages are numbered from 1 and share the total, the parameter being 16 times the number plus the total, data unchanged |
| Encoding.GsmPages | internal/cbs/encoding.go:63-80 | 1 to 1395 septets make ceil(n/93) pages, each the packed piece and its padding; any other number is refused |
| Encoding.Ucs2Pages | internal/cbs/encoding.go:93-118 | up to 615 characters of the basic plane make ceil(n/41) pages; each failure has its reason |
| Encoding.GsmPagesReadBack | internal/cbs/encoding.go:63-92 | reading 93 septets a page up to the known length gives the septets; every page has 82 octets |
| Encoding.Ucs2PagesReadBack | internal/cbs/encoding.go:93-118 | reading 41 units a page up to the known length gives the text |
| Encoding.EncodingReadBack | internal/cbs/encoding.go:25-128 | the pages made of an accepted text give it back, and their coding scheme tells which alphabet to read them with |
| Encoding.LanguageIsGsm | internal/cbs/encoding.go:21-44 | no language, in whatever case it is written, gets the coding scheme that stands for UCS-2 |
| Charset.SchemeOfLanguage | internal/cbs/encoding.go:21-44 | the scheme of each of the twenty languages, in either case, and 0x0f for any other |
| Encoding.Encode | internal/cbs/encoding.go:25-44 | accepts exactly the texts that fit, with the reason for each refusal, and the pages it returns give the text back |
| Charset.AcceptedTexts | internal/cbs/encoding.go:25-80 | exactly the texts of at most 1395 septets or, beyond the alphabet, of at most 615 characters of the basic plane |
| Charset.PagesAre | internal/cbs/encoding.go:63-128 | every page octet by octet: seven bits a septet and 0x0d behind, or two octets a character and 0x00 0x0d behind, with the scheme 0x11 for UCS-2 |
| Container.UsedIsShortest | internal/cbs/sbcap.go:95-110 | cutting a page to n octets and refilling restores it if and only if n is at least the used length |
| Container.UsedOctets | internal/cbs/sbcap.go:95-110 | both scanning loops compute that length |
| Container.BuildContents | internal/cbs/sbcap.go:15-31 | builds the container exactly for 1 to 15 well-formed, well-numbered pages |
| Container.ContentsOctets | internal/cbs/sbcap.go:15-31 | the container octet by octet: the count, then 82 octets and a length a page, 82 but for the last, which is its used length |
| Container.ContainerReadBack | internal/cbs/sbcap.go:15-31 | a receiver of the 1 + 83n octets gets back every page, octet for octet |
| Container.PlmnReadBack | internal/cbs/sbcap.go:77-93 | a PLMN is accepted if and only if it has 5 or 6 digits after trimming, and its TBCD octets give all of them back |
| Container.PlmnOctets | internal/cbs/sbcap.go:77-93 | the three octets digit by digit, with or without a dash |
| Container.TargetWire | internal/cbs/sbcap.go:47-70 | every target value becomes its number in order, or the reason it cannot |
| Container.SbcapWriteReplace | internal/cbs/sbcap.go:15-37 | returns the request's octets exactly when there are such octets |
| Container.SbcapStop | internal/cbs/sbcap.go:40-46 | returns the stop request's octets exactly when there are such octets |
| Container.StopNamesTheBroadcast | internal/cbs/sbcap.go:40-46 | the receiver of a stop request reads the identifiers and the warning area of the broadcast it ends |
| Container.TextReachesTheReceiver | internal/cbs/sbcap.go:15-37 | for every text the encoder accepts, through pages, container and request octets, a receiver knowing only the number of units reads the same text, identifiers, coding scheme and area |
| Serials.SerialStore.AllocateCBSSerial | internal/storage/sqlite/sqlite.go:264-306 | the queries and updates of one transaction leave the table, and return the serial, that the run-level results speak of |
| Serials.RunIsValid | internal/storage/sqlite/sqlite.go:264-306 | after any calls the codes of every message identifier and scope are exactly 0 to k-1, one per key, k at most 1024 |
| Serials.SerialFields | internal/storage/sqlite/sqlite.go:305 | the three fields of a serial never overlap |
| Serials.AllocationIsPermanent | internal/storage/sqlite/sqlite.go:264-306 | a granted key keeps its message identifier, scope and code for ever |
| Serials.SerialsNeverClash | internal/storage/sqlite/sqlite.go:264-306 | two keys with one message identifier, of equal scopes or of scopes different modulo 4, never get equal serials, at any two times |
| Serials.SerialMovesByUpdates | internal/storage/sqlite/sqlite.go:291-298 | between two calls for a key its serial changes only in the low four bits, by the number of its update calls modulo 16 |
| Serials.CallExactly | internal/storage/sqlite/sqlite.go:264-306 | after any calls: a key of another identifier or scope is refused, a new key exactly when its group holds 1024, and otherwise the serial is the next code, or the stored one with the update number advanced by an update alone; no other key changes |
| Serials.OverlappingScopesClash | internal/storage/sqlite/sqlite.go:305 | for any two distinct scopes equal modulo 4 the first alerts get the same serial |
| Serials.ClashIffOverlapping | internal/storage/sqlite/sqlite.go:264-306 | some run gives two alerts of given scopes equal serials if and only if the scopes are distinct and equal modulo 4 |
| Prepare.MergedIsUnion | internal/cbs/cbs.go:308-322 | merging keeps the first list, adds exactly the second's new values and repeats nothing |
| Prepare.MergeUnique | internal/cbs/cbs.go:308-322 | the loops with the seen set compute that merge |
| Prepare.FindTarget | internal/cbs/cbs.go:175-203 | merges the four origins of cells and decides the target or its refusal |
| Prepare.TargetIsExact | internal/cbs/cbs.go:175-203 | the target is every resolved cell, each once, or the tracking areas when there are no cells, or the PLMN when there is neither and it is allowed; refused exactly otherwise |
| Prepare.AllocationKeyInjective | internal/cbs/cbs.go:127 | different alerts, message identifiers or scopes never share an allocation key, whatever characters the identifier has |
| Prepare.KeyText | internal/cbs/cbs.go:127 | the key's text, character by character |
| Prepare.Preparer.Prepare | internal/cbs/cbs.go:107-150 | on success every block has its message, in order, with the memoised serial and the pages of its text; on failure the first error, with the allocations made so far |
| Prepare.Preparer.PreparedTextIsReceived | internal/cbs/cbs.go:107-150 | whoever receives the request of a prepared message reads the text of its block, its identifier and the serial allocated for it |
| Prepare.EachAllocationAdvancesOnce | internal/cbs/cbs.go:112-135 | however many blocks an alert has, each allocation it touches advances at most once and no other changes |
| Updates.UpdateReplaces | internal/cbs/cbs.go:112-135 | whatever was prepared before and in between, a message of the next update of an alert has the serial of the alert's message of the same identifier and scope, with the update number advanced by one modulo 16 |
| Updates.NewAlertStartsAtZero | internal/cbs/cbs.go:112-135 | the messages of an alert about which nothing was prepared start at update number 0 |
| Prepare.NeverIncompatible | internal/storage/sqlite/sqlite.go:291-294 | on a table written by preparation alone the incompatibility error does not occur, and the table stays such |
| Prepare.IncompatibleIsUnreachable | internal/storage/sqlite/sqlite.go:291-294 | after any series of alerts the incompatibility error is unreachable |
| Alerts.Store.Upsert | internal/storage/sqlite/sqlite.go:145-180 | the alert's row is written, then its active references retired; nothing when the transaction fails |
| Alerts.Store.Expire | internal/storage/sqlite/sqlite.go:190-224 | deletes and returns exactly the active or expired rows that are due |
| Alerts.Service.Ingest | internal/service/service.go:76-122 | the new index and table; neither changes on a repeat still on record, a failed publish or a failed store |
| Alerts.Service.Expire | internal/service/service.go:127-141 | the deleted rows leave the index too |
| Alerts.Service.Recover | internal/service/service.go:46-63 | the remaining rows override the index |
| Alerts.IngestExactly | internal/service/service.go:76-122 | in both maps: nothing on a repeat or a failure; otherwise the alert with its state, its active references cancelled by a cancel and superseded by anything else, and every other record as it was |
| Alerts.ExpireExactly | internal/service/service.go:127-141 | a record is gone from both maps if and only if its row was active or expired and due; no other changes |
| Alerts.RecoverExactly | internal/service/service.go:46-63 | the same sweep on the table, then each remaining row overrides the index, which loses nothing |
| Alerts.IngestIsIdempotent | internal/service/service.go:76-122 | ingesting an alert twice is ingesting it once |
| Alerts.IngestAgrees | internal/service/service.go:99-121 | starting from equal maps, memory and table stay equal if and only if the alert does not supersede itself |
| Alerts.PerformAgrees | internal/service/service.go:46-141 | exactly which complete operations keep index and table equal |
| Alerts.RunAgrees | internal/service/service.go:46-141 | over any run of recoveries, ingests and expiries that keep the agreement where they happen, index and table stay equal |
| Alerts.StartUpRunAgrees | internal/service/service.go:46-141 | the same from recovery into an empty index on, whatever the table held |
| Alerts.IngestsAndExpiriesKeep | internal/service/service.go:76-141 | ingests of alerts that do not refer to themselves, and expiries, always keep the agreement |
| Alerts.PerformKeepsKeyed | internal/storage/sqlite/sqlite.go:145-224 | every operation keeps each row under its alert's own identifier, as recovery relies on |
| Alerts.SelfReferenceDisagrees | internal/storage/sqlite/sqlite.go:158-173 | the concrete alert whose index and table states differ |
| Alerts.ExpireOverlapExactly | internal/service/service.go:127-141 | an expiry with an ingest between its two halves keeps the agreement if and only if the ingest has no effect, or its alert neither supersedes itself nor is among the lapsed |
| Alerts.OverlapLosesAnAlert | internal/service/service.go:127-141 | a new version of a lapsing alert, ingested in between, stays in the table but is lost from the index |
| Alerts.RecoverOverlapExactly | internal/service/service.go:46-63 | exactly when a recovery with an ingest between its load and its fill leaves index and table equal |
| Import.JoinedInjective | internal/storage/sqlite/inventory.go:26-28 | joined cell keys identify cells whose network codes are digits |
| Import.EcgiSplits | internal/inventory/csv.go:186-188 | the identity rule holds if and only if the ECI's low octet is the local cell and the rest the eNB |
| Import.CellFrom | internal/inventory/csv.go:135-258 | a row yields its cell if and only if it satisfies every rule of the format |
| Import.AcceptedCell | internal/inventory/csv.go:135-258 | an accepted cell has the row's columns one by one, has digit network codes, splits into eNB and local cell, and pairs coverage with bounds |
| Import.StoredCoverage | internal/inventory/csv.go:244-255 | the coverage stored for a row is the area of its document, with the box of that area |
| Import.QualityRules | internal/inventory/csv.go:196-255 | the six qualities, and the two that need a coverage |
| Import.QualityAccepted | internal/inventory/csv.go:196-255 | conversely, a row is accepted with every such quality and every parseable coverage |
| Import.ParseCsv | internal/inventory/csv.go:101-129 | the cells are the acceptable lines whose identity is new, parsing stops only beyond 1000 errors, rows and errors add up, and no error means every line was accepted |
| Import.AcceptedIsUnique | internal/inventory/csv.go:101-129 | no identity occurs twice among the parsed cells and none of an acceptable line is missing |
| Import.ErrorFree | internal/inventory/csv.go:101-129 | a file parses without error if and only if every line is acceptable and all identities differ, and then its cells are kept in order |
| Import.CellStore.ApplyImport | internal/storage/sqlite/inventory.go:179-294 | the loops count as inserted the distinct cells the table lacked, as updated every other line, as deactivated the active rows not mentioned, and leave the table the results below speak of |
| Import.MergeOverrides | internal/storage/sqlite/inventory.go:192-247 | no row is removed, rows the file does not mention are unchanged, and a known cell keeps its row identifier |
| Import.MergeHolds | internal/storage/sqlite/inventory.go:221-241 | after merging, each cell of the file is stored as the file has it |
| Import.ActiveAfterReplace | internal/storage/sqlite/inventory.go:249-280 | after a replacing import the active cells are exactly the file's active cells |
| Import.ReplaceKeepsRows | internal/storage/sqlite/inventory.go:249-280 | a replacing import removes no row and changes an unmentioned one in nothing but its active flag |
| Import.CountsAddUp | internal/storage/sqlite/inventory.go:192-280 | each line is counted once, as a cell the table lacked or as a rewritten one; the table grows by exactly the former, and the rows turned off are exactly the deactivated ones |
| Import.ReapplyChangesNothing | internal/storage/sqlite/inventory.go:179-294 | re-applying a file inserts and deactivates nothing and leaves every row as it was |
| Import.ImportKeepsIds | internal/storage/sqlite/inventory.go:192-247 | no import gives two rows one identifier |
| Import.ImportService.Import | internal/inventory/service.go:64-141 | the inventory changes only when an error-free file is merged or replaced, and the report's numbers add up |
| Import.ReplacedInventory | internal/inventory/service.go:64-141 | after a completed replacing import a cell is active if and only if a line of the file with that network and ECI says so |
| Import.ImportKeepsIndexSound | internal/storage/sqlite/inventory.go:179-294 | every import keeps coverage paired with bounds in every row, which is what the candidate index relies on |

## Left out

- Encoding.Encode: a text is a sequence of code points, so the decoding of UTF-8 is not modelled.
- Container.TargetWire: parsing a value with surrounding spaces and a base prefix is a parameter, `parse`.
- Prepare.Preparer.Prepare: each origin of cells arrives resolved, events arrive classified, and saving the plan is not modelled.
- Reconnect.Maintain: durations are unbounded integers, so an overflow of the doubled backoff in 64 bits is not captured.
- Association.InvAlways: how a write is given up at its deadline is one step that fails; the peer's PDUs are arbitrary octet strings.
- Alerts.Service.Ingest: the publisher is a yes-or-no parameter; the nil-store and nil-publisher configurations are not modelled.
- Alerts.Store.Expire: which expiry times have passed is a parameter; expiry instants are compared as text in the source.
- Import.ParseCsv: header checks and the text of messages are not modelled; lines arrive as fields or as a wrong field count, and errors are bounded on both sides rather than counted one by one.
- Import.CellFrom: whether a field's text is a number or a boolean arrives decided. The texts of NaN and infinity are not modelled, for the real numbers have no such values: the source parses them, all its range comparisons (internal/inventory/csv.go:209-242) are false for a NaN, so a NaN latitude, longitude, radius, azimuth or beamwidth is accepted there, and so is an infinite radius.
- Import.ImportService.Import: the audit record's name, digest and time stamps are not modelled.
- Import.CellStore.ApplyImport: the version row, the audit record and time stamps are not modelled.
- Aliasing: the octets a reader returns share the source's buffer; the model copies them.
- Publishing a whole plan to several peers in order, and the queue of restart handlers on one association beyond their use of the send lock.
- Single-cell creation and deletion, and the geocode registry.
- Circle approximation, event classification, and the collection of geocodes from CAP areas.
- The C-library codec variant, SCTP dialing, XMPP, HTTP, CSV tokenizing, configuration loading, logging, metrics, audit rows and the web interface.
- SQL text, JSON and decimal floating-point text: tables are maps, stored documents and numbers are carried exactly, and coordinates are reals, so nothing is said of bit-level floating point.
