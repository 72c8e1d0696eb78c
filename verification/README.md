# Verification of tokmon's deterministic core

This project models the parts of tokmon whose behaviour is decided by the code alone and proves what
they promise. Eight pieces are covered:

- **CBOR and Snow frames.** The encoder and the decoder of `nyxia/base/cbor.cpp`, once as functions on byte
  strings and once as the classes `Encoder` and `Decoder` that append to an output and move a cursor, and the
  frames of `protocol/` on top of them. Sections 3, 4.2.1 and 4.2.3 of RFC 8949 name the properties:
  self-delimiting items, shortest arguments, length-first key order.
- **Wavefront merging.** `Wavefront` as a class over its bands, its id index and its byte count, proved against
  seven merge laws on sets of cells; `IncidentWave::connect` as the batch form, behind the cut the propagator makes.
  Which runs of merges fail and why, when their order matters, what they hold where it does not, and when the batch
  form gives the same list.
- **Clotho workflows.** Acceptance of a workflow graph, the state folded from a log, the view that proposes
  acts and the photons that executed acts emit, all of it told by the photons alone; then a transition system over logs with one accepted definition
  fixed. A step executes an act proposed on the current log, starts or ends an act that answers a dispatch, or
  adds an operator's pause, resume, cancel or retry. The theorems quantify over every reachable log.
- **Glob matching.** The two-index loop with its one saved retry point, against the recursive meaning.
- **The hash chain.** What a photon's hash covers, the integrity check, and what a tail hash commits to.
- **Windows command lines.** Quoting and joining, against Microsoft's rules "Parsing C command-line arguments".
- **UTF-8 repair and bounding**, against sections 3 and 4 of RFC 3629.
- **Two agreement protocols.** The validation handshake between request handlers and the configuration worker,
  and the incremental document index against a rebuild.

Code that changes things step by step is modelled by methods and classes with loops and fields; each such
method is proved against a function of its inputs or of its old state, and the theorems are about that function.
What such a function and its method have in common, such as an order, a prefix or a limit, is told a second time in
terms of its own and proved equal: bytes and numbers in `CborBytes`, `SnowBytes`, `HashBytes` and `WindowsExamples`,
fields of cells in `CellOrder` and `MergeReasons`, photons in `ClothoPhotons`, paths of a graph in `ClothoCycles`, and
paths of documents in `ReindexPaths`.

## Where the code does not do what one would expect

Each entry names a lemma that shows it at an input or for a whole family, and the exact condition where there is one.

- A glob `*` does not match a value character `*` as a wildcard: `*` refuses `*a` (`Glob.StarRefusesStarValue`). The code
  decides the usual meaning for every pattern exactly for the values without `*` (`Glob.AgreesExactlyOnStarFreeValues`).
- Under `top_k` the order of arrival can decide what a scope holds: if the lesser of two cells with one schema, key and
  value comes first, the better one is turned away, and a third cell can take its place (`MergeRuns.LesserTwinFirst`);
  `connect` keeps the better one (`IncidentWave.BatchKeepsBetterTwin`). A lens produces such cells by emitting one key and
  value at two priorities. Every order leaves the same cells, and the list that `connect` gives, exactly when none of the
  best cells shares its schema, key and value with another (`MergeRuns.OrderIsFreeExactly`,
  `IncidentWave.TopKAgreesExactly`).
- Lowering the limit of a `top_k` scope between merges can shrink the store while the merge reports no change
  (`MergeRuns.LoweredLimitDropsACell`); `MergeRuns.ReportIsTrueExactly` says exactly when a report is true, and with one
  limit for a scope it always is.
- For `product` and `optional_single`, two cells with equal values are one value to `Wavefront::merge` and one too many to
  `IncidentWave::connect` (`MergeRuns.ProductTakesTwins`, `IncidentWave.ConnectRefusesTwins`, and exactly in
  `IncidentWave.SingleLawsDiffer`). A limit of zero is no limit to a merge and allows nothing to `connect`
  (`IncidentWave.ZeroLimitDiffers`).
- `write_message` sends payloads that `read_message` refuses: the message map costs one of the 64 levels of nesting, and
  collections beyond 1,000,000 items are written but not read (`SnowLimits.SentAndRefused`, exactly in
  `SnowFrame.FrameRoundTrip`).
- A Windows program name that needs quotes and ends in a backslash, or holds a quote, does not reach the child unchanged
  (`WindowsQuoting.ProgramsThatChange`); all further arguments do (`WindowsQuoting.CommandLineRoundTrip`, exactly).
- A photon with a NUL in its id, ray, parent, kind or schema shares its hash material with a different photon
  (`HashChain.NulBreaksInjectivity`), and so does one with a NUL and a number behind it, up to the end or the next NUL,
  in its previous hash (`HashChain.NumberBreaksInjectivity`). These are all: every such photon collides
  (`HashChain.AmbiguousCollides`), and on all others the material is injective (`HashChain.MaterialIsInjective`).
- Under `top_k` the input of a port is cut down by priority and id before `connect` sees it, while `connect` would order
  by path and key ahead of the id and drop duplicates first. With room for one, a cell of a later path can displace the
  best one (`PortInput.CutDropsTheBest`), and twins take places that other cells should have
  (`PortInput.TwinsTakePlaces`). `PortInput.CutIsHarmlessExactly` and, for distinct cells, `PortInput.CutOfDistinctCells`
  say exactly when the cut changes nothing.
- Given an id twice, first with new content and then with the indexed content, `rag.reindex` leaves the index on the new
  one (`Reindex.RepeatedIdCanDisagree`, exactly in `Reindex.ReindexAgreesWithRebuild`).
- A configured root that is no directory, or no longer one, is skipped, and the documents indexed under it stay for good,
  where a rebuild drops them (`Reindex.GoneRootKeepsItsDocuments`, `Reindex.UnwalkedPathStays`). The index agrees with a
  rebuild under all configured roots exactly when, besides, every absent path under a configured root is under a walked
  one (`Reindex.ReindexAgreesWithRebuild`).
- A file beyond the first 4096 of the walk that was indexed before is buried as absent although it is there
  (`Reindex.FileBeyondTheCut`). `Reindex.RunAgreesExactly` puts both conditions together for a whole run.
- A Clotho node whose failure is carried on after and whose retry is then skipped by its `when` is counted twice, so a
  workflow can be called completed while a node that may run never ran (`ClothoCount.CompletedTooEarly`; the exact count
  is `ClothoCount.FinishedCount`).
- A retry asked for a Clotho node in flight frees its place while its act still runs, so that two acts run in a workflow
  with one place (`ClothoPlaces.TwoActsInOnePlace`). The acts dispatched and not ended number at most `max_parallel` plus
  the retries asked for nodes in flight (`ClothoPlaces.RunningActsAreBounded`).
- A dispatched compensation, and the record of a failed one, leave no trace in the folded state, so the same act is
  proposed again (`ClothoCompensation.CompensatedInVain`); of all acts these are exactly the ones proposed again
  (`ClothoCompensation.ProposedAgainExactly`). From a failed compensation on, nothing is started and nothing compensated
  until an act compensating that node ends with success (`ClothoCompensation.NothingStartsMeanwhile`), which remains
  possible (`ClothoCompensation.LateSuccessIsPossible`).

## Model

| member | source | states |
|---|---|---|
| `CborMachine.Encoder.PushBytes` | nyxia/base/cbor.cpp:26-34 | The shift loops append the big-endian bytes of the value and nothing else. |
| `CborMachine.Encoder.WriteArgument` | nyxia/base/cbor.cpp:14-35 | Appends the shortest head of RFC 8949 section 4.2.1 for the major type and the argument. |
| `CborMachine.Encoder.EncodeValue` | nyxia/base/cbor.cpp:37-74 | Appends exactly the encoding of any value; earlier output is kept. |
| `CborMachine.Encoder.EncodeArray` | nyxia/base/cbor.cpp:56-58 | The loop over the items appends their encodings in order behind the count. |
| `CborMachine.Encoder.EncodeMap` | nyxia/base/cbor.cpp:59-73 | The loop over the sorted entries appends the encoding that takes the least key first. |
| `CborMachine.SortKeys` | nyxia/base/cbor.cpp:61-68 | Sorting the entries gives every key once, shorter keys first and equal lengths in byte order. |
| `CborMachine.NextKeyIsLeast` | nyxia/base/cbor.cpp:64-68 | In the sorted list the next key is the least of the keys left, so the order written is the canonical one of RFC 8949 section 4.2.3. |
| `CborMachine.Decoder.Argument` | nyxia/base/cbor.cpp:91-107 | Reads the argument, moves the cursor past it, and reports truncated, indefinite and reserved lengths. |
| `CborMachine.Decoder.TakeBytes` | nyxia/base/cbor.cpp:103-106 | The shift loop yields the big-endian value of the next bytes and moves the cursor past them. |
| `CborMachine.Decoder.ReadValue` | nyxia/base/cbor.cpp:109-198 | Reads one value at the cursor, or fails with the same error, for every input and every depth; the cursor ends where the value does. |
| `CborMachine.Decoder.ReadArray` | nyxia/base/cbor.cpp:150-162 | Reads an announced number of items one level deeper. |
| `CborMachine.Decoder.ReadMap` | nyxia/base/cbor.cpp:163-180 | Reads an announced number of entries; a key that is no text and a repeated key are errors. |
| `CborMachine.Decoder.DecodeAll` | nyxia/base/cbor.cpp:81-88 | A value followed by anything is refused; otherwise the result is that of reading from the start. |
| `CborTheorems.HeadReadsBack` | nyxia/base/cbor.cpp:14-35 | A written head is read back as the same major type and argument, with the cursor at what follows. |
| `CborTheorems.ReadsBack` | nyxia/base/cbor.cpp:37-198 | Self-delimiting (RFC 8949 section 3): for every value within the limits, reading its encoding followed by anything gives exactly the value and what follows. |
| `CborTheorems.DecodeEncode` | nyxia/base/cbor.cpp:245-255 | Decoding the encoding of a value within the limits gives the value. |
| `CborTheorems.EncodingIsPrefixFree` | nyxia/base/cbor.cpp:37-74 | No encoding is a proper prefix of another: equal texts that start with two encodings mean equal values and equal rests; no limits are assumed. |
| `CborTheorems.EncodingIsInjective` | nyxia/base/cbor.cpp:37-74 | Comparing encodings is comparing values. |
| `CborBytes.HeadByBytes` | nyxia/base/cbor.cpp:14-35 | A head is the major type in the three high bits and the argument in the low five or in 1, 2, 4 or 8 big-endian bytes, the fewest it fits in. |
| `CborBytes.ArgumentByBytes` | nyxia/base/cbor.cpp:91-107 | Which bytes an argument is read from and what they denote, by their weights; when it is truncated or reserved. |
| `CborBytes.InitialByteDecides` | nyxia/base/cbor.cpp:109-198 | What each initial byte of the simple values is read as, and which initial bytes are refused with which error. |
| `CborBytes.ArgumentIsTaken` | nyxia/base/cbor.cpp:117-180 | By the range of the initial byte: the integer, string or collection an argument announces, and when it is out of range. |
| `CborBytes.KeyOrderByBytes` | nyxia/base/cbor.cpp:64-67 | Of two keys the shorter comes first, and of two of one length the one with the smaller byte where they first differ. |
| `CborBytes.MapByBytes` | nyxia/base/cbor.cpp:59-73 | A map is its head followed by its entries under a list of all its keys, each key before all later ones in that order. |
| `CborBytes.TwoKeys` | nyxia/base/cbor.cpp:59-73 | The bytes of a map of two keys. |
| `CborBytes.IntegerExamples` | nyxia/base/cbor.cpp:40-46 | Integers as in Appendix A of RFC 8949, up to two argument bytes. |
| `CborBytes.WideIntegerExamples` | nyxia/base/cbor.cpp:40-50 | Integers of four and eight argument bytes and a double, as in Appendix A. |
| `CborBytes.SimpleExamples` | nyxia/base/cbor.cpp:37-74 | Simple values and empty strings, arrays and maps as in Appendix A. |
| `CborBytes.StringExamples` | nyxia/base/cbor.cpp:50-55 | A byte string and a text as in Appendix A. |
| `CborBytes.ArrayExample` | nyxia/base/cbor.cpp:56-58 | An array as in Appendix A. |
| `CborBytes.LettersExample` | nyxia/base/cbor.cpp:59-73 | The map {"a": 1, "b": [2, 3]} as in Appendix A: keys of one length in byte order. |
| `CborBytes.LengthsExample` | nyxia/base/cbor.cpp:59-73 | In {"b": 1, "aa": 2} the key b comes first although aa is before it in byte order. |
| `CborBytes.NumberAsKey` | nyxia/base/cbor.cpp:169-173 | A key that is no text is refused. |
| `CborBytes.TwiceTheKey` | nyxia/base/cbor.cpp:174-178 | A repeated key is refused. |
| `CborBytes.OneTooMany` | nyxia/base/cbor.cpp:81-88 | A second value behind the first is refused. |
| `CborCanonical.EntriesLength` | nyxia/base/cbor.cpp:59-73 | Whichever entry is taken first, a map of the same entries has an encoding of the same length. |
| `CborCanonical.ReadSound` | nyxia/base/cbor.cpp:109-198 | Whatever is read respects the depth and item limits, and its encoding is no longer than the bytes read. |
| `CborCanonical.ReadWider` | nyxia/base/cbor.cpp:109-198 | What is read under some limits is read the same under wider ones. |
| `CborCanonical.DecodeSound` | nyxia/base/cbor.cpp:252-255 | Whenever decoding succeeds, the value respects the limits and re-encodes into no more bytes. |
| `CborCanonical.DecodeEncodeIff` | nyxia/base/cbor.cpp:245-255 | The decoder takes what the encoder wrote exactly when the value is within the limits. |
| `CborCanonical.CanonicalIffEncoding` | protocol/snow_transport.cpp:158-162 | The payloads that pass the check that re-encoding gives the same bytes are exactly the encodings of values within the limits. |
| `CborCanonical.ReencodingIsIdempotent` | protocol/snow_transport.cpp:158-162 | Re-encoding a decoded payload keeps the value, passes the check, and changes nothing the second time. |
| `CborCanonical.CanonicalIsUnique` | protocol/snow_transport.cpp:158-162 | Two payloads that pass the check are the same bytes exactly when they denote the same value. |
| `CborCanonical.LongFormIsAcceptedButNotCanonical` | nyxia/base/cbor.cpp:91-107 | The decoder accepts more than the encoder emits: a small integer in two bytes decodes and fails the check. |
| `SnowFrame.KindReadsBack` | protocol/snow_protocol.cpp:19-66 | The text of each of the thirteen kinds is decoded to that kind. |
| `SnowFrame.MessageReadsBack` | protocol/snow_protocol.cpp:38-73 | A message survives the trip through its map, 64-bit ids through signed integers included. |
| `SnowFrame.HeaderReadsBack` | protocol/snow_transport.cpp:58-78 | The fields written into the 32 bytes are the fields read from them. |
| `SnowFrame.HeaderWritesBack` | protocol/snow_transport.cpp:58-78 | Every 32 bytes are the header they are read as: no bit of a header is ignored. |
| `SnowFrame.MessageFits` | protocol/snow_protocol.cpp:38-43 | The message map is within the 64 levels exactly when the payload is within 63. |
| `SnowFrame.FrameRoundTrip` | protocol/snow_transport.cpp:149-182 | Reading a written frame followed by anything gives the same message and consumes exactly the frame if the payload nests at most 63 levels with collections in bounds; otherwise the reader refuses it. |
| `SnowLimits.SentAndRefused` | protocol/snow_transport.cpp:149-182 | A payload 64 levels deep and one with 1,000,001 items are written, and the reader refuses them. |
| `SnowLimits.DeepestIsRead` | protocol/snow_transport.cpp:149-182 | A payload 63 levels deep is written and read back. |
| `SnowLimits.MessageLength` | protocol/snow_transport.cpp:171-174 | The message map adds at most 168 bytes to its payload, so a payload that much below the limit is sent. |
| `SnowFrame.AcceptedFrame` | protocol/snow_transport.cpp:149-169 | Whatever a reader accepts is a header with the right magic and major, then a canonical payload of the announced size that names the same ids. |
| `SnowFrame.ConversationRoundTrip` | protocol/snow_transport.cpp:149-182 | Any messages sent one after the other and then a close are heard exactly: none lost, changed or added. |
| `SnowBytes.HeaderByBytes` | protocol/snow_transport.cpp:70-78 | The seven fields of a header, each at its offset and by the weights of its bytes. |
| `SnowBytes.RefusedByBytes` | protocol/snow_transport.cpp:149-158 | Too few bytes, a wrong magic, a wrong major, too large or a missing payload are refused in this order, told by the bytes. |
| `SnowBytes.MessageByFields` | protocol/snow_protocol.cpp:45-73 | What any value is read as: no map and an unknown or missing kind are refused; ids are taken modulo 2 to the 64th, missing ones as zero, a missing payload as an empty map. |
| `SnowBytes.KindIsKnown` | protocol/snow_protocol.cpp:52-66 | A text is read as a kind exactly when it is the text of that kind. |
| `SnowBytes.EnvelopeByBytes` | protocol/snow_protocol.cpp:38-43 | The payload of every frame, entry by entry: kind, cursor, payload, request id. |
| `SnowBytes.SentUpToLimit` | protocol/snow_transport.cpp:171-182 | A message is sent exactly up to 16 MiB of payload, with that length in its header. |
| `SnowBytes.PingExample` | protocol/snow_transport.cpp:171-182 | All 72 bytes of one frame. |
| `SnowTransport.Put16` | protocol/snow_transport.cpp:31-34 | Overwrites two bytes of the buffer with the big-endian value and leaves the others. |
| `SnowTransport.Put` | protocol/snow_transport.cpp:35-42 | The loop overwrites the bytes of the field with the big-endian value and leaves the others. |
| `SnowTransport.Get` | protocol/snow_transport.cpp:43-56 | The accumulating loop reads the big-endian field. |
| `SnowTransport.EncodeHeader` | protocol/snow_transport.cpp:58-68 | The buffer holds the seven fields at their offsets, all 32 bytes determined. |
| `SnowTransport.DecodeHeader` | protocol/snow_transport.cpp:70-88 | Wrong magic, wrong major and too large a payload are refused, in that order; all else is the header. |
| `SnowTransport.Channel.ReadMessage` | protocol/snow_transport.cpp:149-169 | Consumes one frame of the incoming bytes and yields its message, or the failure of the first check that fails. |
| `SnowTransport.Channel.WriteMessage` | protocol/snow_transport.cpp:171-182 | Appends the frame of the message, or nothing when the payload is too large. |
| `SnowTransport.CheckPayload` | protocol/snow_transport.cpp:158-168 | Decoding, the canonical check, the message and the ids are checked in that order. |
| `FieldCells.StableOrderIsTotal` | nyxia/base/wavefront.cpp:38-44 | Cells of different ids are always ordered one way and never both ways. |
| `FieldCells.StableOrderIsTransitive` | nyxia/base/wavefront.cpp:38-44 | The stable order is transitive. |
| `FieldCells.StableOrderByFields` | nyxia/base/wavefront.cpp:38-44 | One cell is before another exactly by falling priority, then rising path, then keys and at last ids by their first differing byte. |
| `FieldCells.SortedByFields` | nyxia/base/wavefront.cpp:38-44 | A list is sorted exactly when any two of its cells are in that order. |
| `FieldCells.SortedListIsUnique` | nyxia/base/wavefront.cpp:38-44 | A set of cells has exactly one list in stable order. |
| `BandLists.SortCells` | nyxia/base/wavefront.cpp:354-354 | Sorting gives the same cells in stable order. |
| `BandLists.FindWorst` | nyxia/base/wavefront.cpp:358-359 | The search from the back finds the greatest cell of the scope in a sorted band. |
| `BandLists.FindKey` | nyxia/base/wavefront.cpp:331-334 | The search finds the least cell of the scope with the key in a sorted band, or that there is none. |
| `MergeLaws.MergeStaysInScope` | nyxia/base/wavefront.cpp:295-301 | A merge changes its own scope only, adds nothing but the new cell, and keeps ids distinct. |
| `MergeLaws.TopKeepIsTop` | nyxia/base/wavefront.cpp:355-365 | Dropping the worst cell while there are too many leaves the least ones, as many as the limit allows. |
| `MergeLaws.TopIsUnique` | nyxia/base/wavefront.cpp:355-365 | There is only one set of the k least cells. |
| `MergeLaws.TopIffFewBefore` | nyxia/base/wavefront.cpp:355-366 | A cell survives the trimming to k cells exactly when fewer than k cells of its scope come before it. |
| `MergeLaws.TopKeepStep` | nyxia/base/wavefront.cpp:349-366 | Keeping the top of what was kept and one more is keeping the top of everything that arrived. |
| `MergeOrder.SetUnionStep` | nyxia/base/wavefront.cpp:306-310 | Under `set_union` the store keeps one cell for each schema, key and value, and the step fails exactly on too many values. |
| `MergeOrder.MapUnionStep` | nyxia/base/wavefront.cpp:311-320 | Under `map_union_unique` the step fails exactly on a key with a different schema or value, or on too many keys. |
| `MergeOrder.PriorityStep` | nyxia/base/wavefront.cpp:330-345 | Under `priority_then_path` the store keeps the least cell of each key that arrived. |
| `MergeOrder.SingleStep` | nyxia/base/wavefront.cpp:323-329 | Under the single-value laws the step fails exactly when a different value arrives. |
| `MergeOrder.ConcatStep` | nyxia/base/wavefront.cpp:346-348 | Under `stable_concat` every new cell is kept until the limit is reached. |
| `MergeOrder.WantedSurvives` | nyxia/base/wavefront.cpp:349-366 | Under `top_k` a stored cell that is among the best of all that will arrive survives every further arrival. |
| `MergeOrder.TopKStep` | nyxia/base/wavefront.cpp:306-366 | Under `top_k`, where no best cell has a twin, each arrival keeps the best of those that have arrived. |
| `MergeOrder.TopOfLeastPerValue` | nyxia/base/wavefront.cpp:98-132 | Where no best cell has a twin, dropping the lesser twins first and then taking the best gives the best of all. |
| `MergeOrder.WantedWithTwin` | nyxia/base/wavefront.cpp:306-310 | Otherwise some best cell, itself the best of its value, has a lesser twin. |
| `MergeRuns.RunIsDetermined` | nyxia/base/wavefront.cpp:292-367 | For any sequence of merges: it fails exactly when the cells that arrived in some scope are not acceptable to its law, and otherwise each scope whose order of arrival is free holds what its law keeps of them; only under `top_k`, with a twin of a best cell, is the order not free. |
| `MergeRuns.OrderDoesNotMatter` | nyxia/base/wavefront.cpp:292-367 | The same cells in any two orders, with repeats: both runs fail or neither does, and every scope whose order is free holds the same values, under `top_k`, `priority_then_path` and `stable_concat` the same cells. |
| `MergeRuns.OnlineTopK` | nyxia/base/wavefront.cpp:355-366 | Under `top_k` with a limit a scope whose order is free ends with the least of the cells that arrived, up to the limit. |
| `CellOrder.KeptComeFirst` | nyxia/base/wavefront.cpp:349-366 | Under `top_k` every cell held comes before every cell that arrived and is not held, in priority, path, key and id. |
| `CellOrder.HeldForKeyComesFirst` | nyxia/base/wavefront.cpp:330-345 | Under `priority_then_path` the cell held for a key comes before every other cell of the key that arrived. |
| `CellOrder.FirstIsKept` | nyxia/base/wavefront.cpp:349-366 | Of any two cells of different values with room for one, the one that comes first is kept in either order of arrival and listed first by connecting. |
| `CellOrder.EachFieldDecides` | nyxia/base/wavefront.cpp:38-44 | Four pairs of cells, kept for the priority, the path, the key and the id although the fields behind speak for the other. |
| `CellOrder.PrefixComesFirst` | nyxia/base/wavefront.cpp:42-43 | A key comes before every key that continues it. |
| `MergeRuns.OrderIsFreeExactly` | nyxia/base/wavefront.cpp:292-367 | Under `top_k`, with or without a limit, every order and repetition of the cells of a scope leaves the best of them exactly when no best cell shares its schema, key and value with another cell. |
| `MergeRuns.TwoOrdersDiffer` | nyxia/base/wavefront.cpp:306-310 | Otherwise there are two orders of the same cells of which one leaves the best of some value and the other does not. |
| `MergeRuns.LesserTwinFirst` | nyxia/base/wavefront.cpp:306-366 | Three cells with room for one: if the lesser of two twins comes first the third cell is left, otherwise the better twin. |
| `MergeRuns.MapUnionFailure` | nyxia/base/wavefront.cpp:311-348 | Under `map_union_unique` a run fails exactly when two cells of a scope share a key with different schema or value, or a scope has too many keys. |
| `MergeReasons.RejectionIsTrue` | nyxia/base/wavefront.cpp:311-348 | The error a run of merges ends with is true of the cells that arrived: a key with two schemas or values, a second value where one is allowed, or more cells of one band, producer and port than the limit. |
| `MergeReasons.OthersAreUntouched` | nyxia/base/wavefront.cpp:295-301 | A merge leaves alone every cell that differs in band, producer or output port. |
| `MergeReasons.EqualValuesMeet` | nyxia/base/wavefront.cpp:295-310 | Of two cells with one schema, key and value the second is dropped exactly when both are of one band, producer and port. |
| `MergeRuns.RunStaysWithinLimits` | nyxia/base/wavefront.cpp:346-365 | Over any sequence of merges with one policy for each scope, every limit holds. |
| `MergeRuns.MergeKeepsLimitAndReports` | nyxia/base/wavefront.cpp:292-367 | With one policy for each scope, a merge keeps the limit and reports true exactly when the stored cells changed. |
| `MergeRuns.LoweredLimitMisreports` | nyxia/base/wavefront.cpp:355-366 | With a lowered limit the store can shrink while the merge reports that nothing changed. |
| `MergeRuns.LoweredLimitDropsACell` | nyxia/base/wavefront.cpp:355-366 | Two cells stored, room for one, a third and worst one arrives: a cell is gone and the report says nothing changed. |
| `MergeRuns.ReportIsTrueExactly` | nyxia/base/wavefront.cpp:292-367 | Whatever the limits were before: the report is true exactly unless a `top_k` scope holds more than its limit and as many cells as the limit come before the new one. |
| `MergeRuns.ProductTakesTwins` | nyxia/base/wavefront.cpp:323-329 | Under `product` a merge takes two cells of one value as one. |
| `Wavefront.Wavefront.Merge` | nyxia/base/wavefront.cpp:292-367 | Stored cells, result and error are those of the merge law on the set of stored cells; the bands stay sorted and non-empty although a new band is made before the law is consulted, the ids distinct and indexed, the byte count the sum of the encoded sizes; an error changes nothing. |
| `Wavefront.Wavefront.Trim` | nyxia/base/wavefront.cpp:355-365 | The loop that drops the worst cell leaves the least cells of the scope and touches nothing else. |
| `Wavefront.Wavefront.Admit` | nyxia/base/wavefront.cpp:349-366 | The new cell is stored and counted; the result says whether it is still there after trimming. |
| `Wavefront.Wavefront.Replace` | nyxia/base/wavefront.cpp:335-344 | The cell of the same key gives way to the lesser one, in band, index and byte count. |
| `Wavefront.Wavefront.MergeEach` | nyxia/engine/optical_assembly.cpp:619-633 | The loop over emitted cells, each under the law and limit of its port, is a run of merges continued from whatever was merged before; it fails exactly when the whole run does, the budgets decide by the number and bytes of the stored cells, and when no change is reported there was none. |
| `MergeReasons.PolicyOfOutput` | nyxia/engine/optical_assembly.cpp:619-627 | The law and limit of a cell by its band, lens and port: the declared ones, a set up to the budget where none is declared, and proposals always by key. |
| `MergeReasons.ProposalsConflict` | nyxia/engine/optical_assembly.cpp:619-628 | Two values for one key of an undeclared output: refused in the band `act.proposal`, both held in any other. |
| `MergeReasons.TotalSizeIsTheSum` | nyxia/base/wavefront.cpp:349-353 | The byte count is the sum of the lengths of the encoded values. |
| `Wavefront.Wavefront.Select` | nyxia/base/wavefront.cpp:374-386 | Exactly the stored cells of one output of a producer, over all bands, by falling priority, then path, key and id. |
| `Wavefront.ReportIsTrue` | nyxia/base/wavefront.cpp:292-367 | In any run with one policy for each scope, a merge reports a change exactly when there is one. |
| `IncidentWave.IncidentWave.Connect` | nyxia/base/wavefront.cpp:88-144 | The port gets what the stages give on the sorted cells; an error stores nothing; only a sealed connection seals the port. |
| `IncidentWave.UniqueIdsSorts` | nyxia/base/wavefront.cpp:90-93 | Sorting and dropping repeated ids leaves the sorted list of the distinct cells. |
| `IncidentWave.FirstPerValueSorts` | nyxia/base/wavefront.cpp:98-106 | Keeping the first of each schema, key and value leaves the sorted list of the least cell of each. |
| `IncidentWave.FirstPerKeySorts` | nyxia/base/wavefront.cpp:107-130 | Keeping the first of each key leaves the sorted list of the least cell of each key. |
| `IncidentWave.FrontIsTop` | nyxia/base/wavefront.cpp:131-132 | The front of a sorted list is its least cells. |
| `IncidentWave.ConnectIsDetermined` | nyxia/base/wavefront.cpp:88-144 | For every law that takes several cells: connecting fails exactly when the cells are not acceptable to the law or the port takes one cell and more remain, and otherwise holds in stable order what the law keeps; under `top_k` the best of the best cells of each value. |
| `CellOrder.ConnectedInOrder` | nyxia/base/wavefront.cpp:88-144 | A port lists its cells by falling priority, then path, key and id, under every law. |
| `MergeReasons.ConnectRefusal` | nyxia/base/wavefront.cpp:107-140 | Which of the three errors connecting ends with: a key with two values, more than one cell for a port that takes one, or more cells than its limit. |
| `IncidentWave.OnlineAgreesWithBatch` | nyxia/base/wavefront.cpp:88-367 | Where the order of arrival is free, online merging and connecting the same cells agree: the values are the same, under `top_k`, `priority_then_path` and `stable_concat` the list, cell by cell, and connecting fails exactly when the port takes one cell and more are stored. |
| `IncidentWave.TopKAgreesExactly` | nyxia/base/wavefront.cpp:88-367 | Under `top_k` every order and repetition of the cells of a scope leaves the list that connecting gives exactly when no best cell shares its schema, key and value with another. |
| `IncidentWave.BatchKeepsBetterTwin` | nyxia/base/wavefront.cpp:98-132 | Of the three cells for which the order matters online, connecting keeps the better twin. |
| `IncidentWave.SingleLawsDiffer` | nyxia/base/wavefront.cpp:133-137 | Under `product` and `optional_single`, `connect` takes at most one cell; it decides as a merge does exactly unless there are several cells, all of one value. |
| `IncidentWave.ConnectRefusesTwins` | nyxia/base/wavefront.cpp:133-137 | The twins that a merge takes under `product` are one cell too many to `connect`. |
| `IncidentWave.ZeroLimitDiffers` | nyxia/base/wavefront.cpp:131-140 | With a limit of zero `connect` accepts no cells, except that under `top_k` it drops them all. |
| `PortInput.SortRough` | nyxia/engine/optical_assembly.cpp:520-523 | The same cells, by priority and then by id. |
| `PortInput.RoughOrderByFields` | nyxia/engine/optical_assembly.cpp:520-523 | One cell is before another exactly by falling priority, then by the first differing byte of their ids. |
| `PortInput.ConnectSelected` | nyxia/engine/optical_assembly.cpp:518-528 | The port gets what connecting gives on the cells the cut leaves; only an input for `top_k` with too many cells is cut. |
| `PortInput.CutKeepsTheFirst` | nyxia/engine/optical_assembly.cpp:519-524 | Every cell left has a higher priority than every cell dropped, or the same and the smaller id. |
| `PortInput.HeldAfterCut` | nyxia/engine/optical_assembly.cpp:518-528 | After the cut a port of many cells holds, in stable order, the best of each schema, key and value among the cells left. |
| `PortInput.CutIsHarmlessExactly` | nyxia/engine/optical_assembly.cpp:518-528 | The port holds what it would without the cut exactly when the cut leaves all of that and besides only cells that share schema, key and value with one of these. |
| `PortInput.CutOfDistinctCells` | nyxia/engine/optical_assembly.cpp:518-528 | For cells of distinct ids and values the cut changes nothing exactly when each of the best cells comes before all others by priority and id as well. |
| `PortInput.CutDropsTheBest` | nyxia/engine/optical_assembly.cpp:518-528 | Two cells of one priority with room for one: without the cut the port holds the one of the earlier path, with it the one of the smaller id. |
| `PortInput.TwinsTakePlaces` | nyxia/engine/optical_assembly.cpp:518-528 | Twins at priorities 5 and 4 and a cell at 3 with room for two: the cut leaves the twins, and the port holds one cell where it would hold two. |
| `ClothoGraph.WorkflowNodes` | lenses/clotho/clotho_lens.cpp:93-175 | Accepts exactly the definitions with well-formed nodes, known dependencies and a rank function, and returns the same nodes sorted by id; each refusal names its cause, the first malformed node included. |
| `ClothoGraph.Resolves` | lenses/clotho/clotho_lens.cpp:162-172 | The resolution loop terminates and resolves every node exactly when some rank function puts each dependency before its node. |
| `ClothoGraph.ResolutionPass` | lenses/clotho/clotho_lens.cpp:164-169 | One pass keeps the resolved nodes in an order that respects dependencies; without progress every unresolved node waits for another. |
| `ClothoGraph.NoRankWhenStuck` | lenses/clotho/clotho_lens.cpp:170-171 | When every unresolved node waits for an unresolved one, no rank function exists. |
| `ClothoGraph.OrderIsImmaterial` | lenses/clotho/clotho_lens.cpp:173-174 | Acceptance does not depend on the order of the nodes. |
| `ClothoGraph.NoCycles` | lenses/clotho/clotho_lens.cpp:162-172 | In an accepted graph ranks rise along every dependency path, so nothing is its own ancestor. |
| `ClothoCycles.RankIffAcyclic` | lenses/clotho/clotho_lens.cpp:162-172 | A rank exists exactly when no path leads from a node back to itself. |
| `ClothoCycles.AcceptedByFields` | lenses/clotho/clotho_lens.cpp:93-175 | A definition is accepted exactly when it has nodes with non-empty and different ids, known policies, 1 to 100 attempts, needs that name other nodes of it, and no cycle. |
| `ClothoCycles.SortedByBytes` | lenses/clotho/clotho_lens.cpp:173-174 | The order of the nodes is that of their ids by the first differing byte. |
| `ClothoLog.ReadState` | lenses/clotho/clotho_lens.cpp:191-242 | One pass over any log, with the final removal of settled nodes, computes the folded state. |
| `ClothoLog.StateMeaning` | lenses/clotho/clotho_lens.cpp:191-242 | For every log and node: what each part of the state says about the photons: membership, the last of a failure, a dispatch and a retry, the number of dispatches. |
| `ClothoPhotons.ActsMeaning` | lenses/clotho/clotho_lens.cpp:222-231 | For every log: an act works for what its latest start says. |
| `ClothoPhotons.EndsMeaning` | lenses/clotho/clotho_lens.cpp:224-237 | For every log: an end is remembered for a node or its compensation exactly as the last act working for it ended, and of a node's own work only until the node is dispatched or retried again. |
| `ClothoView.View` | lenses/clotho/clotho_lens.cpp:366-486 | On any definition and log: a schema error exactly for unacceptable graphs, otherwise the status cell and what the view relation says on the sorted nodes and the folded state. |
| `ClothoView.Propose` | lenses/clotho/clotho_lens.cpp:373-486 | The status; then nothing when cancelled, paused or finished, else the first unrecorded outcome, else the first unrecorded compensation, else the first failure that blocks, else the steps. |
| `ClothoView.First` | lenses/clotho/clotho_lens.cpp:393-395 | Iterating a sorted container begins with its least id. |
| `ClothoView.CountFinished` | lenses/clotho/clotho_lens.cpp:376-381 | The finished count is succeeded plus skipped plus the failures carried on after. |
| `ClothoView.FindBlocking` | lenses/clotho/clotho_lens.cpp:413-434 | The first failed node in id order that is out of attempts and stops the workflow or is to be compensated, or that there is none. |
| `ClothoView.IsEligible` | lenses/clotho/clotho_lens.cpp:457-474 | A node may start exactly when it has no outcome, is not in flight, has an attempt left if it failed, and each dependency succeeded, was skipped, or failed in a way that is carried on after. |
| `ClothoView.CountGroups` | lenses/clotho/clotho_lens.cpp:440-444 | The counters hold the number of nodes in flight of each group. |
| `ClothoView.ProposeSteps` | lenses/clotho/clotho_lens.cpp:436-485 | The loop with its counters for places and groups proposes the eligible nodes in order while places are left, and passes over full groups. |
| `ClothoPhotons.NodeByPhotons` | lenses/clotho/clotho_lens.cpp:413-474 | Whether a node may start, and whether it stands in the way, read off the photons and the fields of the definition. |
| `ClothoPhotons.StepsByPhotons` | lenses/clotho/clotho_lens.cpp:436-485 | The steps of a log are of nodes that may start, in node order, each with its dispatches plus one as the attempt and skipped exactly when its condition is not met by the photons; a node that may start is left out only when all places, or those of its group, are taken. |
| `ClothoPhotons.ViewByPhotons` | lenses/clotho/clotho_lens.cpp:391-485 | For every log of an accepted definition, which acts the view proposes, told by photons and fields: nothing when cancelled, paused or full; else the first outcome to record, the first compensation to record, the answer to the first failure for good, or the steps. |
| `ClothoPhotons.CountByPhotons` | lenses/clotho/clotho_lens.cpp:375-381 | The finished count is the number of completed, plus of skipped, plus of failed and carried on after, told by the photons. |
| `ClothoPhotons.ReportByPhotons` | lenses/clotho/clotho_lens.cpp:382-390 | The status cell told by the photons and the count. |
| `ClothoSteps.ProposedIsDue` | lenses/clotho/clotho_lens.cpp:391-485 | Every act of a view is due: its node eligible with a place and a group place free, or its outcome unrecorded, or its compensation owed. |
| `ClothoSteps.StepsFitTogether` | lenses/clotho/clotho_lens.cpp:436-485 | All steps of one view together with the nodes in flight keep to max_parallel and to every group limit. |
| `ClothoSteps.SomeStepIsProposed` | lenses/clotho/clotho_lens.cpp:455-485 | With a place free, an eligible node with room in its group makes the loop propose some step. |
| `ClothoRuns.EndsAnswerDispatches` | lenses/clotho/clotho_lens.cpp:224-237 | In every reachable log an act that ended for a node answers an earlier dispatch of that node. |
| `ClothoRuns.ReachableIsSane` | lenses/clotho/clotho_lens.cpp:191-242 | In every reachable log outcomes belong to known nodes, only nodes with work are dispatched, fail or are in flight, and no node both succeeds and fails or is skipped. |
| `ClothoRuns.OutcomesAreExclusive` | lenses/clotho/clotho_lens.cpp:191-242 | Over whole runs `succeeded` is disjoint from `skipped` and from `failed`, and all of them are nodes of the definition. |
| `ClothoRuns.EmptyNodesNeverRun` | lenses/clotho/clotho_lens.cpp:548-564 | A join or an empty node is never dispatched and never fails. |
| `ClothoRuns.FailureAnswersDispatch` | lenses/clotho/clotho_lens.cpp:537-547 | A recorded failure answers an earlier dispatch of the same node. |
| `ClothoTheorems.NeedsComeFirst` | lenses/clotho/clotho_lens.cpp:455-485 | In every reachable log, before any photon about a node each dependency has completed, was skipped, or failed under a policy that carries on or with its compensation completed. |
| `ClothoTheorems.AncestorsComeFirst` | lenses/clotho/clotho_lens.cpp:157-172 | The same for every transitive ancestor, along any dependency path. |
| `ClothoTheorems.LimitsHold` | lenses/clotho/clotho_lens.cpp:436-485 | In every reachable log the nodes in flight number at most max_parallel, and those of a group at most its limit. |
| `ClothoPhotons.LimitsByPhotons` | lenses/clotho/clotho_lens.cpp:436-454 | The same in numbers: four places unless others are given, one at least, and for a group those of the workflow unless others are given. |
| `ClothoTheorems.BatchKeepsLimits` | lenses/clotho/clotho_lens.cpp:436-485 | The limits also hold when any acts of one view are executed together, in any order. |
| `ClothoPlaces.AccountIsKept` | lenses/clotho/clotho_lens.cpp:191-242 | In every reachable log the dispatches number the nodes in flight, the outcomes recorded for nodes in flight and the retries asked for nodes in flight, together; and these outcomes and the nodes in flight with an unrecorded end are no more than the acts that ended. |
| `ClothoPlaces.RunningActsAreBounded` | lenses/clotho/clotho_lens.cpp:436-485 | In every reachable log the dispatches exceed the ends of acts started for nodes by at most max_parallel plus the retries asked for nodes in flight. |
| `ClothoPlaces.TwoActsInOnePlace` | lenses/clotho/clotho_lens.cpp:207-214 | A reachable run of a workflow with one place: dispatch, retry request, dispatch, with no act ended. |
| `ClothoTheorems.RetriesAreBounded` | lenses/clotho/clotho_lens.cpp:457-461 | In every reachable log a node was dispatched at most as often as its attempts allow, once where none are given, plus once for each retry request naming it. |
| `ClothoTheorems.WorkIsProposed` | lenses/clotho/clotho_lens.cpp:391-485 | With nothing in flight, no failure in the way and the count not full, a node without an outcome makes the view propose something. |
| `ClothoTheorems.ProgressIsProposed` | lenses/clotho/clotho_lens.cpp:391-485 | In every reachable log with nothing in flight, nothing failed, not paused or cancelled and some node unfinished, the view proposes at least one act. |
| `ClothoTheorems.NothingRunsOnceCancelled` | lenses/clotho/clotho_lens.cpp:391-391 | After a cancellation no node is ever dispatched, skipped, completed or failed, and no compensation dispatched. |
| `ClothoTheorems.OutcomeIsFinal` | lenses/clotho/clotho_lens.cpp:393-401 | Once a node completed or was skipped, no photon ever touches it again. |
| `ClothoTheorems.TerminalMeaning` | lenses/clotho/clotho_lens.cpp:224-237 | For every log: an unrecorded end stands for an act started for the node that ended so after the latest dispatch and retry of the node. |
| `ClothoTheorems.RecordsAreTrue` | lenses/clotho/clotho_lens.cpp:393-401 | In every reachable log a node with work is recorded completed or failed only as an act started for it ended so, after its latest dispatch and retry. |
| `ClothoTheorems.ConditionDecides` | lenses/clotho/clotho_lens.cpp:252-270 | In every reachable log a node is dispatched, or completed without work, only while the photons meet its condition, and skipped only while they do not: a step that completed, that was skipped, or that last failed; without a condition it is never skipped, and for any other status never dispatched. |
| `ClothoTheorems.ConditionIsMet` | lenses/clotho/clotho_lens.cpp:252-270 | For every log the condition of a node is what the photons say of the step it names. |
| `ClothoCompensation.ViewIsUnique` | lenses/clotho/clotho_lens.cpp:391-485 | A state has one view. |
| `ClothoCompensation.ProposedAgainExactly` | lenses/clotho/clotho_lens.cpp:403-434 | An executed act of a view is among the acts of the next view exactly when it is a compensation or the record of a failed one. |
| `ClothoPhotons.CompensationRecordsAreTrue` | lenses/clotho/clotho_lens.cpp:403-412 | A compensation is recorded as completed or failed only as the last act compensating the node ended so. |
| `ClothoPhotons.CompensationIsOwed` | lenses/clotho/clotho_lens.cpp:413-434 | A compensation is dispatched only for a node that failed for good, whose policy says so and that gives a compensating act. |
| `ClothoCompensation.NothingStartsMeanwhile` | lenses/clotho/clotho_lens.cpp:403-434 | In every reachable log, from a failed compensation of a node on, as long as no act compensating it ends with success, no view starts a node or proposes a compensation. |
| `ClothoCompensation.LateSuccessIsPossible` | lenses/clotho/clotho_lens.cpp:232-237 | From such a log a success of another compensating act is a possible continuation, and is then to be recorded. |
| `ClothoCompensation.CompensatedInVain` | lenses/clotho/clotho_lens.cpp:403-434 | A reachable run in which a compensation is proposed, again once dispatched, fails, and the record of its failure is proposed, again once made. |
| `ClothoCount.FinishedCount` | lenses/clotho/clotho_lens.cpp:376-391 | The finished count is the number of nodes that are over plus the number counted twice; with none counted twice it is full exactly when all nodes are over, and otherwise never when all are. |
| `ClothoCount.CompletedTooEarly` | lenses/clotho/clotho_lens.cpp:376-391 | A reachable run in which the count is full, the status is completed and the view proposes nothing although a node that may run never did. |
| `Glob.WildcardMatch` | nyxia/config/config.cpp:606-621 | Terminates and, for every pattern and every value, decides the recursive meaning in which a star that meets a star of the value is literal. |
| `Glob.FirstMatchIsLeftmost` | nyxia/config/config.cpp:613-616 | Why one saved retry point is enough: whatever a later stretch of the star reaches, the first match reaches too. |
| `Glob.AcceptedIsMeant` | nyxia/config/config.cpp:606-621 | Never a false positive: what the code accepts, the usual meaning accepts. |
| `Glob.MeantIsAccepted` | nyxia/config/config.cpp:606-621 | For values without `*`, what the usual meaning accepts the code accepts. |
| `Glob.AgreesExactlyOnStarFreeValues` | nyxia/config/config.cpp:606-621 | The code agrees with the usual meaning on every pattern exactly for the values without `*`. |
| `Glob.MeansWithoutStars` | nyxia/config/config.cpp:606-621 | The usual meaning of a pattern without a star: as many characters, each equal or under a question mark. |
| `Glob.MeansAtStar` | nyxia/config/config.cpp:606-621 | The usual meaning of a pattern with one: what precedes its first star fits the beginning, and the rest of the pattern matches some remainder. |
| `Glob.StarRefusesStarValue` | nyxia/config/config.cpp:610-612 | The pattern `*` refuses the value `*a`. |
| `Glob.AnyMatch` | nyxia/config/config.cpp:623-626 | No patterns accept everything; otherwise some pattern must accept. |
| `HashChain.HashMaterial` | lenses/tracket/tracket_lens.cpp:14-30 | The material is the seven fields, the encoded payload, and the fields behind it, each field ended by a NUL. |
| `HashBytes.MaterialByFields` | lenses/tracket/tracket_lens.cpp:14-30 | The eleven fields in their order, each ended by a NUL but the last. |
| `HashBytes.DecimalDenotes` | lenses/tracket/tracket_lens.cpp:18-27 | Numbers are written in the decimal digits that denote them, without a leading zero. |
| `HashBytes.MaterialExample` | lenses/tracket/tracket_lens.cpp:14-30 | The material of one photon, byte by byte. |
| `HashChain.MaterialIsInjective` | lenses/tracket/tracket_lens.cpp:14-30 | Two photons with no NUL in id, ray, parent, kind and schema and no number behind a NUL in the previous hash have equal material exactly when they are equal up to the own hash and an absent or empty parent; payload and causing act may hold NULs. |
| `HashChain.NulBreaksInjectivity` | lenses/tracket/tracket_lens.cpp:14-30 | Every photon with a NUL in its id, ray, parent, kind or schema shares its material with a different photon. |
| `HashChain.NumberBreaksInjectivity` | lenses/tracket/tracket_lens.cpp:14-30 | Every photon whose previous hash holds a NUL with a number behind it, up to the end or the next NUL, shares its material with a photon of another previous hash and sequence. |
| `HashChain.AmbiguousCollides` | lenses/tracket/tracket_lens.cpp:14-30 | Every photon that `MaterialIsInjective` leaves out shares its material with a photon of other content, so the condition is exact. |
| `HashChain.VerifyWindow` | lenses/tracket/tracket_lens.cpp:32-58 | Reports exactly the violations of the window, in order, and none exactly when the window is sound. |
| `HashChain.Inspect` | lenses/tracket/tracket_lens.cpp:42-53 | The codes of one photon, in order, given the ids and acts seen before it. |
| `HashChain.NoViolationsIffSound` | lenses/tracket/tracket_lens.cpp:32-58 | No violations exactly when every photon continues its predecessor, carries its own hash, has a fresh id, its identity fields, an earlier or own parent, and an act that is known. |
| `HashBytes.CodesByReason` | lenses/tracket/tracket_lens.cpp:42-53 | Each of the seven codes is reported of a photon exactly for its own reason, once and in this order. |
| `HashBytes.ViolationsByReason` | lenses/tracket/tracket_lens.cpp:32-58 | A violation with a sequence, an id and a code is reported exactly where a photon of the window gives the reason. |
| `HashChain.SharedTailMeansSuffix` | lenses/tracket/tracket_lens.cpp:32-58 | Of two sound windows of such photons with the same tail hash, under a hash that tells their materials apart, the shorter is a suffix of the longer. |
| `WindowsQuoting.QuoteWindowsArgument` | lenses/common/process_runner.cpp:54-75 | The loop with its backslash counter computes the quoted form: runs doubled before quotes and at the end, kept elsewhere. |
| `WindowsQuoting.BuildCommand` | lenses/common/process_runner.cpp:125-169 | An empty argument vector or program name is refused, and so is an argument that is no UTF-8; otherwise the quoted forms of the decoded arguments are joined by single spaces. |
| `WindowsExamples.UnquotedExactly` | lenses/common/process_runner.cpp:54-57 | An argument is left as it is exactly when it is not empty and holds no space, tab or quote. |
| `WindowsExamples.OneSpaceApart` | lenses/common/process_runner.cpp:157-169 | Arguments that need no quotes stand one space apart. |
| `WindowsExamples.SeparatesArguments` | lenses/common/process_runner.cpp:157-169 | The child separates arguments at a space and a tab and at no other ordinary character. |
| `WindowsExamples.NulEndsTheLine` | lenses/common/process_runner.cpp:157-169 | To the child, a NUL ends the command line. |
| `WindowsExamples.BackslashesBeforeQuote` | lenses/common/process_runner.cpp:54-75 | To the child, backslashes before a quote count half, and an odd one makes the quote a character. |
| `WindowsExamples.BackslashesElsewhere` | lenses/common/process_runner.cpp:54-75 | To the child, backslashes before any other character are themselves. |
| `WindowsExamples.ProgramEndsAt` | lenses/common/process_runner.cpp:157-169 | To the child, the program name ends at the first space or tab outside quotes. |
| `WindowsQuoting.QuoteParses` | lenses/common/process_runner.cpp:54-75 | A quoted argument followed by a blank or the end is parsed to the argument, empty ones and backslash runs included. |
| `WindowsQuoting.FurtherParses` | lenses/common/process_runner.cpp:157-169 | For every list of NUL-free arguments after the program name, joining and parsing returns the list. |
| `WindowsQuoting.QuotedProgramParses` | lenses/common/process_runner.cpp:157-169 | The program name is parsed to itself plus the doubled part of its trailing backslashes. |
| `WindowsQuoting.CommandLineRoundTrip` | lenses/common/process_runner.cpp:157-169 | The child sees the vector it was given exactly when no argument holds a NUL and the program name holds no quote and, if it is quoted, does not end in a backslash. |
| `WindowsQuoting.ProgramsThatChange` | lenses/common/process_runner.cpp:54-75 | Two program names that reach the child changed: one with a blank and a trailing backslash, one with a quote. |
| `Utf8.WidthIsGrammar` | lenses/common/utf8.hpp:12-40 | The scanner accepts a sequence of n octets exactly when the grammar of section 4 of RFC 3629 has a character there. |
| `Utf8.CharsArePrefixFree` | lenses/common/utf8.hpp:12-40 | No character is a prefix of another, so the scan has no choices. |
| `Utf8.CharsAreScalars` | lenses/common/utf8.hpp:12-40 | The characters are the octets, by section 3 of RFC 3629, of the code points up to U+10FFFF that are no surrogates. |
| `Utf8.ValidUtf8` | lenses/common/utf8.hpp:44-51 | True exactly for sequences of grammar characters. |
| `Utf8.BoundedUtf8` | lenses/common/utf8.hpp:55-73 | The loop keeps whole units of the repaired text while they fit. |
| `Utf8.BoundedIsLongestValidPrefix` | lenses/common/utf8.hpp:55-73 | The result is valid, within the bound, and the longest such prefix of the repaired text, hence of the text itself when that is valid. |
| `Utf8.RepairUtf8` | lenses/common/utf8.hpp:75-79 | The result is the fully repaired text, valid, and the input itself exactly when that is valid. |
| `Utf8.CharIsKept` | lenses/common/utf8.hpp:55-79 | Repair keeps a character and goes on behind it. |
| `Utf8.ByteIsReplaced` | lenses/common/utf8.hpp:55-79 | A byte at which no character begins is replaced by the octets of U+FFFD, and repair goes on at the next byte. |
| `Utf8.ReplacedIsIdentityExactlyOnValid` | lenses/common/utf8.hpp:75-79 | Repairing changes nothing exactly when there is nothing to repair. |
| `Utf8.RepairIsIdempotent` | lenses/common/utf8.hpp:75-79 | Repairing twice is repairing once. |
| `Utf8.ReplacedAtMostTriples` | lenses/common/utf8.hpp:77-78 | Three times the size is room enough, so repair never truncates. |
| `Handshake.Boot.RequestValidation` | apps/tokmond/main.cpp:880-889 | A forced request, and any request when nothing was requested before, raises the generation by one, and the state is starting without an error; any other changes nothing. |
| `Handshake.Boot.Publish` | apps/tokmond/main.cpp:1588-1598 | The generation is completed; its verdict is published only if no newer one was requested. |
| `Handshake.Boot.Turn` | apps/tokmond/main.cpp:1557-1598 | The worker loop on the shared variables, cut where other threads may run in between, does what the step relation says. |
| `Handshake.StepKeepsInv` | apps/tokmond/main.cpp:1555-1608 | Every step of a handler or of the worker keeps the invariant of the handshake. |
| `Handshake.RequestStarts` | apps/tokmond/main.cpp:880-889 | The same as a step of the system: the worker and the last verdict stay as they are. |
| `Handshake.RequestIsIdle` | apps/tokmond/main.cpp:882-883 | A later unforced request only takes time. |
| `Handshake.GenerationsAreRequests` | apps/tokmond/main.cpp:880-889 | In every interleaving the generations requested number the forced requests and the first request, and there is one exactly when there was a request. |
| `Handshake.NoStaleVerdict` | apps/tokmond/main.cpp:1555-1608 | In every interleaving completed never exceeds requested, a visible verdict comes from a check begun after the latest request, and after the first request the state is starting exactly while requested and completed differ. |
| `Handshake.NoRequestIsLost` | apps/tokmond/main.cpp:1555-1608 | After any history with a request, the worker publishes a fresh verdict within seven of its own steps. |
| `Handshake.WorkMakesProgress` | apps/tokmond/main.cpp:1555-1608 | Each step of the worker brings it one step closer to having completed what was requested. |
| `Handshake.RequestDuringCheckOutdatesIt` | apps/tokmond/main.cpp:1588-1598 | A forced request during a check keeps that check from being published. |
| `Reindex.Index.Previous` | lenses/enso/enso_lens.cpp:358-367 | One pass over the log computes the current revision of every path. |
| `Reindex.Index.IndexDocument` | lenses/enso/enso_lens.cpp:372-400 | Nothing is emitted for an unchanged document, else its photon and its chunks, counted. |
| `Reindex.Index.WalkRoots` | lenses/enso/enso_lens.cpp:401-426 | A root that is no directory is skipped; of the files found under the others, in order, the first 4096 over all roots are indexed, and only the others decide what is buried. |
| `Reindex.Index.IndexFiles` | lenses/enso/enso_lens.cpp:412-425 | The walk of one root indexes the files there is room for and no more. |
| `Reindex.Index.Run` | lenses/enso/enso_lens.cpp:345-459 | Mistyped parameters are refused and nothing is emitted; otherwise the log grows by the photons of the first 4096 files under the roots that are directories and of the documents, a tombstone for each absent path under such a root, and the summary; the first bad document stops it where it stands, with its error. |
| `Reindex.Index.Bury` | lenses/enso/enso_lens.cpp:445-453 | One tombstone, with its last revision, for each indexed path under a walked root that is gone, and for no other. |
| `ReindexPaths.BuriedPaths` | lenses/enso/enso_lens.cpp:445-453 | A tombstone names a path exactly when it is indexed, not current, and equal to a walked root or the root continued by a slash. |
| `ReindexPaths.PathGoesExactly` | lenses/enso/enso_lens.cpp:345-459 | After a run a path is indexed exactly when it is a document, or it was indexed and no root that is a directory equals it or is continued by it with a slash. |
| `ReindexPaths.SiblingStays` | lenses/enso/enso_lens.cpp:446-448 | With the root `w/src` walked, `w/src/a` is absent and `w/src2/a` is not. |
| `ReindexPaths.JudgedByFields` | lenses/enso/enso_lens.cpp:427-441 | Which documents handed in are taken, malformed, or from a source that is not allowed. |
| `Reindex.ReindexAgreesWithRebuild` | lenses/enso/enso_lens.cpp:358-453 | For every prior log, folding the extended log gives what a rebuild under all configured roots gives exactly when no id is given an older and then the indexed content, and every absent path under a configured root is under one that is a directory. |
| `Reindex.RunAgreesExactly` | lenses/enso/enso_lens.cpp:358-453 | A run over distinct files and documents agrees with a rebuild from all of them exactly when there are at most 4096 files and every absent path under a configured root is under one that is a directory. |
| `Reindex.UnwalkedPathStays` | lenses/enso/enso_lens.cpp:404-453 | An indexed path that is no longer there and under no walked root keeps its revision. |
| `Reindex.GoneRootKeepsItsDocuments` | lenses/enso/enso_lens.cpp:404-453 | With `r/a` indexed and the configured root `r` gone, nothing is found, nothing is buried, the index stays, and a rebuild would be empty. |
| `Reindex.ReindexOverDistinctIds` | lenses/enso/enso_lens.cpp:358-453 | Over distinct ids every document maps to its content hash, an absent path is gone exactly when it is under a root that is a directory, and all else is kept. |
| `Reindex.DistinctIsHarmless` | lenses/enso/enso_lens.cpp:372-400 | Distinct ids always meet that condition. |
| `Reindex.RepeatedIdCanDisagree` | lenses/enso/enso_lens.cpp:378-379 | A changed content followed by the indexed one leaves the index on the changed one. |
| `Reindex.FileBeyondTheCut` | lenses/enso/enso_lens.cpp:410-453 | A file beyond the cut stays in the index exactly when it is also handed in: otherwise it is buried as absent. |
| `Reindex.ChunksConcatenate` | lenses/enso/enso_lens.cpp:385-397 | The chunks of a changed document are its content in offset order, none empty or oversized. |
| `ReindexPaths.ChunkCount` | lenses/enso/enso_lens.cpp:385-397 | There are as many chunks as it takes, each but the last full. |
| `ReindexPaths.ChunkSizes` | lenses/enso/enso_lens.cpp:354-357 | 2000 characters a chunk unless others are asked for, within 256 and 16384. |
| `ReindexPaths.FirstIndexing` | lenses/enso/enso_lens.cpp:372-400 | The photons of the first indexing of a short document. |

## Left out

- Sockets, pipes, process launch, file walking, HTTP, keyrings, SQLite storage, the user interface: input and output. A channel is the byte sequence to come, files are the documents they were read as.
- SHA-256: the hash is a parameter; where it must not collide, the theorem says on which inputs.
- Doubles: 64-bit patterns; no floating-point arithmetic is modelled.
- `cbor::diagnostic` and the text of error messages; errors are told apart by kind.
- Sizes of vectors and strings are below 2 to the 64th, as of any object in memory; the validation counters and attempt counters do not wrap around.
- `HashChain.SharedTailMeansSuffix`: the hypothesis is that the hash tells apart the materials of the two windows, which an injective hash does.
- `Wavefront.Wavefront.MergeEach`: the manifests and the budgets are parameters, and running the lens that emits the cells is not modelled; nor are the hashes of an incident wave and the views of a band.
- `IncidentWave.OnlineAgreesWithBatch`: the single-value laws and the limit of zero, where the two forms do not agree, are those of `SingleLawsDiffer` and `ZeroLimitDiffers`.
- `WindowsQuoting.BuildCommand`: the strict UTF-8 to UTF-16 conversion of the system is a parameter. The Posix branch passes the vector unchanged.
- UTF-8: `text.size() * 3u` is taken not to overflow.
- Handshake: each block under the mutex is one step and the check one step that may be overtaken by requests; stopping the worker is not modelled.
- `Reindex.Index.Run`: embeddings, chunk ids and failing beams; a root is given by its canonical path and the indexable files found under it, if it is a directory; tombstones come in some order, where the code takes them in path order.
- `ClothoGraph.WorkflowNodes`: YAML, templates and fan-out, the permission, schema and timeout of a node, fields of a wrong type, and the parsing of `when`; a condition is a test of another step or one whose answer no step changes.
- `ClothoLog.ReadState`: outputs and the templates resolved from them, and the dispatch id kept for a node in flight; the set of such nodes is what the scheduler reads.
- `ClothoView.View`: the graph cell, which repeats the definition, the definition's hash in the status cell, and the budget errors of the surface.
- `ClothoTheorems.LimitsHold`: dispatches of compensations take no place, as in the code.
- `ClothoPlaces.RunningActsAreBounded`: an act counts as often as it ends; where each dispatch is answered by one act that ends once, the difference is the number of acts that run.
- `PortInput.ConnectSelected`: which cells are selected for the port, and the schema, trust, sensitivity and audience tests that deny them (nyxia/engine/optical_assembly.cpp:472-516).
- Techor's choice of the dispatch to start, the other lenses, Textus, and the validation of configuration fields.
