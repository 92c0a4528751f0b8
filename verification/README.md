# Verified models of the Treefrog WebSocket parser and the bundled JSX and React code

This project models the algorithmic core of three files of the Treefrog framework and proves what
they are for:

- `src/tabstractwebsocket.cpp` (with `src/twebsocketframe.cpp`): the incremental WebSocket frame
  parser. Modules `WebSocketFrame`, `WebSocketQueue`, `WebSocketParser`, `WebSocketStream`,
  `WebSocketDecoding`, `WebSocketWire`, on top of `Bytes`.
- `defaults/JSXTransformer.js`: source maps (`Vlq`, `SourceMap`, `SourceMapRoundTrip`,
  `SourceMapText`, `SourceMapSearch`), the operator-precedence parser (`BinaryExpressions`), the
  destructuring compiler (`Destructuring`), path resolution (`Paths`, `PathResolution`), the
  ordered script loader (`ScriptLoader`, `ScriptSchedule`), the UTF-8 writer (`Utf8`) and base64
  (`Base64`).
- `defaults/react-with-addons.js`: the child reconciler (`ChildUpdates`, `ChildPlans`, `MultiChild`), the
  transaction engine (`Transaction`), child names (`ChildNames`), the markup checksum (`Adler32`)
  and the merging of leaving children (`ChildMerging`).

Code that updates state in the source is a class or a method with a loop here, proved equal to a
specification function; the theorems are lemmas about that function. `Numbers`, `Collections`
and `Segments` hold 32-bit integers and code units, options and distinct lists, and splitting and
joining of strings. `dafny verify dfyconfig.toml` checks everything.

## What the model found

Where a promise is false of the code, the code is kept, a lemma gives an input that shows it, and
another lemma states for all inputs exactly when the promise holds.

- A control frame between two fragments makes the next fragment an orphan
  (`WebSocketQueue.PingOrphansContinuation`), although section 5.4 of RFC 6455 allows it, unless
  the queue already holds a data frame before the open fragment
  (`WebSocketQueue.InterleavedControls`).
- `toByteArray` announces a mask key but does not mask the payload, so that a frame `parse` has
  accepted would be garbled (`WebSocketDecoding.AcceptedFrameIsGarbled`,
  `WebSocketDecoding.ToByteArrayIsReceived`). This is latent: the frames that are sent are built
  with key 0 (`src/tabstractwebsocket.cpp:45-95`), only `parse` sets a key, and nothing here sends
  a received frame on.
- A source-map difference of 2^30 or more in size is read back as another number
  (`SourceMapRoundTrip.LargeColumnIsLost`, `Vlq.WrapExact`, `SourceMapRoundTrip.RoundTrip`).
- A nested pattern that takes nothing out leaves a stray comma in the generated code
  (`Destructuring.EmptyNestedPatternBreaks`), and a literal key beside a rest property leaves an
  entry without a name in the exclusion object (`Destructuring.LiteralKeyWithRestBreaks`); the code
  is well formed if and only if neither occurs at any depth (`Destructuring.DeclarationReadsBack`).
- A script whose transformation throws ends the scan, and a script behind it may never run although
  every script has arrived (`ScriptLoader.BrokenScriptStrandsOthers`,
  `ScriptLoader.AllSettledAllRun`); when a script runs is told from the order of arrivals alone
  (`ScriptSchedule.RunsExactlyWhen`).
- Astral characters whose payload has bit 16 set are written as other characters, and the last of
  two final lead surrogates is dropped (`Utf8.FailingConversions`, `Utf8.ConversionIsExact`).

## Model

| member | source | states |
|---|---|---|
| Bytes.XorCancels | src/tabstractwebsocket.cpp:279-290 | xor with a fixed octet undoes itself, which is why unmasking recovers the payload |
| Bytes.XorBit | src/tabstractwebsocket.cpp:279-290 | each bit of the unmasked octet is set exactly when it is set in one of the two octets |
| WebSocketFrame.ValidFirstOctets | src/twebsocketframe.cpp:149-180 | a completed frame passes `validate` if and only if its first octet is one of the nine that section 5.2 of RFC 6455 allows, control frames being final and at most 125 octets long |
| WebSocketFrame.MaskedConcat | src/tabstractwebsocket.cpp:279-290 | masking chunk by chunk, each at its own offset, is masking the whole payload (section 5.3 of RFC 6455) |
| WebSocketFrame.MaskedWithZeroKey | src/tabstractwebsocket.cpp:279-279 | skipping a zero key is harmless |
| WebSocketFrame.MaskedTwice | src/tabstractwebsocket.cpp:279-290 | masking twice at the same offset gives the data back |
| WebSocketQueue.DeliverAllConserves | src/tabstractwebsocket.cpp:310-345 | whatever arrives, the queue is a permutation of what it held plus the accepted frames, and data frames keep their arrival order |
| WebSocketQueue.DeliverKeepsAccepted | src/tabstractwebsocket.cpp:310-345 | only frames that passed every check get into the queue |
| WebSocketQueue.AdmittedOctets | src/tabstractwebsocket.cpp:310-331 | which frames a queue takes, by first octet and payload length, and a continuation exactly when the queue is empty or ends in a fragment |
| WebSocketQueue.ScanStopsAt | src/tabstractwebsocket.cpp:332-342 | the scan ends right behind the first data frame, or at the end when there is none |
| WebSocketQueue.InterleavedControls | src/tabstractwebsocket.cpp:317-342 | after any number of control frames the next fragment of an open message is kept, and is then last, if and only if the queue holds a data frame before the open fragment or none of the control frames is valid |
| WebSocketQueue.PingOrphansContinuation | src/tabstractwebsocket.cpp:317-342 | text fragment, ping, final fragment: the final fragment is lost, while without the ping it is kept |
| WebSocketParser.UnmaskInPlace | src/tabstractwebsocket.cpp:281-290 | the in-place loop leaves the masked form of the old buffer |
| WebSocketParser.ReadPayload | src/tabstractwebsocket.cpp:264-302 | takes as many octets as the frame still needs or the buffer holds, always at least one, unmasks them and decides completion |
| WebSocketParser.FindControlPlace | src/tabstractwebsocket.cpp:332-342 | the list-iterator scan stops right behind the first data frame, or at the end when there is none |
| WebSocketParser.SettleFrame | src/tabstractwebsocket.cpp:310-345 | a completed frame is cleared, or placed exactly where the queue discipline says |
| WebSocketParser.StepKeepsWellFormed | src/tabstractwebsocket.cpp:190-309 | every turn keeps the list well formed, consumes octets when it goes on, and so never reaches either assertion failure |
| WebSocketParser.TakeTurn | src/tabstractwebsocket.cpp:190-352 | one turn of the loop against the specified run: needs octets, breaks, goes on or accepts |
| WebSocketParser.ParseLoop | src/tabstractwebsocket.cpp:190-358 | the loop computes the specified run |
| WebSocketParser.WebSocket.ParseBuffer | src/tabstractwebsocket.cpp:168-360 | `parse`: new frame list, consumed length and leftover are those of the specification; -1 and an untouched buffer on a protocol error |
| WebSocketParser.ParseKeepsWellFormed | src/tabstractwebsocket.cpp:168-360 | over every call the list is accepted frames followed by at most one unfinished frame whose payload is shorter than declared |
| WebSocketStream.HeaderKeepsPrefix | src/tabstractwebsocket.cpp:192-262 | a complete header reads the same whatever follows, and an incomplete one leaves a frame that rereads to the same header |
| WebSocketStream.AbsorbTwice | src/tabstractwebsocket.cpp:264-302 | payload octets taken in two reads make the same frame as in one |
| WebSocketStream.RunConcat | src/tabstractwebsocket.cpp:190-358 | reading s, keeping the leftover and reading t after it is reading s followed by t; an error in s is the error of the whole |
| WebSocketStream.ChunkingIsIrrelevant | src/tabstractwebsocket.cpp:168-360 | however a stream is cut into reads, frame list, verdict and leftover are those of one read, up to one blank frame at the end |
| WebSocketDecoding.RunDelivers | src/tabstractwebsocket.cpp:190-352 | the loop from a blank frame delivers the frames of a sequential whole-frame decoder one by one, fails exactly when that decoder rejects a length, and leaves unread what it leaves |
| WebSocketDecoding.ParseDelivers | src/tabstractwebsocket.cpp:168-360 | one call on accepted frames is the queue discipline folded over the sequentially decoded frames, with the decoder's verdict and leftover |
| WebSocketDecoding.StreamDelivers | src/tabstractwebsocket.cpp:168-360 | over every run in any cut, the finished list is a permutation of the accepted frames with data frames in arrival order, and verdict and leftover are the sequential decoder's |
| WebSocketDecoding.RejectedExactlyWhenNotMinimal | src/tabstractwebsocket.cpp:205-241 | a header is a protocol error exactly when a shorter length form could hold its length |
| WebSocketDecoding.HeaderReads | src/tabstractwebsocket.cpp:193-262 | first byte, all three length forms and the mask key read back from section 5.2 of RFC 6455, whatever follows |
| WebSocketDecoding.DecodeInvertsEncode | src/tabstractwebsocket.cpp:193-304 | decoding the wire form of any list of packets below 2^31 octets gives first byte, length and payload of each, to the last octet |
| WebSocketDecoding.EncodedStreamDelivers | src/tabstractwebsocket.cpp:168-360 | an encoded list, sent in any cut, is queued as if each frame had been handed over whole, without an error and with nothing left unread |
| WebSocketDecoding.ToByteArrayIsReceived | src/twebsocketframe.cpp:107-146 | a receiver of `toByteArray` gets FIN, opcode, reserved bits and one frame of the same length, and the payload if and only if the key octets that meet it are zero |
| WebSocketDecoding.AcceptedFrameIsGarbled | src/twebsocketframe.cpp:107-146 | a one-octet frame under key 0x01000000 is accepted by `parse`, and what `toByteArray` makes of it is received with another payload |
| WebSocketWire.HeaderOctets | src/tabstractwebsocket.cpp:193-262 | a header is read as the octets of section 5.2 of RFC 6455 lay it out: length forms, bounds and key spelled out as numbers |
| WebSocketWire.AbsorbedBits | src/tabstractwebsocket.cpp:264-302 | an octet of the buffer is appended with exactly those bits flipped that are set in the key octet its place in the payload meets |
| WebSocketWire.FirstFrameOnTheWire | src/tabstractwebsocket.cpp:168-360 | the first frame of any stream from its octets alone: first octet, length, every bit of the payload under the key that stands before it; errors, oversized headers and what is left over |
| ChildUpdates.InsertBeforeAnchor | defaults/react-with-addons.js:12 | inserting before the anchor of `afterNode` puts the node right behind it, also when the node is its own reference |
| ChildUpdates.KeepStep | defaults/react-with-addons.js:15 | a child whose old index is not below the last index needs no operation: it already stands behind all placed ones |
| ChildUpdates.PlaceStep | defaults/react-with-addons.js:15 | an inserted or moved child keeps the order of all others and lands behind all placed ones |
| ChildUpdates.PlanProgresses | defaults/react-with-addons.js:15 | executing the queued operations takes the document from any stage of the loop to its end |
| ChildUpdates.RemovalsLeave | defaults/react-with-addons.js:12 | removing every unwanted node leaves the wanted ones in order |
| ChildUpdates.Reconciles | defaults/react-with-addons.js:15 | queued inserts and moves, then removals, executed one by one on the old child list give exactly the new child list |
| ChildPlans.PlanIsExact | defaults/react-with-addons.js:15 | queued are an insertion for each new node, a move for each node overtaken by a greater old position, each behind its predecessor, and nothing else |
| ChildPlans.KeptOrderQueuesNothing | defaults/react-with-addons.js:15 | when the old nodes that remain keep their order, nothing is queued for them |
| MultiChild.MatchChildren | defaults/react-with-addons.js:13 | a new child reuses the instance of its name when the element can be taken over and is new otherwise; replaced children are listed |
| MultiChild.GoneIsTheRest | defaults/react-with-addons.js:13 | the children that go are exactly the old instances no new child uses, each once |
| MultiChild.PlanUpdates | defaults/react-with-addons.js:15 | the loop that reads and rewrites mount indices queues the planned operations and leaves every index equal to its position |
| MultiChild.ProcessUpdates | defaults/react-with-addons.js:12 | `processUpdates` executes the whole queue |
| MultiChild.Reconcile | defaults/react-with-addons.js:15 | one pass leaves the document equal to the new instances, mount indices equal to positions, and none for children that went |
| MultiChild.FittingKeeps | defaults/react-with-addons.js:13 | an old and a new child of one name share their instance if and only if both are absent, both text, or both nodes of equal tag and key |
| MultiChild.Parent.UpdateChildren | defaults/react-with-addons.js:15 | `updateChildren` shows the wanted names and elements, keeps instances exactly where the kind of element stays the same and makes all others anew, changes nothing when it is wanted what is shown, and keeps the invariant that the document shows the children in order with mount index equal to position |
| MultiChild.Parent.UpdateRepeatedly | defaults/react-with-addons.js:15 | after any sequence of updates the document shows exactly the last list, in order |
| Vlq.WrapExact | defaults/JSXTransformer.js:10222-10240 | a value survives sign placement and 32-bit shifts if and only if its magnitude is below 2^30 |
| Vlq.Encode | defaults/JSXTransformer.js:10245-10263 | the digit loop writes the specified quantity |
| Vlq.Decode | defaults/JSXTransformer.js:10269-10291 | the digit loop reads the specified quantity, or fails on a bad or missing digit |
| Vlq.DecodeInvertsEncode | defaults/JSXTransformer.js:10245-10291 | for every integer, decoding its encoding followed by anything gives the wrapped value and what followed |
| Vlq.SignIsLowestBit | defaults/JSXTransformer.js:10222-10240 | the sign is the lowest bit, above it stands the magnitude |
| Vlq.QuantityDigits | defaults/JSXTransformer.js:10245-10263 | a quantity is its groups of five bits, lowest first, all but the last marked by 32, and no more than needed |
| Numbers.DigitsAreTheAlphabet | defaults/JSXTransformer.js:10305-10335 | digit n is character n of the base 64 alphabet |
| SourceMap.CompareZero | defaults/JSXTransformer.js:11829-11858 | the full comparison calls two valid mappings equal only if they are |
| SourceMap.CompareIsLexical | defaults/JSXTransformer.js:11829-11858 | mappings with original positions are ordered by line, column, source, original line, original column and name |
| SourceMapRoundTrip.SegmentReads | defaults/JSXTransformer.js:10630-10679 | the fields of a mapping read back as the mapping and its running values exactly when every difference fits |
| SourceMapRoundTrip.RoundTripFrom | defaults/JSXTransformer.js:11184-11227 | the round trip from any position of the list and any running values |
| SourceMapRoundTrip.RoundTrip | defaults/JSXTransformer.js:11166-11230 | for valid mappings in line order, parsing the serialised string returns the list without adjacent duplicates if and only if every written difference is below 2^30 in size |
| SourceMapRoundTrip.LargeColumnIsLost | defaults/JSXTransformer.js:10222-10240 | one mapping at generated column 2^30 does not round trip: the number comes back negative |
| SourceMapRoundTrip.SmallMapsRoundTrip | defaults/JSXTransformer.js:11166-11230 | maps whose numbers are below 2^30 round trip |
| SourceMapText.SerializedText | defaults/JSXTransformer.js:11166-11230 | the written text told from the mappings alone: semicolons for lines, commas between mappings, and each number counted from the one before it of its kind, the first from zero |
| SourceMapText.TextReads | defaults/JSXTransformer.js:10607-10683 | reading that text gives the mappings without repetitions if and only if every difference fits |
| SourceMapText.SingleMapping | defaults/JSXTransformer.js:11166-11230 | one mapping is written with its absolute numbers, lines counted from zero, and read back when they fit |
| SourceMapText.FirstPosition | defaults/JSXTransformer.js:10607-10683 | `AAAA` is the first position of the first source, written and read |
| SourceMapSearch.SerializeMappings | defaults/JSXTransformer.js:11166-11230 | the writing loops produce the text told from the mappings, and stop, given ascending lines |
| SourceMapSearch.ParseMappings | defaults/JSXTransformer.js:10607-10683 | the reading loop returns the specified mappings or the first error |
| SourceMapSearch.RecursiveSearch | defaults/JSXTransformer.js:10360-10399 | returns a mapping at the greatest position not after the needle, and nothing exactly when all lie after it |
| SourceMapSearch.SearchAgreesWithScan | defaults/JSXTransformer.js:10414-10418 | binary search and linear scan find the same position or nothing |
| SourceMapSearch.LookupAfterRoundTrip | defaults/JSXTransformer.js:10724-10756 | after writing and reading a map, a lookup answers with the original position of a closest mapping among those added, or nothing when all lie after the query, and refuses exactly lines below 1 and columns below 0 |
| BinaryExpressions.RootBindsLeast | defaults/JSXTransformer.js:6072-6141 | no operator inside a correct tree binds less tightly than its root |
| BinaryExpressions.CorrectIsUnique | defaults/JSXTransformer.js:6151-6212 | over the same operands and operators there is only one tree whose left children bind at least as tightly and right children tighter |
| BinaryExpressions.PrecedenceIsTheGrammars | defaults/JSXTransformer.js:6072-6141 | an operator has precedence k exactly when production k of the layered grammar uses it, `in` only where allowed |
| BinaryExpressions.ReduceWhile | defaults/JSXTransformer.js:6176-6187 | the inner loop keeps the stack sound and leaves a looser operator, or none, on top |
| BinaryExpressions.ReduceAll | defaults/JSXTransformer.js:6200-6209 | the final reduce makes one correct, correctly marked tree of the whole stack |
| BinaryExpressions.ParseBinaryExpression | defaults/JSXTransformer.js:6151-6212 | consumes the operators up to the first other token and returns a correct tree with the same in-order sequence, every node starting at its leftmost operand |
| BinaryExpressions.ParseIsTheDerivation | defaults/JSXTransformer.js:6143-6212 | the result is derived by the layered grammar of sections 11.5 to 11.11 of ECMA-262 5.1, and is its only derivation |
| Destructuring.LocalScope.GetDestructuredComponents | defaults/JSXTransformer.js:14203-14253 | the loop emits the specified components, the exclusion object with its missing names included, and advances the temporary counter |
| Destructuring.LocalScope.VisitStructuredVariable | defaults/JSXTransformer.js:14178-14189 | the declaration's code; its temporaries lie above the one that holds the value and below the counter left for the next declaration |
| Destructuring.DeclarationReadsBack | defaults/JSXTransformer.js:14203-14253 | the code is well formed if and only if the pattern takes something out at every depth and no object pattern with a rest property has a literal key; then it is the list of the assignments meant |
| Destructuring.EmptyNestedPatternBreaks | defaults/JSXTransformer.js:14243-14252 | an empty nested pattern gives code that is no declarator list |
| Destructuring.GetPropertyNames | defaults/JSXTransformer.js:14840-14854 | the loop gathers a name for each property, none for a literal key |
| Destructuring.EntriesReadBack | defaults/JSXTransformer.js:14867-14876 | the printed exclusion object is well formed exactly when no name is missing, and then lists the names |
| Destructuring.RestLeavesOutWhatIsTaken | defaults/JSXTransformer.js:14840-14876 | the expression for a rest property is well formed if and only if the pattern has no literal key, and then its exclusion object names exactly the properties the pattern takes |
| Destructuring.LiteralKeyWithRestBreaks | defaults/JSXTransformer.js:14850-14874 | `var {'a': x, ...r} = e` prints `{:1}`, and the declaration is malformed |
| Destructuring.RunMeans | defaults/JSXTransformer.js:14203-14253 | running the assignments of usable items ends like the access paths say, an element reached by its position with holes counted, a property by its own key, and leaves older temporaries alone |
| Destructuring.DeclarationMeansDestructuring | defaults/JSXTransformer.js:14178-14278 | for every pattern, the code for `var P = e` reads back if and only if the pattern is usable, and running it then binds every identifier to the value at its access path, spelled out apart from the compiler, or throws where the access does, for all values and accessor semantics |
| Destructuring.TempsAreFresh | defaults/JSXTransformer.js:14246-14247 | temporaries are assigned once each, consecutively, from the counter on |
| Paths.NormalizeArray | defaults/JSXTransformer.js:2045-2069 | the splicing loop computes the specified right-to-left pass |
| Paths.NormalizeIsWalk | defaults/JSXTransformer.js:2045-2069 | the right-to-left pass equals a left-to-right walk over a stack of directories, for every list |
| Paths.NormalForm | defaults/JSXTransformer.js:2061-2066 | `..` remains only as a leading run, and not at all below a root |
| Paths.NormalizeIsIdempotent | defaults/JSXTransformer.js:2045-2069 | normalising twice is normalising once |
| PathResolution.ResolvePath | defaults/JSXTransformer.js:2081-2108 | the loop gathers arguments from the last to the first absolute one and renders the normalised path |
| PathResolution.RelativePath | defaults/JSXTransformer.js:2150-2189 | the loops compute the specified relative path |
| PathResolution.ResolveParts | defaults/JSXTransformer.js:2099-2107 | an absolute resolution is a slash and joined names that split back into themselves |
| PathResolution.RelativeLeadsThere | defaults/JSXTransformer.js:2150-2189 | `resolve(from, relative(from, to))` equals `resolve(to)` for all paths |
| PathResolution.ResolveFollows | defaults/JSXTransformer.js:2081-2108 | `resolve` arrives where changing directory from argument to argument does, starting at the working directory, for every list of arguments |
| PathResolution.RelativeSteps | defaults/JSXTransformer.js:2150-2189 | `relative` joins the steps up from one resolved path to the common directory and down to the other |
| PathResolution.RelativeIsShortest | defaults/JSXTransformer.js:2150-2189 | no shorter list of steps leads to the same place |
| ScriptLoader.CheckIsExact | defaults/JSXTransformer.js:226-243 | from any reachable state one scan takes up exactly the waiting scripts that no earlier pending script blocks and no broken waiting one precedes, and throws exactly when one of them is broken |
| ScriptLoader.EveryRunIsOrdered | defaults/JSXTransformer.js:226-292 | in every interleaving, whatever throws: each script runs at most once, none before every earlier non-async one has been taken up or failed, an overtaken script is async |
| ScriptLoader.ScanBringsUpToDate | defaults/JSXTransformer.js:230-243 | a scan leaves exactly the unblocked, arrived, sound scripts run if and only if no broken waiting script interrupts it |
| ScriptLoader.AllSettledAllRun | defaults/JSXTransformer.js:226-292 | scripts run once each and in document order but for async ones; once every script has arrived or failed, every sound one that arrived has run if and only if no broken script stood before one in the last scan |
| ScriptLoader.SoundScriptsKeepUpToDate | defaults/JSXTransformer.js:226-292 | when no transformation throws, after every event exactly the arrived scripts that nothing blocks have run |
| ScriptLoader.BrokenScriptStrandsOthers | defaults/JSXTransformer.js:124-185 | three scripts, the second broken, arriving last to first: the third has arrived and never runs |
| ScriptSchedule.BacklogIsExact | defaults/JSXTransformer.js:230-243 | how many broken scripts wait before a position when a scan starts, counted from what became due over the scans so far |
| ScriptSchedule.RunsExactlyWhen | defaults/JSXTransformer.js:226-292 | for all scripts and every order of arrivals: a sound script has run if and only if at some event it was due and, over any number of scans up to then, fewer broken scripts before it became due than there were scans |
| ScriptSchedule.RunsInOrderExactlyWhen | defaults/JSXTransformer.js:226-292 | without async scripts this is decided at the last event |
| ScriptLoader.Loader.Check | defaults/JSXTransformer.js:230-243 | the loop computes the specified scan, marks a script before running it, and is ended by the first exception |
| ScriptLoader.Loader.OnSettled | defaults/JSXTransformer.js:270-277 | a callback settles its script, scans, keeps the invariant even when the scan throws, and throws when it does |
| Utf8.Utf8ToBytes | defaults/JSXTransformer.js:1645-1724 | the loop writes the specified characters on the given byte budget |
| Utf8.LimitCutsAtCharacters | defaults/JSXTransformer.js:1645-1724 | with a positive limit the bytes are a prefix of the unlimited result that ends at a character, fits, and could not take one more |
| Utf8.AlwaysWellFormed | defaults/JSXTransformer.js:1645-1724 | for every string the bytes are well-formed UTF-8 by section 4 of RFC 3629 |
| Utf8.DecodeInvertsEncode | defaults/JSXTransformer.js:1693-1717 | strict decoding of the written bytes gives the characters back |
| Utf8.ConversionIsExact | defaults/JSXTransformer.js:1653-1691 | decoding gives the characters of the string, unpaired surrogates replaced, if and only if no pair has bit 16 of its payload set and the string does not end in two leads |
| Utf8.FailingConversions | defaults/JSXTransformer.js:1659-1669 | U+20000 becomes U+10000; of two final leads one replacement is missing |
| Base64.EncodeBytes | defaults/JSXTransformer.js:1853-1891 | the loop and the padded tail write the specified text |
| Base64.TripletLayout | defaults/JSXTransformer.js:1853-1891 | three bytes become four digits of six bits, first bits first |
| Base64.TailLayout | defaults/JSXTransformer.js:1875-1888 | bits left over are filled up with zeros and the group with `=` |
| Base64.DecodeFourDigits | defaults/JSXTransformer.js:1834-1839 | the decoder's 32-bit shifts and bitwise ors of four digits put the 24-bit number together, byte by byte |
| Base64.DecodeGroups | defaults/JSXTransformer.js:1834-1839 | the loop fills the array with the bytes of the complete groups |
| Base64.DecodeText | defaults/JSXTransformer.js:1807-1851 | fills an array of the computed size with the specified bytes, or fails exactly when the length is no multiple of four |
| Base64.DecodeInverts | defaults/JSXTransformer.js:1789-1891 | for every byte sequence, decoding its text returns the bytes, and the padding is as long as section 4 of RFC 4648 says |
| Base64.CleanedRoundTrip | defaults/JSXTransformer.js:1615-1627 | any text whose kept characters are those of an encoded byte sequence, padded or not, is cleaned to the encoding and decodes to the bytes |
| Base64.UrlSafeDecodes | defaults/JSXTransformer.js:1803-1821 | text in the URL-safe alphabet decodes to the same bytes, and cleaning keeps its digits |
| Transaction.Engine.InitializeAll | defaults/react-with-addons.js:16 | every initialiser gets its turn whatever throws; the first error is returned |
| Transaction.Engine.CloseAll | defaults/react-with-addons.js:16 | every wrapper that came up is closed whatever throws; the data is dropped; the first error is returned |
| Transaction.Engine.Perform | defaults/react-with-addons.js:16 | exactly the calls that should happen are logged, once each and in order, the flag ends as it was, an error escapes if and only if some logged call throws, and then it is the one thrown first; a nested call does nothing |
| Transaction.ExpectedLogIsExact | defaults/react-with-addons.js:16 | the calls are every initialiser by position, the body if and only if no initialiser throws, and the closings by position with the data of their initialisers |
| Transaction.FirstErrorIsThrownFirst | defaults/react-with-addons.js:16 | the error that escapes is thrown by a logged call before which none throws; there is none if and only if no logged call throws |
| Transaction.CloseLogIsExact | defaults/react-with-addons.js:16 | the closings are, once each and in order, those of the wrappers whose initialiser did not throw, each with its own data |
| Transaction.NoErrorMeansNoThrow | defaults/react-with-addons.js:16 | no error is reported if and only if no callback of the phase that runs throws |
| ChildNames.UnescapeInverts | defaults/react-with-addons.js:12 | unescaping undoes escaping, with and without the leading dot, and escaped keys hold no separator |
| ChildNames.EscapeConcat | defaults/react-with-addons.js:12 | escaping goes character by character |
| ChildNames.EscapeOne | defaults/react-with-addons.js:12 | `=` becomes `=0`, `:` becomes `=2`, any other character stays, behind a dollar sign |
| ChildNames.Base36Injective | defaults/react-with-addons.js:16 | positions printed in base 36 differ |
| ChildNames.Base36Reads | defaults/react-with-addons.js:16 | reading the digits in base 36 gives the position, without a leading zero |
| ChildNames.NamesArePaths | defaults/react-with-addons.js:16 | the recursively built names are the joined paths of the leaves |
| ChildNames.FlatListNames | defaults/react-with-addons.js:16 | child k of a plain list is named by a dot and its escaped key, or k in base 36 |
| ChildNames.FlatEntryNames | defaults/react-with-addons.js:16 | a child filed under a key is named by the escaped key, then its own mark |
| ChildNames.NameDeterminesPath | defaults/react-with-addons.js:16 | a name splits back into one path |
| ChildNames.NamesAreDistinct | defaults/react-with-addons.js:16 | with distinct sibling keys no two children of a nested tree get the same name |
| Adler32.SumBlock | defaults/react-with-addons.js:16 | a block keeps both sums up to the modulus, and they stay below 2^53 |
| Adler32.ClosedForm | defaults/react-with-addons.js:16 | the recurrence is the plain and the weighted sum of the units, reduced once modulo 65521 |
| Adler32.Checksum | defaults/react-with-addons.js:16 | the blocked checksum with delayed modulo is the per-unit recurrence of section 8.2 of RFC 1950 and its closed form modulo 65521, as a signed 32-bit number |
| ChildMerging.CollectPending | defaults/react-with-addons.js:15 | the first loop finds for each shared key the run of leaving keys before it, and the last run |
| ChildMerging.MergeChildMappings | defaults/react-with-addons.js:15 | the merged keys in order, with the next mapping's value where it has one |
| ChildMerging.MergedMembers | defaults/react-with-addons.js:15 | each key of either mapping appears exactly once |
| ChildMerging.MergedKeepsNextOrder | defaults/react-with-addons.js:15 | the keys of the next mapping keep their order |
| ChildMerging.RunsStayInPlace | defaults/react-with-addons.js:15 | a run of leaving keys stays together right before the shared key that followed it, or at the end |

## Left out

- Consumption of the frame queue by `TWebSocket::readRequest`, sending, keep-alive timers, sessions and endpoints: plumbing over Qt and threads.
- Memory reservation for payloads and log output of the parser.
- Sorting inside `_serializeMappings` (a built-in of the engine): the list is taken after it; `originalPositionFor` takes its list sorted, and joining with a source root is not modelled.
- The list of mappings sorted by original position and the lookups over it.
- `state.allowIn` while operands are parsed, and operands themselves: they are atoms.
- Destructuring.DeclarationMeansDestructuring: computed keys, a rest that takes a pattern, and targets that are neither names nor patterns are not modelled; the compiler takes a computed key for a plain one, prints the rest's missing name as a word, or fails.
- Destructuring.RestLeavesOutWhatIsTaken: the exclusion object is read as in ECMA-262 5.1, where every entry is an own property; from ES2015 on, an entry named `__proto__` is none, and a rest beside that key would not leave it out.
- Destructuring.LocalScope.VisitStructuredVariable: the text of the initialiser is not modelled, nor temporaries that it allocates itself.
- Function parameters and assignment expressions with patterns; user identifiers that look like a temporary.
- `normalize`, `join`, `dirname` and the other path functions; a working directory that is not absolute.
- Text children rendered as comment ranges, updates that set text or markup, and everything components do when mounted, updated or unmounted: every child is one node.
- Scripts whose load callback fires while later scripts are still being registered; the type and options of a script; the errors that are thrown for scripts that could not be loaded, after the scan.
- Callbacks of a transaction that change its wrappers, and wrappers that return the internal error marker themselves.
- Floating-point and signed multi-byte buffer access, hex and UTF-16 conversions.
