# AMI: verified models of the JSON library and the AMC driver

AMI is the management interface of AVED: a command-line application and a kernel driver that talk to the
AMC, the management controller of a card. This project models the parts of AMI whose correctness is not
visible in any single function, and proves it.

## What is modelled

- **The JSON library** (`Json`, `JsonParser`, `JsonLanguage`, `JsonPrinter`, `JsonRoundTrip`, with `Utf8`,
  `Utf16`, `StringBuffers`). The recursive-descent parser, the compact and indented printers, the growing
  buffer and both codecs are methods with the loops of the source. `Json` defines RFC 8259 independently of
  the parser, as concrete syntax trees with a text and a meaning. The results: the accepted language is
  exactly the grammar, and printing and parsing undo each other, with the exact exceptions. A number is the
  double that `strtod` reads and `sprintf` writes; both are parameters, and nothing is assumed about them but
  that `sprintf` writes C strings.
- **JSON nodes on the heap** (`JsonNodes`, `JsonTrees`, `JsonDelete`, `JsonCheck`, `JsonCheckEnds`,
  `JsonWhole`). Nodes are objects in doubly linked lists, built by the parser and walked by the printer.
  Insertion and removal refine operations on sequences, deletion frees every node of a tree once, a failed
  parse leaves no node behind, json_check passes exactly on well-formed trees and returns exactly where it
  enters no node below itself, and what one operation returns is what the next one needs.
- **The command protocol** (`ProxyProtocol`, `ProxySafety`, `AmcProxy`, `CidPool`). Requesters, the response
  thread and the device are interleaved at every read and write that the locks do not exclude. An inductive
  invariant gives lifetime safety and "answered before success". `AmcProxy` has the walks over the list of
  submitted commands as methods on objects, each proved to do what the steps of the state machine do.
- **Chunked download** (`ImageDownload`, `DownloadSafety`). The loop over chunks runs against a flash whose
  commands are atomic and may or may not have taken effect when they fail. The results are crash safety over
  all runs, the image after success, and the exact limit of the packed chunk number.
- **Sensor data** (`SdrRecords`, `SdrParser`, `SensorWalk`). A variable-length record format with eight
  presence bits, its parser, and the positional update of the records from a reply without identifiers.
- **Log ring and heartbeat** (`LogRing`, `Heartbeat`). The ring reader over whole runs with its exact
  condition for loss, and the heartbeat thread over every sequence of outcomes.

Methods carry the form of the source and are proved against specification functions; the lemmas are about
those functions. Bytes are integers below 256, so shifts and masks appear as division and remainder.
`dafny verify dfyconfig.toml` checks the whole project.

## Where the code differs from what one would expect

- The printer escapes control characters below 0x1F only, and the parser rejects 0x1F as well
  (`sw/AMI/app/json.c:1180` and `867`). The model keeps this; `RoundTrip` and `Reencoding` state exactly which
  trees survive, and `UnitSeparatorIsLost` gives one that does not.
- A number that overflows is accepted and printed as null, and one that needs more than the printed digits
  changes (`sw/AMI/app/json.c:1233-1239`). `Reencoding` has the exact condition, `OverflowIsLost` a witness.
- json_check does not return on nodes that are below themselves. `ReturnsExactly` says on which heaps it
  returns; `TwoNodeCycle` is one on which it does not.
- The guard of the log reader lets index 50 through (`sw/AMI/driver/ami_log.c:40`), for which its loop does not
  end (`LoopEndsExactly`).
- A submission that fails before it has an identifier erases identifier 0, whoever holds it
  (`sw/AMI/driver/ami_amc_control.c:1684-1685`). `EarlyFailureHarmsExactly` and `DistinctExactly` say exactly when
  this does harm.
- A timeout can be reported as -EINVAL. `TimeoutReport` says exactly when, and `TimeoutReportedAsInvalid` gives a
  run.
- The update of the partition table does not invalidate the boot tag first, so crash safety fails for it
  except in the cases that `CrashSafetyIsExact` lists. Beyond 2^30 bytes the chunk number wraps around, and
  `CrashSafetyBeyond` says when the states of a download are safe all the same.

## Model

| member | source | states |
|---|---|---|
| JsonLanguage.DecodeIsExact | sw/AMI/app/json.c:361-377 | for every C string: decoding succeeds with tree `v` if and only if the text is the text of a syntax tree of RFC 8259 sections 2 to 7 (without NUL, `\u0000`, lone surrogates and ill-formed UTF-8) that denotes `v` |
| JsonLanguage.GrammarIsUnambiguous | sw/AMI/app/json.c:361-377 | a text denotes at most one tree, as a consequence of the parser being exact |
| JsonLanguage.DecodeSound | sw/AMI/app/json.c:623-964 | whatever the recursive descent accepts has a syntax tree, and the tree returned is its meaning |
| JsonLanguage.DecodeComplete | sw/AMI/app/json.c:623-964 | the text of every syntax tree is accepted, with its meaning |
| JsonLanguage.CharComplete | sw/AMI/app/json.c:812-881 | every way of writing a character (raw UTF-8, short escape, one `\u` escape, a surrogate pair of them) is read as the UTF-8 bytes of its code point |
| JsonLanguage.NumberSound | sw/AMI/app/json.c:908-964 | what parse_number accepts is a number of the grammar |
| JsonLanguage.NumberComplete | sw/AMI/app/json.c:908-964 | every number of the grammar is accepted in full, unless the next character continues it |
| JsonParser.JsonDecode | sw/AMI/app/json.c:361-377 | returns NULL exactly where the specified decoding fails, and otherwise the root, without parent, siblings and key, of newly allocated nodes that are linked as a well-formed tree and hold exactly the decoded value, with the double that `strtod` reads in every number node; a failure frees every node that was allocated, a success frees none; every read is at or before the terminating NUL |
| JsonParser.JsonValidate | sw/AMI/app/json.c:433-446 | returns true exactly on the texts that json_decode accepts, and allocates and frees no node |
| JsonParser.ParseValue | sw/AMI/app/json.c:623-691 | result and new position of the specification, and on request new nodes that hold the value; a failure leaves no node behind; the mutual recursion ends because the remaining text gets shorter |
| JsonParser.ParseArray | sw/AMI/app/json.c:693-735 | the loop reads the specified items into new nodes, in order, or fails where they do not exist and deletes what it built |
| JsonParser.ParseObject | sw/AMI/app/json.c:737-791 | the same for members, with keys in order and duplicates kept |
| JsonParser.ParseElement | sw/AMI/app/json.c:709-714 | one element is parsed and appended: the list of the array grows by exactly that value |
| JsonParser.ParseMember | sw/AMI/app/json.c:754-769 | the same for a member with its key |
| JsonParser.Abandon | sw/AMI/app/json.c:732-734 | the failure exit of both loops frees the array or object and everything in it, whatever has been built |
| JsonParser.ParseString | sw/AMI/app/json.c:793-906 | returns the specified string through the growing buffer; four bytes of room hold in front of every iteration, in the buffer as in the scratch array |
| JsonParser.ParseChar | sw/AMI/app/json.c:812-892 | one iteration writes exactly the bytes of the character and never beyond the four reserved ones |
| JsonParser.ParseNumber | sw/AMI/app/json.c:918-964 | accepts and skips exactly the number that NumberSound and NumberComplete characterise; on failure the position does not move |
| JsonParser.ExpectLiteral | sw/AMI/app/json.c:1252-1262 | succeeds exactly when the literal stands at the position, and moves only then |
| JsonRoundTrip.RoundTrip | sw/AMI/app/json.c:623-1223 | for every tree of valid UTF-8, compact or indented by any white space, and for every `strtod` and `sprintf`: printing the doubles and decoding the text gives the same value if and only if no string or key holds byte 0x1F and every double survives, that is, is printed as a JSON number that is read as the same double |
| JsonRoundTrip.TextRoundTrip | sw/AMI/app/json.c:623-1223 | on texts of numbers: decoding the printed text returns the very tree if and only if no string or key holds 0x1F and every number is valid |
| JsonRoundTrip.DecodePrinted | sw/AMI/app/json.c:623-1240 | exact result in all cases, on texts of numbers: the tree with what is not a JSON number replaced by null, or failure when some string or key holds 0x1F |
| JsonRoundTrip.Reencoding | sw/AMI/app/json.c:361-405 | decode, print, decode, with `strtod` and `sprintf` in between: the second result is the tree of rendered numbers with null for what is not a JSON number, or failure for 0x1F in a string; it is the same value if and only if there is no 0x1F and every double survives |
| JsonRoundTrip.DecodedIsPrintable | sw/AMI/app/json.c:361-405 | every decoded tree, with its numbers as they were written or rendered in any way, meets the assertions of the printer |
| JsonRoundTrip.OverflowIsLost | sw/AMI/app/json.c:1225-1240 | a concrete accepted text, 1e999: where it is rendered as inf, it is printed as null and decodes to a different value |
| JsonRoundTrip.UnitSeparatorIsLost | sw/AMI/app/json.c:867-869 | a concrete accepted text whose printed form is rejected: 0x1F is not escaped, and not accepted raw |
| JsonPrinter.JsonStringify | sw/AMI/app/json.c:394-405 | walks nodes that hold a value and returns exactly the specified text of that value, which contains no NUL |
| JsonPrinter.PrintedIsCString | sw/AMI/app/json.c:105-110 | the printed text contains no NUL, which is the assertion of sb_finish |
| JsonPrinter.EmitString | sw/AMI/app/json.c:1106-1223 | appends exactly the quoted string to the buffer |
| JsonPrinter.EmitChar | sw/AMI/app/json.c:1122-1210 | one iteration writes exactly the escape or the raw bytes of a character, within the room that was reserved |
| JsonPrinter.EmitNext | sw/AMI/app/json.c:1114-1219 | after every iteration fourteen bytes of room hold again, so no iteration can overrun |
| JsonPrinter.EmitNumber | sw/AMI/app/json.c:1225-1240 | appends what `sprintf` makes of the double, or `null` when that is not a JSON number |
| JsonPrinter.EmitValue | sw/AMI/app/json.c:974-999 | appends the compact text of the value that the nodes hold |
| JsonPrinter.EmitArray | sw/AMI/app/json.c:1028-1039 | follows the next pointers and appends the elements with commas between them, in order |
| JsonPrinter.EmitObject | sw/AMI/app/json.c:1065-1078 | follows the next pointers and appends the members with commas between them, in order |
| JsonPrinter.EmitValueIndented | sw/AMI/app/json.c:1001-1026 | appends the indented text of the value that the nodes hold, at a level |
| JsonPrinter.EmitArrayIndented | sw/AMI/app/json.c:1041-1063 | one element a line, one level deeper, and the bracket back at its own level |
| JsonPrinter.EmitObjectIndented | sw/AMI/app/json.c:1080-1104 | one member a line, one level deeper, and the brace back at its own level |
| Utf8.ValidatesExactlyEncodings | sw/AMI/app/json.c:151-203 | validation returns k > 0 exactly when the next k bytes are the encoding of a scalar value, which is then unique (sections 3 and 4 of RFC 3629) |
| Utf8.ValidatedIsWritten | sw/AMI/app/json.c:151-294 | reading a validated character and writing it again gives the same bytes |
| Utf8.WrittenIsValidated | sw/AMI/app/json.c:151-294 | what is written validates at its own length and reads back as the value written |
| Utf16.SurrogatesOfCodePoint | sw/AMI/app/json.c:302-326 | splitting a supplementary code point gives a valid pair that decodes to it (section 2.1 of RFC 2781) |
| Utf16.CodePointOfSurrogates | sw/AMI/app/json.c:302-326 | a pair decodes exactly when it is valid, to a supplementary code point that splits into it (section 2.2 of RFC 2781) |
| Utf16.HexRoundTrip | sw/AMI/app/json.c:1268-1311 | reading four hexadecimal digits inverts writing them, for all 65536 values |
| Utf16.ParseHex16 | sw/AMI/app/json.c:1268-1295 | value of four digits in either case, or failure without moving |
| StringBuffers.StringBuffer.Grow | sw/AMI/app/json.c:71-85 | keeps the contents, makes the room asked for, doubles the capacity, and stays below twice the space needed |
| StringBuffers.StringBuffer.Need | sw/AMI/app/json.c:65-69 | grows only when the room is too small, and then stays below twice the space needed |
| StringBuffers.StringBuffer.Put | sw/AMI/app/json.c:87-103 | the contents become the old contents followed by the new bytes; a buffer that had to grow is less than half empty |
| StringBuffers.StringBuffer.PutChar | sw/AMI/app/json.c:94-98 | the same for one byte, with the growth test in front of it |
| StringBuffers.StringBuffer.Finish | sw/AMI/app/json.c:105-110 | the final NUL has its byte in every state of the buffer |
| StringBuffers.PutAll | sw/AMI/app/json.c:87-103 | over any sequence of appends: the contents are the concatenation, and the capacity is the initial one or less than twice its length |
| StringBuffers.CapacityIsDoubled | sw/AMI/app/json.c:56-85 | every capacity is 16 * 2^k |
| JsonNodes.MkNode | sw/AMI/app/json.c:486-493 | one new node, cleared, unlinked and counted as allocated |
| JsonNodes.AppendNode | sw/AMI/app/json.c:536-547 | the list of children becomes the old list with the node at its end; no other list and no contents change |
| JsonNodes.PrependNode | sw/AMI/app/json.c:549-560 | the same with the node in front |
| JsonNodes.AppendMember | sw/AMI/app/json.c:562-566 | the same, with the key set on the new member only |
| JsonNodes.RemoveFromParent | sw/AMI/app/json.c:601-621 | the list becomes the old list without position k, the node is detached and loses its key, and no other list or contents change |
| JsonNodes.OtherListsKept | sw/AMI/app/json.c:536-621 | an operation that keeps to the list of one parent leaves every other list well formed as it was |
| JsonTrees.AppendElement | sw/AMI/app/json.c:568-574 | appending a tree to an array whose children hold some values gives an array that holds these values and the new one |
| JsonTrees.AppendKeyed | sw/AMI/app/json.c:562-566 | the same for an object, with the key |
| JsonDelete.JsonDelete | sw/AMI/app/json.c:407-431 | frees the nodes of the tree in post-order and nothing else, each of them allocated until then; touches nothing that was freed, and leaves the siblings in order |
| JsonDelete.FreedOnce | sw/AMI/app/json.c:407-431 | the order in which nodes are freed contains every node of the tree exactly once |
| JsonTrees.ShapeIsSeparate | sw/AMI/app/json.c:407-431 | well-formed child lists already imply that no node is its own descendant and siblings share no node, so json_delete needs no more than well-formed lists |
| JsonCheck.JsonCheck | sw/AMI/app/json.c:1313-1381 | on any heap, where it returns: it computes the verdict of the specified check, which PassesExactlyTrees characterises |
| JsonCheck.CheckChildren | sw/AMI/app/json.c:1335-1375 | the same for the walk over the children with its recursive calls |
| JsonCheck.SiblingWalk | sw/AMI/app/json.c:1335-1375 | the walk with any verdict in place of the recursive call returns on every heap, whatever cycles the links have, and passes if and only if head, tail, next, prev and parent form one doubly linked list of children with the right keys that all get the verdict |
| JsonCheck.NextIsNew | sw/AMI/app/json.c:1351-1362 | the checks of the walk exclude a return to any node it has seen |
| JsonCheck.PassesExactlyTrees | sw/AMI/app/json.c:1313-1381 | on every heap: json_check returns true if and only if the node is the root of a well-formed tree |
| JsonCheckEnds.ReturnsExactly | sw/AMI/app/json.c:1313-1381 | on every heap: json_check returns if and only if no chain of nested calls from the node enters a node twice |
| JsonCheckEnds.CycleNeverReturns | sw/AMI/app/json.c:1369-1370 | on two arrays that are each other's only child it does not return, however deep the recursion may go |
| JsonCheckEnds.TwoNodeCycle | sw/AMI/app/json.c:1369-1370 | such a heap exists, with both lists of children well formed |
| JsonWhole.DecodedPassesCheck | sw/AMI/app/json.c:361-377 | json_check returns true on everything that json_decode returns; the links of the decoded nodes do not leave them |
| JsonWhole.CheckedIsPrintable | sw/AMI/app/json.c:1313-1381 | what json_check passes holds a value that meets the assertions of json_stringify, for every rendering of its doubles |
| JsonWhole.CheckedHasShape | sw/AMI/app/json.c:1313-1381 | what json_check passes can be given to json_delete |
| JsonWhole.RenderedHolds | sw/AMI/app/json.c:954-1240 | the nodes that hold a decoded tree hold, for the printer, the tree of rendered numbers |
| JsonWhole.Reformat | sw/AMI/app/json.c:361-431 | json_decode, json_check, json_stringify and json_delete in a row: the check passes, the printed text is that of Reencoding, every node of the tree is freed once, and no node is left over for any text, accepted or not |
| ProxySafety.LifetimeSafety | sw/AMI/driver/amc_proxy.c:539-718 | in every reachable state of every interleaving: listed commands are unfreed, the command the lock holder uses next is unfreed, and the holder can always go on |
| ProxySafety.StepKeepsInv | sw/AMI/driver/ami_amc_control.c:1571-1591 | the invariant behind it is inductive; its key clause: a command that was woken with `cmd_rcode` 0 is neither in the list nor in the hands of the response thread, so it may be freed without the lock |
| ProxySafety.RunKeepsInv | sw/AMI/driver/ami_amc_control.c:1182-1697 | so every state of every run satisfies it |
| ProxySafety.ResponsesMatchOne | sw/AMI/driver/amc_proxy.c:549-551 | listed commands have different identifiers: a response matches at most one of them |
| ProxySafety.AnsweredBeforeSuccess | sw/AMI/driver/ami_amc_control.c:1571-1680 | a command whose AMC code is checked returns 0 only if a response with its identifier and code 0 was received and stored in it while it was listed |
| ProxySafety.AnswerHasSource | sw/AMI/driver/amc_proxy.c:551-560 | a response stored in a command was stored by a step that found it in the list |
| ProxySafety.DoomedNeverSucceeds | sw/AMI/driver/ami_amc_control.c:1578-1591 | once a command has timed out or was aborted, it never returns 0 in any continuation |
| ProxySafety.SuccessIsPossible | sw/AMI/driver/ami_amc_control.c:1571-1680 | a run in which a command succeeds: the claims about success are not empty |
| ProxySafety.FlagHasSource | sw/AMI/driver/ami_amc_control.c:428-432 | in every run, the flag of a command is set exactly when the response thread has written it |
| ProxySafety.TimeoutReport | sw/AMI/driver/ami_amc_control.c:1578-1591 | for every run and every expired command: it reports -ETIMEDOUT if the flag was written before the requester reads it, and otherwise -EINVAL, with the response thread about to write the flag |
| ProxySafety.TimeoutReportedAsInvalid | sw/AMI/driver/ami_amc_control.c:428-432 | a run that shows the second case of TimeoutReport: the waiter reads `timed_out` between the signal and the write of the flag; it still has to wait for the lock, so the late write touches a live command |
| ProxyProtocol.AmcResultToErrno | sw/AMI/driver/amc_proxy.c:499-528 | only the code for success maps to 0 |
| AmcProxy.ProxyInstance.CmdComplete | sw/AMI/driver/amc_proxy.c:539-590 | on the commands and the list: the state that the steps of the protocol reach for this response |
| AmcProxy.ProxyInstance.CheckTimeout | sw/AMI/driver/amc_proxy.c:692-718 | on the commands and the list: the state after a scan that leaves the list alone |
| AmcProxy.ProxyInstance.Drain | sw/AMI/driver/amc_proxy.c:621-652 | on the commands and the list: the state after a scan that unlinks what it expires |
| AmcProxy.ProxyInstance.RemoveSubmittedCmd | sw/AMI/driver/amc_proxy.c:661-684 | the command leaves the list, and only if it was in it gets -EIO |
| AmcProxy.ProxyInstance.RequestAbort | sw/AMI/driver/amc_proxy.c:954-970 | which is the abort step of the protocol |
| AmcProxy.ProxyInstance.Enlist | sw/AMI/driver/amc_proxy.c:997-1000 | the command goes to the end of the list, which is the enlisting step of the protocol |
| AmcProxy.AmcProxyCallback | sw/AMI/driver/ami_amc_control.c:406-441 | a completion or a timeout signals the waiter once; only a timeout sets `timed_out`; other events are refused |
| AmcProxy.ScanIsSteps | sw/AMI/driver/amc_proxy.c:692-718 | the walk from start to end is a number of single steps of the state machine, for every list |
| AmcProxy.SearchIsSteps | sw/AMI/driver/amc_proxy.c:539-590 | so is the search for the command of a response |
| AmcProxy.ScanExpires | sw/AMI/driver/amc_proxy.c:621-718 | a scan expires exactly the commands over their deadline, a drain unlinks exactly those, and everything else is unchanged |
| CidPool.CidTable.GetGcqCid | sw/AMI/driver/ami_amc_control.c:342-373 | fails with -EBUSY exactly when all 256 identifiers are held; otherwise hands out a free one, cyclically |
| CidPool.CidTable.RemoveGcqCid | sw/AMI/driver/ami_amc_control.c:382-396 | erases the identifier whoever holds it, and reports -EIO unless it was held by the caller |
| CidPool.LowestFree | sw/AMI/driver/ami_amc_control.c:342-373 | the kernel search: the lowest free identifier at or after the cursor, or none if there is none |
| CidPool.AllocationIsFresh | sw/AMI/driver/ami_amc_control.c:342-373 | an allocation succeeds exactly when an identifier is free, and returns a free one |
| CidPool.ReuseDistance | sw/AMI/driver/ami_amc_control.c:342-396 | for every run of allocations and releases: between two allocations of an identifier there are at least 256 - B others, B being the number in use at the first |
| CidPool.EarlyFailureSharesZero | sw/AMI/driver/ami_amc_control.c:1684-1685 | from every pool in which 0 is in use: after a failure before an identifier was assigned, some number of allocations hands out 0 a second time |
| CidPool.EarlyFailureIsHarmless | sw/AMI/driver/ami_amc_control.c:1684-1685 | such a failure leaves the pool as it is if and only if 0 is not in use |
| CidPool.DistinctExactly | sw/AMI/driver/ami_amc_control.c:1430-1434 | over every run of submissions: the identifiers in flight stay different and in use if and only if no submission fails early while a command holds 0 |
| CidPool.EarlyFailureHarmsExactly | sw/AMI/driver/ami_amc_control.c:1684-1685 | an early failure can lead to two commands holding 0, without any further harm, if and only if some command holds 0 at the time |
| ImageDownload.DoImageDownload | sw/AMI/driver/ami_program.c:38-174 | for every buffer, partition and pattern of failures: result, requests, signals and every intermediate flash are those of a prefix of the plan, complete exactly on success |
| ImageDownload.DownloadChunk | sw/AMI/driver/ami_program.c:71-133 | one iteration sends the planned request, invalidates the tag exactly for the first of several chunks of a partition, and signals exactly after a chunk that succeeded |
| ImageDownload.DownloadChunks | sw/AMI/driver/ami_program.c:70-174 | the loop and what follows it run the plan from its first request, stop at the first failure, and end with the whole plan otherwise |
| ImageDownload.RewriteFirstChunk | sw/AMI/driver/ami_program.c:145-174 | after the loop, the first chunk is sent again exactly when the tag was invalidated, and signalled exactly when that succeeded |
| ImageDownload.RewriteBootTag | sw/AMI/driver/ami_program.c:145-158 | the final command writes the full first chunk with the last flag |
| ImageDownload.FlagsUnpack | sw/AMI/driver/ami_program.h:53-59 | unpacking returns what was packed, with the chunk number modulo 2^15 |
| DownloadSafety.EveryStateIsSafe | sw/AMI/driver/ami_program.c:70-174 | for images of at most 2^30 bytes, at every point of every run of a partition download: untouched, or first four bytes FF FF FF FF, or the complete image |
| DownloadSafety.SuccessHasImage | sw/AMI/driver/ami_program.c:70-174 | when the download returns 0 the image is in place |
| DownloadSafety.CompletedDownload | sw/AMI/driver/ami_program.c:70-174 | for images of at most 2^30 bytes, all requests together write exactly the image and change no other byte of the flash |
| DownloadSafety.CrashSafetyIsExact | sw/AMI/driver/ami_program.c:76-81 | for images of at most 2^30 bytes, over all flashes and interruption points: safety holds if and only if the target is a partition, or the table fits one chunk, or it begins with the invalid tag |
| DownloadSafety.UpdateIsNotSafe | sw/AMI/driver/ami_program.c:76-81 | for every other table update, a flash that the first request alone leaves unsafe |
| DownloadSafety.CrashSafetyBeyond | sw/AMI/driver/ami_program.c:70-174 | for images of more than 2^30 bytes, over all flashes and interruption points: safety holds if and only if the image, and every chunk whose number wraps around to the start, begins with the invalid tag |
| DownloadSafety.ImageIsStoredIff | sw/AMI/driver/ami_program.h:53-59 | an uninterrupted download stores the image over every flash if and only if it has at most 2^30 bytes |
| DownloadSafety.ChunkNumbersDistinctIff | sw/AMI/driver/ami_program.h:53-59 | no two chunk numbers collide after packing if and only if the image has at most 2^30 bytes |
| DownloadSafety.LastFlagIsFinal | sw/AMI/driver/ami_program.c:87-87 | for images of at most 2^30 bytes, the last-chunk flag is on the final command and on no other |
| DownloadSafety.ProgressIsComplete | sw/AMI/driver/ami_program.c:93-173 | for images of at most 2^30 bytes, one signal per chunk, and byte counts that sum to the size |
| SdrParser.ParseSdr | sw/AMI/driver/ami_sensor.c:132-471 | for every buffer with trustworthy lengths: the result code, the header fields and all records, including what is kept when the end marker is wrong |
| SdrParser.ParseRecords | sw/AMI/driver/ami_sensor.c:365-451 | the loop fills zeroed records with exactly what the bytes say, one after the other |
| SdrParser.ParseRecord | sw/AMI/driver/ami_sensor.c:376-448 | one round keeps id, fields, threshold byte, present limits, status and peaks of the record at the position, and moves behind it |
| SdrParser.DecodesEncoding | sw/AMI/driver/ami_sensor.c:144-471 | every list of records comes back from its encoding, whatever follows it, and the end marker is looked for exactly where the encoding ends |
| SdrParser.SuccessIsEncoding | sw/AMI/driver/ami_sensor.c:144-471 | conversely, success means that the buffer begins with the encoding of exactly the records kept |
| SdrParser.NeverKeptAlike | sw/AMI/driver/ami_sensor.c:378-447 | two different lists of records are never kept alike |
| SdrParser.LimitsAreKept | sw/AMI/driver/ami_sensor.c:401-447 | a present limit is kept in front of zeros, an absent one as zeros, and the threshold byte tells them apart |
| SdrRecords.ReadingsOfEncoding | sw/AMI/driver/ami_sensor.c:376-449 | a list of records is read back from its bytes at any position of a buffer |
| SdrRecords.EncodingOfReadings | sw/AMI/driver/ami_sensor.c:376-449 | what is read is the one list whose encoding stands there |
| SdrRecords.SupportSaysWhich | sw/AMI/driver/ami_sensor.c:401-447 | bit b of the threshold byte is set exactly when limit b is present |
| SensorWalk.GetAllSensors | sw/AMI/driver/ami_sensor.c:845-961 | result code for every failure with the repository unchanged, and on success the records updated entry by entry and the time of the update |
| SensorWalk.WalkEntries | sw/AMI/driver/ami_sensor.c:899-947 | the loop ends, and applies the entries of the reply in order, whichever of them find a record |
| SensorWalk.CopyEntry | sw/AMI/driver/ami_sensor.c:919-945 | value, maximum and average go to their own fields in the order of the reply, over zeros |
| SensorWalk.PositionalUpdate | sw/AMI/driver/ami_sensor.c:903-945 | entry k updates exactly the first record with identifier k + 1; all other records are unchanged |
| SensorWalk.ReplyUpdates | sw/AMI/driver/ami_sensor.c:899-945 | the same stated on the bytes of a reply, for distinct identifiers |
| SensorWalk.FindSdrRecord | sw/AMI/driver/ami_sensor.c:780-803 | the first matching record of the first repository of the type that has one, or none if there is none |
| LogRing.Logger.DumpAmcLog | sw/AMI/driver/ami_log.c:21-65 | an index over 50 changes nothing; an index below 50 reads exactly the slots from the last one on, in cyclic order, and prints their texts |
| LogRing.LogIsExact | sw/AMI/driver/ami_log.c:21-65 | over whole runs: everything written up to the last drain was read, in order, without loss or repeat, if and only if fewer than 50 messages were written between drains |
| LogRing.SeenSoFar | sw/AMI/driver/ami_log.c:21-65 | once a drain comes too late, messages are missing for good |
| LogRing.RingHolds | sw/AMI/driver/ami_log.c:48-65 | the ring always holds the last 50 messages, each in the slot of its number modulo 50 |
| LogRing.FiftyIsNeverReached | sw/AMI/driver/ami_log.c:40-62 | index 50 passes the guard and no number of rounds reaches it |
| LogRing.LoopEndsExactly | sw/AMI/driver/ami_log.c:40-62 | of the indices that the guard lets through, the loop of the reader reaches exactly those below 50 |
| Heartbeat.HeartbeatHealthThread | sw/AMI/driver/ami_amc_control.c:949-1017 | for every sequence of outcomes, each round does what is expected of it: the heartbeat with identifier n modulo 256 and its event, the fatal event, or nothing |
| Heartbeat.OneFatalEvent | sw/AMI/driver/ami_amc_control.c:969-1010 | the fatal event comes exactly in the round after the first three consecutive failures of either kind, never again, and no heartbeat follows it |

## Left out

- JsonRoundTrip.RoundTrip: `strtod` and `sprintf` are parameters, so which doubles survive is not computed; `strtod` gets the text of the number alone, where the code hands it the rest of the input, of which it reads no more wherever the parse succeeds.
- JsonPrinter.EmitString: the assertion that strings are valid UTF-8 is a precondition, so the replacement of ill-formed bytes in builds without assertions is not modelled; neither is the branch for `escape_unicode`, which is constantly false.
- JsonParser.JsonDecode: nodes are counted; the buffers of strings and keys, and their release on failure, are not.
- JsonCheck.JsonCheck: the method is stated for heaps on which the code returns, which its fuel stands for; ReturnsExactly says which these are. Invalid tag numbers and boolean bytes are excluded by types.
- JsonDelete.JsonDelete: the allocator is a ghost account of live and freed nodes; strings and keys go with their node and are not counted.
- Memory exhaustion, and the exits it causes in the JSON library and the driver.
- json_find_element, json_find_member, json_first_child and json_encode_string: lookups and wrappers that would add only easy members.
- ProxySafety.LifetimeSafety: covers an open proxy and commands that received an identifier; teardown, and failures before that point, are not part of the state machine.
- ProxyProtocol: jiffies do not wrap around, and the locks that only delay requesters (gcq_cmd_lock and the payload semaphores) are left out, which allows more interleavings than the driver.
- A liveness claim for responses: a command is listed after its queue write, so an early response is dropped and the command times out.
- AmcProxy.ProxyInstance.CheckTimeout: the object-level walks run without other threads in between; the interleaved walk is the state machine.
- The request builders other than the shared enlisting step, and the mapping from requests to identifiers in submit_gcq_command.
- CidPool.CidTable.GetGcqCid: the kernel allocator is modelled by its contract (lowest free identifier from the cursor, else from zero), without its error for a failed memory allocation.
- ImageDownload.Device.Submit: the controller writes a chunk at its number times 32768 in one atomic step; its firmware is not part of this model.
- SdrParser.ParseSdr: board information and partition tables are not decoded; lengths that overrun the buffer or the four-byte limits are excluded by a precondition, as the code trusts them.
- SensorWalk.GetAllSensors: the table of get_sid is the parameter `sid`; matched entries longer than four bytes are excluded by a precondition, as the code copies them over what follows the field.
- SensorWalk.WalkEntries: the same precondition.
- SensorWalk.CopyEntry: the same precondition, for the three values of one entry.
- LogRing.Logger.DumpAmcLog: index 50 is excluded by a precondition, since the code does not return for it (LoopEndsExactly).
- LogRing.LogIsExact: a drain is atomic; messages that the card writes while a drain is reading are not modelled.
- Heartbeat.HeartbeatHealthThread: sleeping and stopping are the end of the list of outcomes; the callback is present.
- Null-pointer checks of arguments at the top of the driver's functions.
- PCI configuration, VSEC parsing, hwmon and sysfs, ioctl dispatch, reference counting in ami_top.c, and the command-line interface.
