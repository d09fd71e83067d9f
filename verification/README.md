# ESQ: a verified model

ESQ is an event server: worker threads move sessions between lists as sockets become
ready or time out, requests are routed by URL prefix, and data are kept in buckets that
hash-prefix range maps lead to. This project models its data structures, protocols and
codecs in Dafny and proves what they promise, for all inputs and all sequences of steps.

`dafny verify dfyconfig.toml` checks everything. `Sequences` and `Bytes` hold what several parts use.

## Parts and main results

- **Head-match tree** (`Bytes`, `Patterns`, `Trie`, `TrieCorrect`, `JumpTables`, `Matcher`,
  `Hmt`): sorted registration, compilation into flat tables, and the matching loop. The loop
  refines a ternary search over index ranges, which is compared with the naive longest
  registered prefix. Registration sorts by unsigned bytes, matching compares plain (signed)
  `char`s; the tree is right for every string if and only if no two patterns first differ in
  a byte below 128 against one above (`Hmt.TreeAlwaysRightIffCompatible`).
- **Red-black tree** (`Rb...`): insertion, removal, both recolouring loops, search, next node,
  walk and height bound over linked nodes with parent pointers. Proofs are about a snapshot of
  all fields (`Shape`) with ghost marks for subtrees and black heights; the methods write the
  pointers one by one. The right-hand cases follow from the left-hand ones by `RbNodes.Mirror`.
- **Range map** (`RangeChains`, `RangeMap`): the rebuild, the chains that share tails, lookups.
- **Logger** (`LogQueue`, `Logger`): the ring refines a queue of chunks, and every interleaving
  of the queue's steps conserves the accepted bytes. An empty buffer that the worker picks
  blocks the ring for good; the exact condition is `LogQueue.DrainExact`.
- **Multipart parser** (`FormText`, `FormParser`, `FormRoundTrip`, `FormChunks`, `FormCuts`,
  `FormBuffers`): the loop refines a recursive parser; the round trip holds if and only if there
  is a part and every part is clean. The delimiter the parser stores lacks the boundary's last byte, so values are
  restricted more than RFC 2046 restricts them (`FormRoundTrip.LegalValueIsCut`). A clean body in
  several buffers comes back if and only if every cut is between two items or in a value
  (`FormBuffers.InBuffers`); behind a content type it turns on the memory behind the buffer.
- **Sessions** (`SessionLists`, `SessionCore`, `WorkerLists`, `WorkerKin`, `Worker`, `Sweeps`,
  `ExitSweep`, `WorkerLoop`, `SessionFamily`, `SessionEvents`): list macros, the two socket automata and their
  lists, the sweeps that walk a list while they relink it, the worker's loop, and the protocol
  between parents and children. An action no state expects makes the process exit; this is the
  outcome `crashed`. A session that ends tells its parent, and that can be such an action: the
  exact condition is `SessionCore.RefusesExactly`, a run that meets it `SessionCore.ChildEndsTooEarly`.
  From one callback to the next no event is lost (`SessionEvents.EveryEventArrives`), but a change from
  a single-shot to a multi-shot socket forgets those of the callback, and an event during a single-shot
  callback does not wake the session behind it. A timeout fires on time if and only if it has no
  milliseconds: those are added to microseconds (`Sweeps.OnTimeIffWholeSeconds`).
- **Storage** (`FileCache`, `BeeStore`, `SyncTargets`): the lending file cache, layered buckets
  behind range-map chains as a refinement of a plain map, the partition of sync targets.
- **Parameter codec** (`ParamCodec`): encoder, decoder, round trip. The decoder ors signed
  bytes, so an integer arrives unchanged only under the condition of `ParamCodec.WordArrives`.

Where comments and code disagree the model follows the code: the head comment in
`bee/monkey.c` puts the type into the lowest bits, the code reads bits 2 and 3.

## Model

| member | source | states |
|---|---|---|
| Patterns.CompareZero | libs/head-match-tree/add.c:7-10 | Two patterns are "there already" (compare equal) exactly when they are the same string. |
| Patterns.AboveTransitive | libs/head-match-tree/add.c:7-10 | The comparison the sorted array relies on is transitive over all byte strings. |
| Patterns.LongestUnique | libs/head-match-tree/compile.c:145-151 | A string has at most one longest registered prefix, so the answer promised by the comment is well defined. |
| Hmt.InsertAt | libs/head-match-tree/add.c:47-52 | Shifting the tail up and writing the slot yields old front, new item, old tail; nothing is lost. |
| Hmt.InsertDescends | libs/head-match-tree/add.c:34-51 | A pattern put where the scan stops keeps the array strictly descending. |
| Hmt.InsertRegisters | libs/head-match-tree/add.c:34-52 | That insertion adds exactly one new entry to the registered map and changes no other. |
| Hmt.Tree.New | libs/head-match-tree/new.c:41-91 | A tree is refused exactly for 111 items or more; a new one has room for the items asked for, takes patterns shorter than 16, 32, 64, 128 or 512 bytes by its scale, registers nothing and matches nothing. |
| Hmt.Tree.Add | libs/head-match-tree/add.c:16-75 | Each return code under its exact condition; the registered map gains the pattern on 0 and is unchanged on -1, -2, -3; the array stays sorted and duplicate-free. |
| Trie.RangeFalls | libs/head-match-tree/compile.c:43-55 | Along a range that shares a prefix the next bytes fall, and only the last pattern can end there. |
| Trie.GroupIsRange | libs/head-match-tree/compile.c:59-80 | The center group shares one byte more; the patterns before and after it share the old prefix and differ from it: the groups at a depth partition a range. |
| JumpTables.SlotsDistinct | libs/head-match-tree/compile.c:74-80 | (group start, depth) pairs never share a table slot. |
| JumpTables.FindCenterGroupBorder | libs/head-match-tree/compile.c:8-41 | The two loops find the whole run of equal bytes around the middle index. |
| JumpTables.FillJumpTables | libs/head-match-tree/compile.c:44-83 | The recursion fills the three tables of a range so that they encode its ternary search, and writes no slot outside the range's rows and depths; it terminates because (remaining depth, range size) falls. |
| Matcher.FirstShortPrefix | libs/head-match-tree/compile.c:115-127 | The inner loop finds the first later pattern that is a prefix of the row's pattern and short enough, or -1. |
| Matcher.FindSomeoneElseMatched | libs/head-match-tree/compile.c:102-132 | One row of the fall-back table is complete for every depth of its pattern; other rows are untouched. |
| Matcher.FillSomeoneElseMatchedTable | libs/head-match-tree/compile.c:135-143 | Every row of the fall-back table is complete. |
| Matcher.Walk | libs/head-match-tree/match.c:26-83 | On filled tables the matching loop terminates and answers what the ternary search over index ranges answers, fall-back included. |
| TrieCorrect.SearchIsLongest | libs/head-match-tree/match.c:26-83 | Over patterns whose signed and unsigned byte orders agree, the search finds the longest pattern that is a prefix of any string, and none exactly when none is. |
| TrieCorrect.SearchIsSound | libs/head-match-tree/match.c:26-83 | Whatever the bytes, an answer is always a prefix of the string. |
| TrieCorrect.ClashMisses | libs/head-match-tree/match.c:46-66 | If two patterns first differ in a byte below 128 against one above, some registered pattern misses itself: strncmp sorted it on one side, the plain char comparison looks on the other. |
| TrieCorrect.ClashExample | libs/head-match-tree/match.c:46-66 | A concrete such pair: with 2F C8 and 2F 61 registered, 2F 61 is not found. |
| TrieCorrect.AlwaysRightIffCompatible | libs/head-match-tree/match.c:26-83 | The search is right for every string if and only if no two patterns first differ across byte 128. |
| TrieCorrect.AsciiNeverClashes | libs/head-match-tree/add.c:7-10 | Patterns of bytes below 128 always meet that condition. |
| Hmt.BuildTables | libs/head-match-tree/compile.c:152-193 | Allocation and the three fill passes leave complete tables of the right size, the lengths, and the entry point of the whole range. |
| Hmt.Tree.Compile | libs/head-match-tree/compile.c:152-200 | Compiling changes no registration; -1 and nothing to match without items, else the tables stand for the items. |
| Hmt.Tree.Match | libs/head-match-tree/match.c:8-83 | The table-driven answer is the data and length of the longest registered prefix whenever the patterns are compatible, and none before compilation. |
| Hmt.TableAnswerIsRight | libs/head-match-tree/compile.c:145-151 | For compatible patterns the compiled tree answers each string with the longest registered pattern that begins it, its data and its length. |
| Hmt.TreeAlwaysRightIffCompatible | libs/head-match-tree/match.c:8-83 | Exact condition at the level of the registered map: every string is answered right if and only if the patterns are compatible. |
| Hmt.ClashAnswersWrong | libs/head-match-tree/match.c:8-83 | For any other set of patterns there is a string with a wrong answer. |
| Hmt.AddAll | libs/head-match-tree/add.c:62-75 | A new tree takes, with 0 each time, any different non-empty patterns below its limit, as many as it was made for, and then registers exactly those. |
| Hmt.Serve | nghttp2_wrapper/instance.c:71-114 | A tree from its making to its answers: all patterns that fit are taken, compiling succeeds, and each pattern matches itself with its own data and length, if the patterns are compatible. |
| RbNodes.TurnLinked | internal/tree.h:340-358 | A left rotation keeps one search tree of the same nodes with consistent parent links. |
| RbNodes.TurnRightLinked | internal/tree.h:360-378 | So does a right rotation. |
| RbTree.Head.RotateLeft | internal/tree.h:340-358 | The pointer writes of the macro are exactly that left rotation of the whole heap of nodes, the root pointer included. |
| RbTree.Head.RotateRight | internal/tree.h:360-378 | The pointer writes of the macro are exactly that right rotation. |
| RbPaths.DistinctKeys | internal/tree.h:601-611 | Different nodes of one tree never compare equal. |
| RbPaths.SameSide | internal/tree.h:537-541 | A node outside a subtree is on the same side of all of it. |
| RbColors.RedUncleKeeps | internal/tree.h:413-419 | Red uncle: after recolouring, the only possible fault is two levels up. |
| RbColors.InnerTurnKeeps | internal/tree.h:420-425 | Inner child: the first rotation keeps the state of the loop and swaps child and parent. |
| RbColors.OuterTurnKeeps | internal/tree.h:426-427 | Outer child: colour swap and rotation remove the fault. |
| RbColors.InsertedIsRedBlack | internal/tree.h:446 | When the loop ends, blackening the root gives a red-black tree. |
| RbTree.Head.InsertColorLeft | internal/tree.h:411-427 | One round with the parent on the left keeps the loop's state and either ends it or leaves fewer nodes outside the faulty subtree. |
| RbTree.Head.InsertColorRight | internal/tree.h:428-443 | The same with the parent on the right. |
| RbTree.Head.InsertColor | internal/tree.h:406-447 | The loop terminates and restores the red-black conditions over the same nodes. |
| RbHang.HungInserting | internal/tree.h:612-621 | A new red leaf hung where the descent ended leaves only a possible red parent. |
| RbTree.Head.Find | internal/tree.h:627-640 | Finds the node with an equivalent key if and only if there is one. |
| RbTree.Head.Descend | internal/tree.h:598-611 | The descent ends at the place of the new key, or at the node that already has it. |
| RbTree.Head.Insert | internal/tree.h:596-623 | Search order, links and red-black conditions are kept; the node set gains exactly the new node, or the equal node is returned and nothing changes. |
| RbSplice.SplicedLinked | internal/tree.h:576-587 | Bypassing a node with at most one child leaves one search tree of the other nodes. |
| RbSplice.SplicedKeeps | internal/tree.h:576-590 | Taking out a red node leaves a red-black tree; a black one leaves exactly one side one black node short, where the loop is started. |
| RbOrder.RightThenLeftmost | internal/tree.h:538-540 | The leftmost node of the right subtree is the next node in order. |
| RbRename.RenamedLinked | internal/tree.h:554-567 | Handing a node's links and colour to its successor keeps the search tree. |
| RbRename.RenamedLacking | internal/tree.h:554-567 | The hand-over keeps a missing black node where it was. |
| RbLack.RedSiblingKeeps | internal/tree.h:456-461 | Red sibling: after swap and rotation the sibling is black and the same side is short. |
| RbLack.SinkMoves | internal/tree.h:462-468 | Black sibling without red children: painting it red moves the shortage to the parent. |
| RbLack.NearRedKeeps | internal/tree.h:470-479 | Only the near child red: the rotation makes the far child the red one. |
| RbLack.FarRedRepairs | internal/tree.h:480-486 | Red far child: recolouring and one rotation end the shortage. |
| RbLack.PaintRepairs | internal/tree.h:522-523 | A red node on the short side ends it by turning black. |
| RbLack.RootRepairs | internal/tree.h:453-454 | At the root there is no shortage. |
| RbRemoveColor.RoundLeft | internal/tree.h:455-487 | One round on the left side: done, or the shortage is strictly higher up or at a red node. |
| RbRemoveColor.RoundRight | internal/tree.h:488-521 | The same on the right side. |
| RbRemoveColor.RemoveColor | internal/tree.h:450-525 | The loop terminates and gives a red-black tree of the same nodes. |
| RbRemove.GoLeft | internal/tree.h:538-540 | The loop ends at the leftmost node of a subtree. |
| RbRemove.SpliceOut | internal/tree.h:576-587 | The pointer writes are exactly the splice, and the node leaves the set. |
| RbRemove.TakePlace | internal/tree.h:556-567 | The copy of the node's fields and the relinking are exactly the hand-over. |
| RbRemove.RemovedInner | internal/tree.h:537-574 | Splicing the next node and handing it the removed node's place leaves a red-black tree, or one short where the loop is started. |
| RbRemove.Remove | internal/tree.h:528-592 | Search order, links and red-black conditions are kept; the node set loses exactly the given node. |
| RbRemove.Next | internal/tree.h:666-684 | By parent pointers alone: the first node after the given one in key order, or none after the last. |
| RbWalk.MinMax | internal/tree.h:709-721 | The least or the greatest node, none exactly when the tree is empty. |
| RbWalk.Foreach | internal/tree.h:735-738 | The walk visits every node exactly once, in ascending order, and stops. |
| RbWalk.Balanced | internal/tree.h:53-55 | A subtree is at most twice as high as its black height (one more under a red top), and has at least 2^black - 1 nodes. |
| RbWalk.HeightBound | internal/tree.h:58-59 | 2^height <= (n + 1)^2: the height is at most 2 lg(n + 1). |
| RangeChains.MatchingIsRight | src/range-map.c:697-725 | What a lookup owes: exactly the nodes whose prefix begins the hash, each once, longest prefix first, list order within a length. |
| RangeChains.ShortHeadStarts | src/range-map.c:184-208 | The head of the longest shorter prefix in use is where the list of shorter matches begins. |
| RangeChains.ChainFrom | src/range-map.c:184-231 | If each pointer leads to its group's next node or to the next shorter head, following them yields exactly what is due and ends: chains share tails and have no cycle. |
| RangeMap.Map.Clean | src/range-map.c:131-162 | Trees are emptied, the deleted nodes leave the list and the others lose their pointers, order kept. |
| RangeMap.Map.LoadNode | src/range-map.c:165-181 | The node becomes the head of its prefix or the end of its prefix's group. |
| RangeMap.Map.LinkShortMatch | src/range-map.c:184-208 | A whole group is led on to the longest shorter prefix that has nodes; no other pointer changes. |
| RangeMap.Map.LinkLength | src/range-map.c:216-228 | All groups of one length are linked, whatever the order of their heads. |
| RangeMap.Map.BuildCrossDepthReference | src/range-map.c:211-231 | Every group is linked, and `longest` is the greatest length in use. |
| RangeMap.Map.Rebuild | src/range-map.c:234-245 | From any list, in any earlier state of pointers and trees, the structure becomes that of the surviving list. |
| RangeMap.BuiltOnce | src/range-map.c:131-245 | History independence: two builds from one list have the same trees and the same `longest`. |
| RangeMap.Map.FindNode | src/range-map.c:489-511 | Finds the node with this address and prefix if and only if there is one. |
| RangeMap.Map.AddNode | src/range-map.c:546-612 | A duplicate is refused and changes nothing; else the node heads the list, and lookups go on as before until a rebuild. |
| RangeMap.Map.DelNode | src/range-map.c:615-651 | The node, and every node marked earlier, is gone from list, trees and chains; an unknown node changes nothing. |
| RangeMap.Map.DelAllNode | src/range-map.c:654-675 | Nothing is left. |
| RangeMap.Map.Flush | src/range-map.c:678-695 | Lookups then are those of the surviving list; a second rebuild changes no tree and no pointer. |
| RangeMap.Map.Find | src/range-map.c:698-725 | The node found begins a chain of exactly the matching nodes, longest prefix first. |
| RangeMap.Map.GetAddresses | src/range-map.c:746-778 | All matching addresses in chain order and their number, or -1 and as many as fit. |
| LogQueue.PassAppends | src/logger.c:269-336 | Only an accepted message changes what is pending, and it goes to the end; nothing reaches the disk. |
| LogQueue.PassAnswers | src/logger.c:269-336 | Which answer a producer gets, by the length of the message and the room left alone: closed, no buffer, nothing to log, too long for any buffer, logged, or once more with the next buffer. |
| LogQueue.ClosedStays | src/logger.c:157-227 | A closed buffer keeps its bytes and takes no more until it has been written. |
| LogQueue.AgainOnce | src/logger.c:313-321 | Whoever is sent round again is logged by the next pass, or waits because all four buffers are in use. |
| LogQueue.StepKeeps | src/logger.c:142-336 | Each atomic step of a producer, the worker or the stop keeps: disk, then pending, equals accepted. |
| LogQueue.EveryRun | src/logger.c:142-336 | For every interleaving from the start, bytes on disk followed by the pending buffers equal the accepted messages in acceptance order. |
| LogQueue.StuckForEver | src/logger.c:142-227 | Once an empty buffer is closed or has others behind it, nothing ever reaches the disk again. |
| LogQueue.DrainExact | src/logger.c:258-262 | The exact condition of the last four flushes: they write everything if and only if nothing is pending or the oldest buffer is not empty. |
| LogQueue.ProperRun | src/logger.c:258-262 | With messages of 1 to 4095 bytes no buffer is ever empty, so the last four flushes leave nothing pending. |
| LogQueue.RejectedMessageBlocks | src/logger.c:297-311 | A concrete loss: an empty message on an idle ring, a flush, and the next message never reaches the disk. |
| Logger.NextIsFree | src/logger.c:128-139 | The buffer behind the user's is free exactly when not all four are used. |
| Logger.OldestFound | src/logger.c:159-174 | Where the worker starts to look, it finds the oldest used buffer, and none exactly when none is used. |
| Logger.OldestLeaves | src/logger.c:201-204 | Emptying the oldest buffer removes the first chunk of the queue and keeps the ring in order. |
| Logger.Ring.Open | src/logger.c:283-299 | A buffer that takes messages is found unless all four are full and unwritten; it is the queue's last chunk. |
| Logger.Ring.Log | src/logger.c:269-336 | One pass of the producer's loop on the ring is the queue's step, with the same result code. |
| Logger.Ring.FindUsed | src/logger.c:165-174 | The search around the ring stops at the first used buffer, or after four. |
| Logger.Ring.FlushBegin | src/logger.c:157-192 | Picking a buffer is the queue's step: the first chunk, closed if it is the only one. |
| Logger.Ring.FlushToDisk | src/logger.c:81-111 | The bytes written are those of the oldest chunk, whatever producers did meanwhile. |
| Logger.Ring.FlushEnd | src/logger.c:201-206 | The written buffer is given back; the other chunks stay. |
| Logger.Ring.FlushOneBuffer | src/logger.c:142-227 | A whole flush without producers in between is the queue's flush. |
| Logger.Ring.Drain | src/logger.c:258-262 | The worker's last act is four such flushes. |
| Logger.Ring.Detach | src/logger.c:454-468 | After the stop no message is accepted. |
| FormParser.LocateBoundary | libs/post-data-parser/parser.c:11-37 | The first line break within 256 bytes ends the first line, and the length found is that of the line less its last byte; -1 exactly if there is no line break there or it comes before the third byte. |
| FormParser.Context.Item | libs/post-data-parser/parser.c:96-231 | One round of the loop: its callbacks, the bytes it takes and the next state are those of the parsing function. |
| FormParser.Context.PostDataParser | libs/post-data-parser/parser.c:71-245 | The loop over a buffer produces the events, the state, the stored delimiter and the result of the parsing function, from any state of the context. |
| FormParser.ParseOrderly | libs/post-data-parser/parser.c:233-245 | On any bytes and in any state: a buffer that is taken reports no error; one that is refused reports exactly one, as its last event, and leaves the parser in error, except that nothing is reported before the first line and after the end. |
| FormRoundTrip.TypeEnd | libs/post-data-parser/parser.c:178-199 | The search that starts one byte late and reads past the buffer finds the end of a content type exactly for types that are not empty and have no line break behind their first byte. |
| FormRoundTrip.OnPart | libs/post-data-parser/parser.c:102-228 | One part, on the way between two boundary lines, comes back as it was if and only if it is clean: no quote in its names, such a type, no stored delimiter in its value. |
| FormRoundTrip.OnParts | libs/post-data-parser/parser.c:96-231 | The same for any list of parts. |
| FormRoundTrip.ParseStarts | libs/post-data-parser/parser.c:80-91 | The first line is reported whole, and the stored delimiter is CRLF and the line less its last byte. |
| FormRoundTrip.RoundTrip | libs/post-data-parser/parser.c:71-245 | Round trip: the events of the body of any list of parts give back the boundary lines, names, filenames, types and values if and only if there is a part and every part is clean; then the parser has finished without error. Layout after section 5.1.1 of RFC 2046 and section 4.1 of RFC 7578. |
| FormRoundTrip.EmptyFormRefused | libs/post-data-parser/parser.c:80-135 | The body of a form without parts is refused: its one line is taken for the boundary line, and the line break behind it for an item. |
| FormRoundTrip.FileLooks | libs/post-data-parser/tst/frames/chrome-small-file-form0.h:22-30 | What a file adds to the headers of its part, byte by byte. |
| FormRoundTrip.FormLooks | libs/post-data-parser/tst/frames/chrome-no-file-form0.h:1-20 | The bytes of a form with one field, so that the round trip is about forms as browsers send them. |
| FormRoundTrip.LegalValueIsCut | libs/post-data-parser/parser.c:102-118 | A value that RFC 2046 allows but that holds the boundary line less its last byte is cut short. |
| FormText.FirstWithTail | libs/post-data-parser/parser.c:205-212 | Where a value ends does not depend on what follows the delimiter. |
| FormChunks.CutFits | libs/post-data-parser/parser.c:233-237 | The two buffers of a cut are the whole body. |
| FormChunks.ParseFront | libs/post-data-parser/parser.c:102-117 | The first buffer ends in the state EMPTY_LINE for a cut before the value, else VALUE, with the part of the value as one event. |
| FormChunks.ParseBack | libs/post-data-parser/parser.c:204-219 | The second buffer, from that state, reports the rest of the value and all later parts. |
| FormChunks.CutInValue | libs/post-data-parser/parser.c:102-237 | The exact events of a cut anywhere in or at the ends of any value of a clean body: the same ones, that value in one or two pieces, and the same final state. |
| FormCuts.CutLeads | libs/post-data-parser/parser.c:96-237 | From any place between two items or in a value: a cut between items, or in or at the ends of a value, leaves the parser at the place of the cut, the events so far and those still due joining to the ones due from here; behind a content type only if the memory behind the buffer begins with the line break. |
| FormCuts.CutSpoils | libs/post-data-parser/parser.c:96-231 | Any other cut, in a header item or in the boundary line behind a value, cannot be made good by anything that follows: the buffer is refused, its events are no beginning of those due, or every next buffer is refused. |
| FormBuffers.CutTwice | libs/post-data-parser/parser.c:233-237 | A second cut behind a harmless one is harmless as seen from the first exactly when it is as seen from the start: cuts can be judged one by one. |
| FormBuffers.FromSpot | libs/post-data-parser/parser.c:96-237 | From any such place and over any list of buffers: all is reported as due, values joined, and the parser finishes, if and only if every cut is harmless. |
| FormBuffers.InBuffers | libs/post-data-parser/parser.c:71-245 | Chunk independence, whole: a clean body in any number of buffers gives the events of the body in one piece, values joined, and finishes without error, if and only if it has a part, the first buffer holds the first line with its line break, and every cut is harmless. |
| FormBuffers.CutInHeader | libs/post-data-parser/parser.c:136-153 | A concrete refused cut: a form with the one field n, cut behind name= in its header. |
| SessionLists.List.JoinHead | public/esqll.h:11-23 | The macro puts the node in front of the list; links both ways stay right. |
| SessionLists.List.JoinTail | public/esqll.h:25-39 | The macro puts the node at the end. |
| SessionLists.List.Left | public/esqll.h:41-63 | The macro takes out exactly that node, wherever it stands. |
| SessionLists.Lists.JoinHead | session/timing.c:44-96 | Several linked lists: joining the head of one is that on the sequences the lists stand for, and leaves the others linked as they were. |
| SessionLists.Lists.JoinTail | session/worker.c:343-359 | The same for joining the tail, as the active list is joined. |
| SessionLists.Lists.Left | session/timing.c:104-148 | The same for leaving a list, wherever the session stands; it is in none then. |
| SessionLists.Lists.Sweep | session/timing.c:160-181 | A sweep over linked lists by the link read before each visit: whatever the visits do, staying, leaving for another list or coming back to the head of this one, each session that was in the list is visited once and in order, and the lists are what those visits make of the sequences. |
| SessionLists.SweptRest | session/timing.c:160-181 | If none comes back, the list then holds exactly those whose visit left them there, in order. |
| SessionLists.Queue.Join | session/worker.c:460-473 | A new session stands at the end of the list of new ones. |
| SessionLists.Queue.Pop | session/worker.c:496-518 | The first new session is taken, none exactly when there is none. |
| SessionCore.LeavesWhatItJoined | session/timing.c:44-158 | The list a session leaves by its timeouts is the one its state says it is in. |
| SessionCore.SingleSane | session/pt_of_socket.c:23-357 | Every action keeps what this rests on, in the single-shot automaton. |
| SessionCore.MultiSane | session/pt_of_multi_shot_socket.c:23-300 | And in the multi-shot automaton. |
| SessionCore.TimeoutsStayWhileListed | session/pt_of_socket.c:149-170 | Timeouts change only while the session is in no list, or to zero as it moves to the list without timeouts. |
| SessionCore.RefusesExactly | session/pt_of_socket.c:41-341 | The exact states in which the news that a child has ended makes the process exit: before a session is wound up and while its socket is being given up; in every other state it goes on. |
| SessionCore.ChildEndsTooEarly | session/chassis.c:130-138 | A concrete run there: a parent with a timeout bundles a child in its callback, the timeout gives up its socket, the child ends, and the process exits. |
| SessionCore.OnlyRunCbCalls | session/pt_of_socket.c:41-341 | No action but its execution takes a session into its callback. |
| SessionCore.WindUpReturns | session/worker.c:617-621 | Winding up takes it out again, or ends it. |
| SessionEvents.EveryEventArrives | session/pt_of_multi_shot_socket.c:98-213 | No event is lost: in a run of either automaton from one callback to the next, of any length, the next callback is given exactly the events, exits, timeouts and socket failures of the run, and the bits of the last callback, which a multi-shot session keeps only if it was told nothing during that callback. |
| SessionEvents.FirstEvents | session/pt_of_socket.c:23-228 | The first callback is given exactly what the session was told since it has its socket. |
| SessionEvents.NewsIsPending | session/pt_of_socket.c:115-337 | Each step adds what it has to tell to what the next callback will be given; in a multi-shot callback that is kept apart from what the callback was given. |
| SessionEvents.SwitchForgets | session/pt_of_socket.c:249-253 | The exception: a session that takes a multi-shot socket in its callback forgets what it was told during that callback; the next one is given exactly what comes after. |
| SessionEvents.NotifiedWakes | session/pt_of_socket.c:115-218 | An event outside the callback makes the session active at once; a timeout or exit does, or when the socket has been given back, or the session is on its way out. In its callback it stays. |
| SessionEvents.ReturnWakes | session/pt_of_multi_shot_socket.c:162-181 | When the callback has returned, a multi-shot session is active again exactly if it was told something meanwhile; a single-shot one never is for that reason, but waits with its news. |
| SessionEvents.EventSleeps | session/pt_of_socket.c:276-334 | A run where that matters: a parent told of the end of its child during its own callback, which then waits for a socket without a timeout. |
| SessionEvents.WayOutIsFinal | session/pt_of_multi_shot_socket.c:182-286 | A session that has given up a multi-shot socket has no further callback, in any run. |
| SessionEvents.FailureIsNeverTold | session/pt_of_multi_shot_socket.c:182-191 | A multi-shot socket that cannot be given back: the failure is noted, and no callback is ever given it. |
| SessionEvents.EndsBehindBoth | session/pt_of_multi_shot_socket.c:192-286 | A session that gives up its multi-shot socket ends when its callback has returned and the socket has been let go, in either order, and not before. |
| SessionEvents.StepsExactly | session/internal.h:198-204 | Action by action: when it makes the process exit, ends the session or hands it over; in all other cases the session goes on. |
| SessionEvents.WaitsAsAsked | session/pt_of_socket.c:261-268 | In its first wait and behind every callback a session waits for the socket, with the timeouts and in the list it asked for last. |
| SessionEvents.FirstWait | session/pt_of_socket.c:25-112 | A session that takes its first socket waits for it once it is picked up, whichever way it was wound up. |
| SessionEvents.FirstMultiWait | session/pt_of_multi_shot_socket.c:25-96 | So does one that takes a multi-shot socket, first or in a callback. |
| SessionEvents.ParentAndKind | session/pt_of_socket.c:55-72 | A session gets a parent by being bundled and in no other way; its kind is that of the socket it asked for last. |
| SessionEvents.SocketGivenUp | session/pt_of_socket.c:149-172 | After a timeout, an exit or a removal the session has no socket any more. |
| SessionEvents.TimingListIs | session/timing.c:60-96 | The list chosen is that of the total time by the names of the lists, exactly if the milliseconds do not carry the time over a limit. |
| Worker.Context.JoinTimingList | session/timing.c:44-96 | The session heads the list its timeouts choose, and the time is recorded; no other session moves. |
| Worker.Context.LeftTimingList | session/timing.c:104-148 | It is in no list; no other session moves. |
| Worker.Context.ChangeToNoTimingList | session/timing.c:151-158 | It changes from its timing list to the one without timeouts, its timeouts zero. |
| Worker.Context.JoinActiveList | session/worker.c:343-359 | It joins the active list; no other session moves. |
| Worker.Context.LeftActiveList | session/worker.c:362-378 | It leaves the active list; no other session moves. |
| Worker.Context.InstallFd | session/pt_of_socket.c:96-114 | Winding up puts the session into the list of its new state, active if the poll request fails. |
| Worker.Context.RemoveFdThenActive | session/pt_of_socket.c:149-173 | Giving up the socket puts it into the list without timeouts, or the active one. |
| Worker.Context.RunSingleShot | session/pt_of_socket.c:41-341 | Each branch of the automaton does what the transition function says, and moves the session to the list of its new state. |
| Worker.Context.RunMultiShot | session/pt_of_multi_shot_socket.c:41-286 | The same for the multi-shot automaton. |
| Worker.Context.RunNoFd | session/pt_of_no_fd.c:19-49 | A session without a socket switches its type, ends, is handed over, or crashes the process, by the action. |
| Worker.Context.RunAutomaton | session/chassis.c:83-147 | Dispatch, including the second dispatch after a switch of type, does what the transition function says. |
| WorkerKin.PartedBonded | session/chassis.c:21-80 | Parents and children agree after the end of a session: its children have no parent, its parent one child less. |
| WorkerKin.AdoptedBonded | session/action.c:118-151 | They agree after a bundling. |
| Worker.Context.Dispatch | session/chassis.c:92-128 | The dispatch with the lists of new sessions: crashed exactly if the state does not expect the action, no other session has moved. |
| Worker.Context.Unhook | session/chassis.c:26-30 | Every child of an ending session loses its parent. |
| Worker.Context.TakeLeave | session/chassis.c:130-147 | An ended session leaves its children without a parent, leaves its parent, and tells a living parent; the process exits exactly if the parent does not expect to be told. |
| Worker.Context.TakeAction | session/chassis.c:83-171 | After any action: the process has exited exactly if the state does not expect the action, or the session ends and its living parent does not expect to be told; else every session is in exactly the one list its state implies, parents and children agree, and only the session and a parent that was told have moved, each as the transition function says; the parent will be given the news and is active or in its callback; a session that begins to wait has the present time recorded, and a new one stands in the list for what wound it up. |
| Worker.Context.BundleChild | session/action.c:118-151 | A child is bundled exactly if it has not begun and has no parent, and the parent is in its callback; else the process exits. |
| Worker.Context.NewSession | session/session.c:84-98 | A new session is in no list. |
| Worker.Context.PickUpFirst | session/worker.c:496-597 | The first new session leaves the list of new ones and is wound up; the invariant holds on and nothing crashes. |
| WorkerLoop.Loop.RunFirst | session/worker.c:320-340 | The first active session is executed and never refuses; it leaves the head of the list and then is the only one in its callback. |
| WorkerLoop.Loop.Act | session/chassis.c:83-171 | Any other action on any session, by a callback, an event or the worker, and the telling of a parent it causes, keep it so that at most the session being executed is in its callback. |
| WorkerLoop.Loop.Return | session/worker.c:617-621 | Winding up the executed session leaves none in its callback. |
| WorkerLoop.Loop.BundleChild | session/action.c:118-151 | So does a bundling keep it. |
| WorkerLoop.Loop.PickUpFirst | session/worker.c:496-597 | So does picking up a new session. |
| WorkerLoop.Loop.Timing | session/timing.c:223-257 | In every run of the loop the timeout sweep fires exactly for the sessions that wait with a timeout and began to so long ago, by the times of the steps in which they began, that the moment of `FiresAfter` is past; it changes nobody else. |
| WorkerLoop.Loop.NotifyExit | session/worker.c:119-138 | Between callbacks of any run of the loop the exit sweep makes the process exit for no session, and every session that has begun and is not a new one becomes what one exit makes of it; the others are as they were. |
| Sweeps.TimeoutAccepted | session/timing.c:160-181 | Every session in a list with timeouts accepts a timeout and so leaves that list. |
| Sweeps.LateExactly | session/timing.c:160-181 | The comparison of seconds and rest, as one comparison of times in microseconds. |
| Sweeps.OnTimeIffWholeSeconds | session/timing.c:29-42 | The milliseconds of a timeout are added to microseconds: sweeps fire at the right times exactly if the timeout has no milliseconds. |
| Sweeps.NeverOverdue | session/timing.c:160-181 | Nobody waits longer than asked for. |
| Sweeps.FiresEarly | session/timing.c:160-181 | A wait of 200 milliseconds is over after 201 microseconds. |
| Sweeps.CheckOne | session/timing.c:160-181 | The successor saved before the visit is still the next unvisited session after it. |
| Sweeps.CheckTiming | session/timing.c:160-181 | The sweep of one list ends, fires exactly the late sessions once, and keeps the others in order. |
| Sweeps.Timing | session/timing.c:223-257 | All four lists: exactly the sessions past their (second, sub-second) deadline are told, once each, though visiting relinks them; the rest stay as they were, in order. |
| ExitSweep.ExitRefused | session/worker.c:119-124 | A listed session refuses the exit exactly while it has given up its socket inside a callback and not wound up: then the process crashes. |
| ExitSweep.ExitAccepted | session/worker.c:119-124 | Every other listed session takes the exit, and an active one stays active. |
| ExitSweep.ExitTwice | session/worker.c:119-124 | A second exit changes nothing. |
| ExitSweep.NotifyExitToList | session/worker.c:119-123 | The sweep of one list ends and tells every session that was in it, though visited ones move to the end of the active list. |
| ExitSweep.NotifyExitToAll | session/worker.c:126-138 | While no session is in its callback the six sweeps end, crash nothing, and make of every listed session what one exit makes of it, though some are visited twice; the others are as they were. That no session is in its callback then is kept by every step of WorkerLoop. |
| SessionFamily.BundledKin | session/action.c:118-151 | Bundling a child keeps parents and children in agreement. |
| SessionFamily.UnhookedKin | session/chassis.c:21-47 | So does the end of a parent: running children are orphaned, finished ones report and are freed. |
| SessionFamily.MovedKin | session/chassis.c:50-80 | So does the move of an ended child to its parent's finished list. |
| SessionFamily.AloneKin | session/chassis.c:136-152 | So does the end of a session without a parent left, whose callback runs at once if it was a child. |
| SessionFamily.ClearedKin | session/worker.c:665-691 | So does the parent's reporting of its finished children while it goes on. |
| SessionFamily.OnePlace | session/chassis.c:21-155 | In every family a bundled child is in exactly one of: its parent's child list, its finished list, orphaned, freed; its done callback has run exactly once if it is freed and never before. |
| SessionFamily.Family.BundleChild | session/action.c:118-151 | The child heads the parent's list and has the parent and the callback it was given, or, already having a parent, nothing changes. |
| SessionFamily.Family.UnhookChildren | session/chassis.c:21-47 | The two loops reach every child exactly once and touch no other session. |
| SessionFamily.Family.MoveIntoFinishList | session/chassis.c:50-80 | The child is found and moved, wherever it stands in the list. |
| SessionFamily.Family.EndSession | session/chassis.c:130-155 | Whoever ends first and at any nesting depth: children are orphaned or freed, the session is finished under a living parent, else freed. |
| SessionFamily.Family.ExecuteDoneCb | session/worker.c:665-691 | All finished children report and are freed; the running ones stay. |
| SessionFamily.Family.CallbackRunsOnce | session/chassis.c:21-155 | In every run: the callback asked for when a child was bundled has run once when the child is freed, and not before; without one none runs. |
| FileCache.Cache.Evict | utils/file-lru.c:218-272 | An evicted entry leaves tree and main list together; it is freed if not lent, else kept on the purged list. |
| FileCache.Cache.PurgeAll | utils/file-lru.c:218-243 | Nothing is cached any more; lent entries survive; the total is left stale. |
| FileCache.Cache.Purge | utils/file-lru.c:246-272 | Entries go from the tail until there is room or none is left, and not one more; the total falls by their sizes. |
| FileCache.Cache.BorrowCached | utils/file-lru.c:304-311 | A cached file is lent at once, if and only if its name is in the tree. |
| FileCache.Cache.Setup | utils/file-lru.c:436-443 | The limit may change at any time; nothing else does. |
| FileCache.Cache.BorrowLoaded | utils/file-lru.c:322-359 | A loaded file is lent and in front; after an insert under a positive limit the cached sizes sum to at most the limit exactly if the file itself is not larger (the limit may have been lowered since it was loaded), though the total may be stale; a file that came in meanwhile is lent instead and the loaded copy freed. |
| FileCache.Cache.Borrow | utils/file-lru.c:275-360 | An entry is lent exactly for a valid, known name that is cached or can be loaded; this loan is counted and no other count changes; a hit moves nothing, and a new entry drives out no more than it must. |
| FileCache.Cache.Return | utils/file-lru.c:363-407 | The entry is freed exactly when it was evicted and this was the last loan; a return too many is noticed. |
| FileCache.Cache.LentIsKept | utils/file-lru.c:218-407 | In every run without a return too many the counter of an entry is its number of loans; while there is one the entry is not freed, and without one it is cached or freed, once. |
| BeeStore.Bucket.Get | bee/bucket.c:254-280 | A lookup sees the memory layer over the main layer, nothing without a main layer. |
| BeeStore.Bucket.Set | bee/bucket.c:314-337 | The key then shows the new value and no other key changes; refused exactly without any layer. |
| BeeStore.Bucket.Del | bee/bucket.c:340-363 | A tombstone over a main layer, a removal from a bare one, with the failure of the latter for an absent key. |
| BeeStore.Bucket.Shift | bee/bucket.c:805-916 | A shift onto a bare main layer changes nothing a lookup sees; a shift of two layers keeps only the memory layer, which changes nothing exactly if that has every key of the main layer. |
| BeeStore.Store.Shift | bee/bucket.c:805-916 | A shift of two layers leaves the store a refinement of the same plain map exactly if the memory layer has every key of the map that the bucket is asked for. |
| BeeStore.Store.constructor | bee/db.c:36-110 | Empty buckets stand for the empty map. |
| BeeStore.Store.GetLocal | bee/db.c:36-63 | The first local bucket along the chain that has the key answers. |
| BeeStore.Store.Get | bee/db.c:197-259 | For any key whose own buckets agree, on a chain with a local bucket, a get answers what a plain map holds: the last value set, not found after a deletion. |
| BeeStore.Store.SetLocal | bee/db.c:66-87 | Every local bucket of the chain up to the first failing one takes the value, none else changes; it succeeds exactly if the chain has a bucket and every bucket of it has a layer. |
| BeeStore.Store.Set | bee/db.c:262-325 | A set succeeds exactly if the key has a chain with a bucket and every bucket of it has a layer; then it is a set of the plain map (a removal for empty data) and the buckets of the key agree, whatever failed before; no other key that agreed is disturbed, be it a success or not. |
| BeeStore.Store.DelLocal | bee/db.c:90-110 | Every local bucket of the chain up to the first failing one deletes the key; the place it stops at is the first that cannot. |
| BeeStore.Store.Del | bee/db.c:328-391 | A successful deletion is one of the plain map, and the buckets of the key agree then, whatever failed before; on any chain it succeeds exactly when at every place the bucket has a memory layer, or a main layer with the key and stands at no earlier place; no other key that agreed is disturbed. A failure is reported by the first place that cannot: no layer, or nothing to remove. |
| BeeStore.DeleteTwice | bee/bucket.c:340-363 | On a bare main layer the second deletion of a key always fails. |
| ParamCodec.GetDataLength | src/pony.c:400-411 | The announced length is the number of bytes sent. |
| ParamCodec.SendData | src/pony.c:414-456 | The bytes sent are head, name with its zero, and data of each parameter in turn. |
| ParamCodec.WireExample | src/pony.c:414-456 | The bytes of three parameters, one of each type, on the wire. |
| ParamCodec.ReadWord | bee/monkey.c:292-300 | The loop puts a word together with signed bytes. |
| ParamCodec.WordArrives | bee/monkey.c:292-300 | An integer arrives as sent if and only if above any byte of 128 or more there are only bytes of 255. |
| ParamCodec.WordIs | bee/monkey.c:292-300 | Byte by byte: a byte is read as sent unless some lower byte is 128 or more; then it is read as 255. |
| ParamCodec.WordChanges | bee/monkey.c:292-300 | 128 does not: it arrives as -128. |
| ParamCodec.HeadReads | src/pony.c:421-424 | Type, name length and data length read from a head are those written, up to 254 characters and 65535 bytes. |
| ParamCodec.GetParamByName | bee/monkey.c:251-318 | The loop over the records finds what the decoding function finds, on any bytes, malformed ones included. |
| ParamCodec.DecodeOne | bee/monkey.c:265-312 | A record is taken exactly if it has the name, else passed over to the next one. |
| ParamCodec.OnlyPayload | bee/monkey.c:251-318 | On any bytes, malformed ones included: what lies behind the payload decides neither whether there is an answer nor, unless it is an integer, what it is. |
| ParamCodec.RoundTrip | bee/monkey.c:251-318 | Round trip: decoding the bytes of any parameter list gives the first parameter with the name, or none if none has it. |
| SyncTargets.FindHead | bee/instance.c:306-321 | The search along the heads finds the list of a key if and only if there is one. |
| SyncTargets.LinkTarget | bee/instance.c:301-341 | One more target joins the end of its key's list, or becomes a head. |
| SyncTargets.CreateTargetCrossLinks | bee/instance.c:293-343 | All links are those of the partition into lists of equal keys. |
| SyncTargets.Partition | bee/instance.c:293-343 | Two targets are in one list exactly when their keys are equal; heads have pairwise distinct keys. |
| SyncTargets.SyncList | bee/bucket.c:1317-1334 | All targets of one list are visited, each once. |
| SyncTargets.SyncItem | bee/bucket.c:1337-1366 | An item goes to each target whose prefix begins its hash exactly once, and to no other. |

## Left out

- Sockets, io_uring, TLS, HTTP/2, coroutines, the script interpreter, configuration, signals and threads' start: foreign code and plumbing. Poll events and failures of a poll request are inputs of steps; a database layer is a map; a hash is a byte string given by the caller.
- Allocation failure, printing, the integer width of counters and sizes.
- The hash-lock automaton: a session that takes one of its actions is handed over, leaves the worker's lists here and is not followed further; whether it expects to be told that a child has ended is a parameter. In the single-shot automaton the read-lock action sets the post operation to the number of the new session type, which frees the session; the model does so too.
- The coroutine automaton (session/pt_of_mco.c).
- Reverse walk, nearest find and splay macros of internal/tree.h: mirror images of modelled members, or unused.
- The wrapping-subtraction comparators of the trees' users: the red-black tree takes any total preorder, the file cache and the range map look up by equality.
- RangeMap.Map.LoadNode: the per-length trees are maps from prefixes to nodes; the red-black tree that holds them is proved separately.
- RangeMap.Map.AddNode: parsing of names, addresses and hash text, and the binding of buckets and main addresses to nodes are not modelled.
- Logger.Ring.FlushToDisk: does not model a failing write, which drops the buffer, nor the change of the log file's name.
- Logger.Ring.Log: one pass under the lock; the wait between passes and the semaphore that wakes the worker are not modelled.
- FormParser.Context.PostDataParser: the callback never refuses an event. Memory behind the buffer is a parameter, as the parser looks up to 17 bytes past the end.
- FormBuffers.InBuffers: bodies with parts that are not clean are covered in one buffer only, by FormRoundTrip.RoundTrip.
- Hmt.Tree.Match: after an add the tree must be compiled again; the source also matches on the tables of the earlier compilation, whose rows no longer fit the array.
- Worker.Context.TakeAction: a worker's lists are sequences here; that the link macros implement joins, leaves and sweeps among several linked lists is proved on linked nodes in SessionLists. Finished children and done callbacks are in SessionFamily only.
- WorkerLoop.Loop.Act: a callback that ends its own session leaves the source with a freed session that it winds up; here the worker has none to wind up any more. Callbacks are otherwise arbitrary sequences of actions.
- WorkerLoop.Loop.PickUpFirst: one worker. The list of new sessions called global is shared by all workers (session/worker.c:32-33), so a session made by one may be picked up by another; this, a child and a parent in different workers, and the list of sessions woken from a hash lock are not modelled.
- SessionFamily.Family.EndSession: the notification that a finished child sends to its parent is an action on the parent and part of Worker.Context.TakeAction, not of this step.
- Sweeps.Timing: nothing is said about polling intervals, that is, when sweeps take place.
- FileCache.Cache.Borrow: the name hash, the path and the reading of the file are not modelled.
- BeeStore.Store.Get: chains without a reachable local bucket are forwarded to other servers, which is not modelled, nor are buffers too small for the value.
- BeeStore.Store.Set: forwarding to other servers and failures of the database library are not modelled.
- BeeStore.Bucket.Shift: files and directories of the layers are not modelled.
- ParamCodec.SendData: no write fails. The number of the type for identifiers is declared in a header that is not part of the repository and taken as 2.
- SyncTargets.SyncItem: no send fails; the bytes sent to a target are not modelled.
