# Verified model of the shared support library

This project models the four parts of the library in which something is decided, and proves what they
promise:

* the **ranked AVL tree** (`avl/avl.c`, `avl/avl.h`): an order-statistic tree with parent pointers, a
  header node whose right link is the real root, and a word per node that packs a 30-bit rank and a
  2-bit balance. Nodes are heap objects and the operations relink them in place; a ghost pure tree says
  what the heap spells out, and a zipper says where an operation stands in it. The abstract meaning is one
  sorted sequence with duplicates, and every operation refines a simple operation on that sequence.
* the **chunked transfer coding** (`httpp/encoding.c`, section 3.6.1 of RFC 2616): a resumable reader with
  its counters and two buffers, and a writer with a pending buffer and a sink that may take any part of
  what it is offered. Conservation laws cover every step, every split of the source and every sink, and
  a round trip joins the two ends; chunk extensions have their own round trip.
* **variables and query strings** (`httpp/httpp.c`): tables of variables kept in the tree above, the
  in-place splitter and the percent decoder that feed them, and the listing of names.
* the **kept lines and the formatter** of the log (`log/log.c`): a bounded queue with a tail that is the
  address of a link, and a bounded writer with an escaping conversion and a separate length function.

Allocation is taken to succeed, use is single-threaded, comparison functions are total preorders, and C
strings are byte sequences up to their NUL.

## How the files fit together

| part | files, from the ground up |
|---|---|
| tree | `SortedSeq`, `RankedTree`, `Rotations`, `KeySearch`, `InsertPath`, `DeletePath` (pure); `AvlNode`, `AvlFocus`, `AvlInsert`, `AvlDelete`, `AvlTree` (heap); `AvlLaws` (laws over runs) |
| coding | `Options`, `Bytes`, `Callbacks` (source and sink), `ChunkedStream` (the grammar and its decoding), `Extensions`, `StreamContents` (what a stream carries besides its body), `ChunkText` (the text of chunks), `ReaderStep`, `ReaderEnd` (what one round does), `ReaderRuns`, `ReaderLaws` (whole reads, and every run of reads), `StuckChunks` (how much a run can deliver at all), `WriterStep`, `WriterLaws` (one write call, and every run of them), `EncodingReader`, `EncodingWriter` (the loops and objects), `EncodingRuns` |
| variables | `HttpVars`, `HttpKeys`, `HttpQuery`, `QueryText` |
| log | `KeptLines`, `LogFormat`, `LogTemplate` (what whole format strings mean) |

A node's rank may be wrong after a deletion that misses (see below), so the tree has two invariants:
`Sound` (links, parents, stored balances, order, length) and `Valid` (`Sound`, and every rank is true).
Insertion, deletion, search, stepping and the nearest-key queries need `Sound` only and keep `Valid` where it
held; the operations that read ranks ask for `Valid` and, with `Fits`, for fewer than 2^30 nodes.

## Where the code differs from its evident intent

The model follows the code, and the difference is stated as a theorem where it can be.

* `avl/avl.c:389` adds 1 to the rank of the last node when a deletion misses by going right, though nothing
  had been subtracted there. `DeletePath.MissedRanks` shows that ranks stay true exactly when the search did
  not end that way, `AvlLaws.MissSpoilsRank` gives the smallest tree it spoils, and
  `DeletePath.GreatestEndsRight` the family of keys that always does. Nothing else is disturbed, which is why
  the tables of variables are right over every run all the same.
* The stored height starts at 0 for one node and is never lowered (`avl/avl.c:127-134`, `212`).
  `AvlLaws.TreeRun` shows that over any run it is what it is meant to be (the true height less one, or 0) plus one
  for every deletion that lowered a tree of at least two levels, `AvlLaws.HeightRight` that it is right if and only if
  there was none, and `AvlLaws.StaleHeight` that two insertions and a deletion are enough to spoil it.
* `avl_get_span_by_two_keys` returns the last equal position as its high end, so its range is the half-open one
  if and only if the larger key occurs at most once (`AvlLaws.SpanIsBetween`; `AvlLaws.FivesSpan` is an input that fails).
* The reader asks its source for another byte before it looks at chunks it already holds
  (`httpp/encoding.c:533-540`), so chunks in its buffer are never delivered once the source is dry.
  `ReaderLaws.RunDry` shows that such reads give what is decoded and nothing else; `ReaderLaws.WholeBody` that the body is
  delivered in whole, then or ever, if and only if the last chunk has been seen or is the next in the buffer;
  `StuckChunks.FirstChunks` that a run in which the source gave something in n reads has decoded no more than the first n
  bodies, and `StuckChunks.FewPiecesLose` that a stream of more chunks than pieces always loses some;
  `StuckChunks.SecondChunkLost` is such a stream. A source that gives one byte at a time loses nothing
  (`ReaderLaws.DribbleDelivers`, `ReaderLaws.DribbleSuffices`).
* The return at `httpp/encoding.c:548-557` skips the end-of-stream check at `567`, so whether the end is
  noticed depends on the split. `ReaderLaws.EndNoticed` gives the exact condition over any run: the closing CR LF came
  along with the last header, or a byte behind the stream has arrived. `ReaderLaws.EndInOnePiece` and
  `ReaderLaws.EndInTwoPieces` are two splits of the same five bytes, one noticed and one never.
* The last chunk is followed by one CR LF more than the grammar asks for (`httpp/encoding.c:815-816`, `831`);
  the written stream still decodes (`WriterLaws.SentPart`), and because of those two bytes its end is noticed wherever
  no chunks are stuck before it (`ReaderLaws.SurplusSeen`).
* A write without a buffer is documented to flush (`httpp/encoding.h:74-78`), but if its first offer takes all that is
  pending it goes on to queue a last chunk, however many there are already (`httpp/encoding.c:330-336`, `800-801`).
  `WriterStep.StepKeeps` says exactly when a call is accepted, `WriterStep.FlushOnly` when such a call does flush and add
  nothing, and `WriterLaws.FlushRepeats` is a run that leaves two last chunks. What the reader delivers does not change:
  the others lie behind the end of the stream.
* A write of an empty body prints a chunk of size 0, which ends the stream: bodies accepted later are reported as taken and
  never delivered (`WriterLaws.EmptyBodyEnds`). `WriterLaws.TakenIsDelivered` shows that the stream delivers all that was
  taken if and only if nothing with a body was accepted after such a call, or after one without a buffer.
* The 64-bit counter to the next header wraps around for sizes of 2^64 - 2 and more (`httpp/encoding.c:656`, `669`);
  `EncodingRuns.SizeWraps` gives the condition. A well-formed stream has no such size.
* The test for `;` at `httpp/encoding.c:475` looks as far behind the value as there are bytes left to copy, instead of at
  the byte it copies. `Extensions.UnquotedValue` says exactly when an unquoted value survives that, `Extensions.BareRoundTrip`
  when a whole list does, and `Extensions.ValueLost` is a list that loses a value. Quoted values are not affected.
* Text between a closing quote and the next `;` ends the list of extensions (`httpp/encoding.c:391-409`): `Extensions.QuotesEnd`,
  and `Extensions.TailLost` loses an entry.
* An extension's key is taken up to the next `=` and so runs over a `;`: an entry without a value survives the
  round trip only as the last of its list. `Extensions.RoundTrip` gives the exact condition, and `Extensions.KeyRunsOver`
  a list that is misread.
* `log_set_lines_kept` with 0 leaves the tail at a freed entry (`log/log.c:287-295`). `KeptLines.Run` takes any counts and
  shows that the list equals a bounded queue until, and a line is lost if and only if, one is queued after a 0 has
  emptied a list that was not empty; `KeptLines.LostLine` is such a run.
* The escape of `%H` prints the low half of a byte first (`log/log.c:623-624`), so the text is not what a C
  compiler would read, but `LogFormat.EscapeDecodes` shows it is unambiguous.

## Model

| member | source | states |
|---|---|---|
| SortedSeq.LowerBoundAt | avl/avl.c:143-182 | where the keys below the new key end is its lower bound |
| SortedSeq.InsertSorted | avl/avl.c:143-182 | inserting at the lower bound, before all equal keys, keeps a sequence sorted |
| SortedSeq.RemoveSorted | avl/avl.c:403-446 | taking out one position keeps a sequence sorted |
| SortedSeq.Bounds | avl/avl.c:773-852 | the two bounds of a key cut a sorted sequence into the keys below, equal and above |
| RankedTree.PlugBalanced | avl/avl.c:202-294 | a tree is balanced if and only if its focus and the context around the focus are |
| RankedTree.PlugRanked | avl/avl.c:143-182 | the same for ranks that count the left subtree plus one |
| RankedTree.InOrder | avl/avl.c:299-320 | the node in focus has the in-order position its context and left subtree say |
| RankedTree.Locate | avl/avl.c:299-320 | every position of a tree has a focus, found by going down from the root |
| Rotations.SingleRKeeps | avl/avl.c:218-228 | a single rotation keeps keys, their order, nodes, and true ranks |
| Rotations.DoubleRKeeps | avl/avl.c:240-257 | so does a double rotation, through both rank updates |
| Rotations.SingleRBalances | avl/avl.c:218-239 | a single rotation of a left-heavy tree is balanced, with the height its case says |
| Rotations.SingleLBalances | avl/avl.c:229-239 | the mirror image |
| Rotations.DoubleRBalances | avl/avl.c:240-286 | a double rotation and its three balance settings restore balance, one level lower |
| Rotations.DoubleLBalances | avl/avl.c:258-286 | the mirror image |
| AvlNode.Node.constructor | avl/avl.c:42-63 | a new node has no children, rank 1 and balance 0 |
| AvlNode.PackSet | avl/avl.h:43-53 | storing one half of the packed word gives the word of the new value and leaves the other half |
| AvlNode.AddRank | avl/avl.h:43-53 | adding two stored ranks gives the stored sum, modulo 2^30, without touching the balance |
| AvlNode.SubRank | avl/avl.h:43-53 | the same for the difference |
| AvlNode.BumpRank | avl/avl.c:146 | the same for a constant |
| AvlLaws.WordBits | avl/avl.h:43-53 | the macros' masks and shifts on 32-bit words are the remainders and quotients used by the model |
| AvlNode.RotateRight | avl/avl.c:507-516 | the pointer and rank updates of a right rotation spell out the rotated tree, parents included |
| AvlNode.RotateLeft | avl/avl.c:497-506 | the mirror image |
| AvlNode.DoubleRight | avl/avl.c:548-567 | the updates of a double rotation spell out the doubly rotated tree with its new balances |
| AvlNode.DoubleLeft | avl/avl.c:568-599 | the mirror image |
| InsertPath.TiltBalances | avl/avl.c:186-200 | nodes below `s` on the path were level, and the tilted path is balanced and one higher |
| InsertPath.TurnBalances | avl/avl.c:204-294 | the turn at `s` is balanced, and higher than before only if `s` was level |
| InsertPath.BelowS | avl/avl.c:140-182 | every node strictly below `s` on the search path has balance 0 |
| InsertPath.WholeBalanced | avl/avl.c:140-294 | with `s` the deepest unbalanced node, one turn at `s` balances the whole tree |
| InsertPath.WholeOrdered | avl/avl.c:143-182 | the whole tree holds the old keys with the new one at its lower bound, ranks true if they were |
| AvlInsert.Dive | avl/avl.c:140-182 | the way down counts ranks, hangs the new leaf and finds `s` and its parent `t` |
| AvlInsert.TiltPath | avl/avl.c:186-200 | the second loop stores exactly the tilted balances |
| AvlInsert.TurnAt | avl/avl.c:202-294 | the balancing act relinks the heap to the turned tree |
| AvlInsert.InsertBelow | avl/avl.c:136-296 | insertion into a tree that is not empty keeps links, balances, order and true ranks; the flag says whether it grew |
| AvlTree.Avl.constructor | avl/avl.c:65-88 | a new tree is valid and empty |
| AvlTree.Avl.InsertFirst | avl/avl.c:127-135 | the first key hangs below the header; the stored height stays |
| AvlTree.Avl.Insert | avl/avl.c:123-297 | the sequence is the old one with the key at its lower bound; the invariant holds; the stored height grows with the true one |
| DeletePath.MissLeft | avl/avl.c:371-382 | a miss that ends by going left: the undo gives back the tree as it was |
| DeletePath.MissRight | avl/avl.c:388-396 | a miss that ends by going right: undoing the left turns alone would give back the tree as it was; with line 389 it does not |
| DeletePath.MissedRanks | avl/avl.c:361-401 | a deletion that misses changes nothing but ranks, and those if and only if its search ended by going right |
| DeletePath.GreatestEndsRight | avl/avl.c:384-397 | a key above every key of the tree always ends that way |
| AvlLaws.MissSpoilsRank | avl/avl.c:389 | a tree of one key whose rank is wrong after the deletion of an absent key |
| DeletePath.LeavingPredecessor | avl/avl.c:403-425 | after the swap with the predecessor, dropping the predecessor's node takes out exactly the found position |
| DeletePath.MendBalances | avl/avl.c:467-612 | each of the five cases balances the subtree, and `shorter` says whether it lost height |
| DeletePath.ClimbStep | avl/avl.c:465-621 | one round keeps: balanced below, and above it as if the height had been lost exactly when `shorter` |
| DeletePath.ClimbDone | avl/avl.c:465-621 | when the climb stops the whole tree is balanced |
| AvlDelete.Seek | avl/avl.c:357-401 | the search takes one off the ranks on its left turns, and its undo leaves exactly the missed tree |
| AvlDelete.Undo | avl/avl.c:376-381 | the undo loop adds one at every ancestor entered from the left |
| AvlDelete.YieldToPredecessor | avl/avl.c:403-425 | the predecessor swap on the heap |
| AvlDelete.Unlink | avl/avl.c:426-446 | the only child takes the place of the node; the side that became shorter is known |
| AvlDelete.Round | avl/avl.c:465-621 | one round of the climb on the heap is one mending of the pure tree |
| AvlDelete.ClimbBack | avl/avl.c:454-621 | the climb ends with a balanced tree that has lost height exactly if `shorter` |
| AvlDelete.DeleteBelow | avl/avl.c:361-624 | deletion from a tree that is not empty, and whether it has lost height |
| AvlTree.Avl.Delete | avl/avl.c:352-625 | a present key: one position that compares equal goes, its key is the one freed, the invariant holds; an absent key: -1, nothing but ranks changes, and the tree stays valid if and only if the search did not end right; the stored height stays whether or not the true one falls |
| AvlTree.Avl.GetByIndex | avl/avl.c:299-320 | position i of the sequence, failing exactly from its length on, in at most height steps |
| AvlTree.Avl.GetByKey | avl/avl.c:322-350 | a key that compares equal, failing exactly when there is none, in at most height steps |
| AvlTree.Avl.First | avl/avl.c:667-678 | the node of position 0, NULL for an empty tree |
| AvlTree.Avl.Next | avl/avl.c:703-724 | from position i to i + 1, NULL after the last |
| AvlTree.Avl.Prev | avl/avl.c:680-701 | from position i to i - 1, NULL before the first |
| AvlTree.Avl.IterateIndexRange | avl/avl.c:728-765 | calls on the keys of positions below `high`, last one first, down to `low` or the first call that asks to stop |
| AvlTree.VisitsAll | avl/avl.c:728-765 | if no call asks to stop, the calls are (k, key at low + k) for k counting down to 0 |
| AvlTree.VisitsUpTo | avl/avl.c:728-765 | if the call on position k is the first to ask to stop, the calls count down to it and end there |
| AvlTree.Avl.GetIndexByKey | avl/avl.c:767-809 | the found node and its in-order position; for an absent key the position before the one it would take; in an empty tree the index is left as it was |
| AvlTree.Avl.GetSpanByKey | avl/avl.c:813-852 | the half-open range of equal keys, wherever rotations have put them |
| AvlTree.Avl.GetSpanByTwoKeys | avl/avl.c:856-904 | the smaller key's lower bound, and the larger key's lower bound or last equal position |
| AvlLaws.SpanIsBetween | avl/avl.c:856-904 | that range is exactly the keys from the smaller up to the larger if and only if the larger occurs at most once |
| AvlLaws.FivesSpan | avl/avl.c:856-904 | in 5, 5 it is not |
| AvlTree.NearestParts | avl/avl.c:907-991 | where a sorted sequence is parted at a key, its neighbours lie on both sides of the cut |
| AvlTree.Avl.GetItemByKeyMost | avl/avl.c:907-948 | a greatest key not above the argument, failing exactly when there is none |
| AvlTree.Avl.GetItemByKeyLeast | avl/avl.c:951-991 | a smallest key not below the argument, failing exactly when there is none |
| AvlLaws.FewestNodes | avl/avl.c:123-297 | a balanced tree of height h has at least Fib(h + 2) - 1 nodes |
| AvlLaws.HeightLimit | avl/avl.h:43-53 | fewer than 2^30 nodes, as many as ranks can count, are at most 42 high |
| AvlLaws.InsertAllSorts | avl/avl.c:123-297 | inserting any keys sorts them and loses none |
| AvlLaws.InsertRun | avl/avl.c:123-297 | over any insertions the tree is valid and the stored height of a tree that is not empty is its height minus one |
| AvlLaws.TreeRun | avl/avl.c:123-625 | over any insertions and deletions, of keys present or absent, links, balances and order stay sound, ranks true as long as no deletion misses, and the stored height exceeds what it is meant to be by the number of deletions that lowered a tree of two levels or more |
| AvlLaws.HeightRight | avl/avl.c:127-134 | the stored height is right if and only if there was no such deletion |
| AvlLaws.StaleHeight | avl/avl.c:352-625 | inserting 1 and 2 and deleting 2 leaves a stored height of 1 where 0 is meant |
| Bytes.ParsePrintHex | httpp/encoding.c:807 | reading back a length printed as `%lx` gives the length if and only if it fits 64 bits |
| Bytes.PrintHexShape | httpp/encoding.c:807 | the length is printed in lower-case digits without leading zeros |
| Bytes.ParseDigits | httpp/encoding.c:637 | `sscanf` reads digits alone as what they spell, up to the largest 64-bit number |
| Bytes.ParseSigned | httpp/encoding.c:637 | it also accepts blanks, a sign and `0x`, and wraps a negative size around |
| ChunkedStream.ScanExtends | httpp/encoding.c:585-607 | a header end, once found, stays where it is whatever bytes follow |
| ChunkedStream.ScanShifts | httpp/encoding.c:585-607 | the scan finds the same header wherever it lies in the buffer |
| ChunkedStream.TakeBody | httpp/encoding.c:500-507 | taking part of a body off a well-formed stream leaves one with the counter lowered by as much |
| EncodingReader.ScanHeader | httpp/encoding.c:585-607 | the scan loop finds the first CR LF outside quotes, the first `;` and the last CR |
| EncodingReader.CopyValue | httpp/encoding.c:456-481 | the decoding loop computes `ValueOf`, the test at line 475 as written, whatever memory holds behind the buffer |
| EncodingReader.ReadExtension | httpp/encoding.c:411-482 | one extension: its key, its value if any, and the bytes it takes up |
| EncodingReader.Reading.ReadExtensions | httpp/encoding.c:391-483 | the list read is appended to the meta data already there |
| EncodingReader.Reading.EnterChunk | httpp/encoding.c:638-702 | the three cases after a header: nothing behind it, part of the body, more than the body |
| EncodingReader.Reading.FindHeader | httpp/encoding.c:585-703 | one search for a header, its size read as `sscanf` reads it, and what follows from it, is `Digest` |
| EncodingReader.Reading.Absorb | httpp/encoding.c:548-575 | the skipping of the CR LF and the end-of-stream check are `Settle` |
| EncodingReader.Reading.ChunkedRead | httpp/encoding.c:485-703 | one call: body bytes straight from the source, or `Receive` on what the source gave |
| EncodingReader.Reading.CopyDecoded | httpp/encoding.c:71-100 | what is copied out and what stays are together what was pending |
| EncodingReader.Reading.FetchMore | httpp/encoding.c:262-279 | the call of the decoder and the second delivery are `Fetch` on what the source gave |
| EncodingReader.Reading.Read | httpp/encoding.c:240-282 | one call is `ReadStep` on what the source gave, which is what its plan says; it answers -1 if and only if it delivers nothing and there is no source, the source refused, or a complete header has no readable size, and otherwise the number of bytes delivered; for a well-formed stream, any split and any length, what was due before is the data delivered followed by what is due after |
| EncodingReader.Reading.Eof | httpp/encoding.c:284-299 | by its own count the reader reports the end only when nothing is due any more |
| ReaderStep.ReceiveValid | httpp/encoding.c:533-703 | every step keeps the buffers and counters consistent |
| ReaderStep.ReceiveAnswers | httpp/encoding.c:548-638 | a round fails if and only if a complete header has no readable size, and then leaves the decoded bytes, the counters and the input, the CR LF skipped |
| ReaderStep.NoBadHeader | httpp/encoding.c:633-638 | a well-formed stream has no such header |
| ReaderStep.ReceiveKeeps | httpp/encoding.c:533-703 | received bytes turn into pending and future body bytes, none lost, none invented |
| ReaderStep.DirectKeeps | httpp/encoding.c:500-507 | body bytes that bypass the buffers are exactly the next ones due |
| ReaderStep.NothingDue | httpp/encoding.c:240-282 | with buffers and source empty the last chunk has been seen and nothing is due |
| ReaderEnd.FoundList | httpp/encoding.c:610-623 | the extensions found in the buffer are those of the stream's first header |
| ReaderEnd.ReceiveStands | httpp/encoding.c:533-703 | a round keeps extensions read plus extensions ahead, and how far off the end is |
| ReaderEnd.EndNeedsSurplus | httpp/encoding.c:548-575 | behind the last header a round notices the end if and only if more has arrived than the counter asks for |
| ReaderRuns.AskExact | httpp/encoding.c:500-519 | the source is asked for what is wanted within the body, for 1024 bytes before a header, and for 2 after the last one |
| ReaderRuns.ReadKeeps | httpp/encoding.c:240-282 | a read delivers exactly the next bytes that are due |
| ReaderRuns.ReadStands | httpp/encoding.c:240-282 | a read keeps how the reader stands to the extensions and the end of its stream |
| ReaderLaws.RunKeeps | httpp/encoding.c:240-282 | over any run, what was due is what is delivered followed by what is still due |
| ReaderLaws.RunStands | httpp/encoding.c:240-282 | over any run, and where the lists do not depend on what lies behind them, the extensions read and those ahead are together the stream's, in order; the end is no further off than the bytes that have not arrived say |
| ReaderLaws.PrefixOfBody | httpp/encoding.c:240-282 | the output of any run is a prefix of the body |
| ReaderLaws.RunDry | httpp/encoding.c:533-546 | reads that get nothing deliver what is decoded and change nothing else |
| ReaderLaws.NoneAhead | httpp/encoding.c:533-540 | with a dry source no body is ahead if and only if the last chunk has been seen or is the next in the buffer |
| ReaderLaws.WholeBody | httpp/encoding.c:533-540 | after any split of a whole stream the body is delivered in whole, then or ever, if and only if that holds |
| ReaderLaws.EndRun | httpp/encoding.c:548-575 | over any run after the last header the end is noticed if and only if more arrives than the counter asks for |
| ReaderLaws.EndNoticed | httpp/encoding.c:548-702 | over any run on a stream the end is noticed if and only if the closing CR LF came along with the last header or a byte behind the stream has arrived |
| ReaderLaws.EndInOnePiece | httpp/encoding.c:685-699 | the empty stream in one piece: noticed |
| ReaderLaws.EndInTwoPieces | httpp/encoding.c:548-557 | the same bytes split before the closing line: never noticed |
| ReaderLaws.SurplusSeen | httpp/encoding.c:566-573 | where something follows the stream, a source that has given all leaves the end unnoticed only if chunks are stuck |
| ReaderLaws.FrugalRun | httpp/encoding.c:485-703 | a source of at most one byte at a time never leaves a chunk or a header in the buffer undigested |
| ReaderLaws.DribbleDelivers | httpp/encoding.c:240-282 | such a source, once dry, has had exactly the body delivered |
| ReaderLaws.DribbleSuffices | httpp/encoding.c:240-282 | as many reads as the stream has bytes are enough for that, and, where something follows the stream, for the end to be noticed |
| ChunkText.ScanHead | httpp/encoding.c:585-607 | a printed header is scanned as one header, even with CR LF inside quotes |
| ChunkText.ScanQuoted | httpp/encoding.c:589-595 | inside quotes the scan passes over everything up to the next quote, which closes unless a backslash has come since the last one |
| ChunkText.ChunkDecodes | httpp/encoding.c:788-837 | a written chunk in front of a well-formed stream puts its body in front of the stream's |
| ChunkText.LastDecodes | httpp/encoding.c:815-831 | a chunk of size 0 decodes to nothing, whatever lies behind it |
| ChunkText.StreamDecodes | httpp/encoding.c:788-837 | any chunks, up to the end of the first without a body, decode to the bodies before it in order, whatever lies behind |
| ChunkText.DeliversAll | httpp/encoding.c:788-837 | those are the first of all bodies, and all of them if and only if no body comes after a chunk without one |
| ChunkText.StreamCarries | httpp/encoding.c:721-837 | such a stream has its end there and carries, where they are clean, the extensions of its chunks in order |
| StreamContents.TakeCarried | httpp/encoding.c:500-507 | taking body bytes off a stream leaves what it carries besides |
| StreamContents.StreamExtends | httpp/encoding.c:485-703 | the end of a stream is where the stream itself says: bytes that follow change neither body nor extensions and lie behind it |
| EncodingWriter.EscapedLength | httpp/encoding.c:705-719 | the length pass counts exactly the escaped bytes |
| EncodingWriter.MeasureList | httpp/encoding.c:730-743 | the room the length pass asks for |
| EncodingWriter.PrintInto | httpp/encoding.c:750-778 | one entry is written within its room |
| EncodingWriter.PrintExtensions | httpp/encoding.c:721-786 | the fill pass writes exactly the printed list and its terminator into what the length pass asked for |
| EncodingWriter.Writing.Flush | httpp/encoding.c:103-119 | what is pending is offered once, and what the sink takes of it goes out |
| EncodingWriter.Writing.ChunkedWrite | httpp/encoding.c:788-837 | refused while something is pending; otherwise one chunk of the first bytes of the buffer, all of them up to 1048576, and the answer is their number |
| EncodingWriter.Writing.Write | httpp/encoding.c:322-339 | one call is `WriteStep`; it is accepted if and only if its first offer takes all that was pending; then it answers the length of the buffer, up to 1048576, and sent and pending bytes grow by exactly the chunk of as many of its bytes; otherwise it answers 0 and they do not grow |
| WriterStep.StepKeeps | httpp/encoding.c:322-339 | the acceptance and the growth, of the step on values |
| WriterStep.TakenExact | httpp/encoding.c:794-805 | a call takes the buffer whole, or its first 1048576 bytes |
| WriterStep.FlushOnly | httpp/encoding.h:74-78 | a call without a buffer leaves nothing pending and adds no chunk if and only if its first offer takes only a part and the second the rest |
| WriterStep.StepSends | httpp/encoding.c:322-339 | a sink that takes at least a byte of every offer receives something in every call |
| WriterLaws.RunConserves | httpp/encoding.c:322-339 | over any calls, without a buffer or with an empty body anywhere among them, and any sink, sent and pending bytes are the chunks of the accepted calls |
| WriterLaws.RunReports | httpp/encoding.c:788-837 | the bodies of those chunks are the bytes of the callers' buffers that the return values report: of each all, up to 1048576, or none |
| WriterLaws.RunKeepsMetas | httpp/encoding.c:354-359 | their meta data and what is still to be written are that of the calls, in order |
| WriterLaws.SentPart | httpp/encoding.c:322-349 | whatever part of it a sink has taken, what was sent begins a stream of the bodies accepted before the first accepted call without one, with their meta data where it is clean |
| WriterLaws.SentWhole | httpp/encoding.c:322-349 | it is a whole stream if and only if such a call was accepted and no more is pending than was written behind its end |
| WriterLaws.TakenIsDelivered | httpp/encoding.c:788-837 | the bodies delivered are the first of those taken, and all of them if and only if none was taken after an accepted call without a body |
| WriterLaws.EmptiesLastNoneLate | httpp/encoding.c:788-837 | where calls without a body come last, none is |
| WriterLaws.RunClean | httpp/encoding.c:721-786 | meta data that survives makes clean lists, however the sink has it gathered into chunks |
| WriterLaws.RunGenerous | httpp/encoding.c:322-349 | a sink that takes every chunk in whole has every call accepted and leaves nothing pending |
| WriterLaws.RunCloses | httpp/encoding.c:797-801 | calls without a buffer add nothing while they are refused, and the first accepted ends the stream |
| WriterLaws.RunInsists | httpp/encoding.c:322-349 | a sink that takes at least a byte of every offer receives the whole stream and more, if it is closed often enough |
| WriterLaws.EmptyBodyEnds | httpp/encoding.c:788-837 | an empty body before the body `a`: `a` is reported as taken and never delivered |
| WriterLaws.FlushRepeats | httpp/encoding.c:330-336 | a sink that takes 4, 3 and 4 bytes: two calls without a buffer leave two last chunks, and bytes pending |
| EncodingWriter.Writing.Pending | httpp/encoding.c:342-349 | the number of bytes still to flush |
| EncodingWriter.Writing.AppendMeta | httpp/encoding.c:354-359 | meta data queues in order |
| EncodingRuns.ReadRun | httpp/encoding.c:240-282 | over any reads and any plan of the source, the object and its output are those of the run on what the source gave; the answers count the bytes delivered, and none is -1 on a stream from a source that does not refuse |
| EncodingRuns.ReadStream | httpp/encoding.c:240-282 | over any reads on a stream the output is a prefix of its body; with the source dry it can become the whole body if and only if the last chunk has been seen or is the next in the buffer; byte by byte it always does |
| EncodingRuns.WriteRun | httpp/encoding.c:322-339 | over any calls and any sink, the object, the sink and the return values are those of the run on values; sent and pending bytes are the accepted chunks, whose bodies are the bytes of the callers' buffers that the return values report and whose meta data, with what is still to be written, is that of the calls |
| EncodingRuns.Send | httpp/encoding.c:322-349 | whatever part of the chunks a sink has received begins a stream of the bodies before the first accepted call without one; it is a whole stream if and only if it reaches to that call's end |
| EncodingRuns.Transfer | httpp/encoding.c:240-349 | written through any sink, with or without closing, and read back from any split of what was sent: a prefix of the bodies accepted before the end; when the reader reports the end, exactly those, with their meta data; byte by byte it gets there whenever the end and a byte behind it were sent, which insisting on the close achieves |
| EncodingRuns.EndedClosed | httpp/encoding.c:284-299 | the reader reports the end only if an accepted call has ended the stream |
| StuckChunks.ReachAll | httpp/encoding.c:533-540 | the first n chunks carry the whole body if and only if there are no others |
| StuckChunks.FirstChunks | httpp/encoding.c:533-703 | a run in which the source gave something in n reads has decoded no more than the bodies of the first n chunks |
| StuckChunks.FewPiecesLose | httpp/encoding.c:533-703 | a stream of more chunks with a body than the source gave pieces loses some of its body for good |
| StuckChunks.GulpLoses | httpp/encoding.c:533-540 | of a stream given in one piece, of the at most 1024 bytes the reader asks for, exactly the first chunk's body is ever delivered |
| StuckChunks.SecondChunkLost | httpp/encoding.c:533-540 | of two chunks `a` and `b` given at once, `b` is never delivered |
| EncodingRuns.ReadsExtensions | httpp/encoding.c:585-613 | a reader with a printed header in its buffer takes over exactly the printed list if and only if it is clean |
| EncodingRuns.SizeWraps | httpp/encoding.c:637-670 | a header sets the counter to the size and two if and only if 64 bits can count that; for 2^64 - 2 the body is taken for a header |
| Extensions.RoundTrip | httpp/encoding.c:391-483 | a printed list is read back unchanged if and only if it is clean: keys without `=`, values neither empty nor with a backslash, a missing value only in the last entry |
| Extensions.KeyRunsOver | httpp/encoding.c:411-426 | a key `a` without a value before `b="c"` is read as the one key `a;b` |
| Extensions.FirstParts | httpp/encoding.c:411-482 | an entry is its key up to the first `=` and the value behind it, if there is anything |
| Extensions.QuotedRun | httpp/encoding.c:433-474 | inside quotes backslashes are dropped wherever they stand, and a quote closes the value unless a backslash has come since the last one |
| Extensions.OpenLength | httpp/encoding.c:433-452 | outside quotes a value reaches to the first `;` or through the quotes that come first |
| Extensions.OpenCopied | httpp/encoding.c:456-481 | outside quotes bytes are copied up to the first at which the code comes upon a `;` behind the value |
| Extensions.QuotesEnd | httpp/encoding.c:391-483 | text between a closing quote and the next `;` ends the list |
| Extensions.TailLost | httpp/encoding.c:391-483 | in `;a="b"c;d=e` the entry `d` is never read |
| Extensions.UnquotedValue | httpp/encoding.c:460-481 | an unquoted value is copied whole if and only if no `;` lies among the bytes 1 to its length behind it, otherwise a prefix of it |
| Extensions.BareFirst | httpp/encoding.c:411-482 | an unquoted entry is read back if and only if what follows it in the list and in memory does not disturb it |
| Extensions.BareRoundTrip | httpp/encoding.c:391-483 | a list of unquoted entries is read back unchanged if and only if none is disturbed |
| Extensions.ValueLost | httpp/encoding.c:475 | in `;a=bcde;x=1;y=2` the value of `a` is read as empty |
| Extensions.FirstSurvives | httpp/encoding.c:411-482 | a surviving entry is read back whatever follows it in the list or in memory |
| Extensions.FirstChanges | httpp/encoding.c:411-482 | any other entry is read back as something else |
| HttpVars.NamesAreOrdered | httpp/httpp.c:898-906 | the comparison of variables is one the tree accepts |
| HttpVars.StrcmpFlips | httpp/httpp.c:898-906 | names compare equal only to themselves |
| HttpVars.StrcmpDiffers | httpp/httpp.c:898-906 | a name comes before another if its byte is less where they first differ, or if it ends first |
| HttpVars.TableInsert | httpp/httpp.c:567-593 | a new name at its lower bound is a new binding of the map; names stay strictly ascending |
| HttpVars.TableRemove | httpp/httpp.c:554-565 | removing a name's position and freeing its record is removing its binding |
| HttpVars.TableUpdate | httpp/httpp.c:641-651 | changing a record changes its name's values only |
| HttpVars.Vars.GetVar | httpp/httpp.c:595-615 | the first value of the name, failing exactly when it is not bound |
| HttpVars.Vars.SetVar | httpp/httpp.c:567-593 | the map with the name bound to this one value |
| HttpVars.Vars.DeleteVar | httpp/httpp.c:554-565 | the map without the name, present or not |
| HttpVars.Vars.SetParam | httpp/httpp.c:617-660 | nothing for an undecodable value; otherwise the value replaces the name's values or comes after them |
| HttpVars.Vars.Find | httpp/httpp.c:670-684 | the record of the name, failing exactly when it is not bound |
| HttpVars.RunVars | httpp/httpp.c:554-615 | over any assignments and deletions, of names present or absent, the table is the plain map, each name at most once |
| HttpVars.RunIsLast | httpp/httpp.c:554-615 | a name has the value it was last set to, unless deleted since |
| HttpKeys.GetAnyKey | httpp/httpp.c:760-827 | the names of the table that begin with two underscores for VAR, the others for HEADER, all for the parameters, in ascending order, in an array that grows by eight and is always closed by an empty place |
| HttpKeys.ListedExact | httpp/httpp.c:793-803 | the same of the listing on values |
| HttpKeys.KeysPartition | httpp/httpp.c:793-803 | the VAR and HEADER listings are strictly ascending, disjoint, and share out the names |
| HttpKeys.ListedWhole | httpp/httpp.c:771-782 | the parameter namespaces list every name |
| HttpKeys.GetAnyVar | httpp/httpp.c:728-758 | all values of a name, if it is bound and, for VAR, begins with two underscores or, for HEADER, does not |
| HttpQuery.Hex | httpp/httpp.c:292-302 | the value of a digit of either case, -1 for any other byte |
| HttpQuery.UrlUnescape | httpp/httpp.c:304-351 | the decoded text as C reads it, NULL exactly for undecodable input |
| HttpQuery.ParseQueryElement | httpp/httpp.c:353-380 | one element adds the binding it means, or nothing |
| HttpQuery.ParseQuery | httpp/httpp.c:382-405 | the splitting loop adds what the elements between `&` mean, each cut at its last `=` |
| QueryText.UnescapeEncode | httpp/httpp.c:304-351 | decoding inverts percent-encoding, whichever way each byte was written |
| QueryText.StandsFor | httpp/httpp.c:304-351 | `+` is a space, and any other byte but NUL, `#` and `%` itself |
| QueryText.HashEnds | httpp/httpp.c:335-337 | what stands behind a `#` is not read |
| QueryText.DecodingFails | httpp/httpp.c:317-341 | text is undecodable if and only if a NUL, or a `%` without two digits, comes before any `#` |
| QueryText.ElementsApart | httpp/httpp.c:382-405 | the elements are what lies between the `&` |
| QueryText.ElementMeans | httpp/httpp.c:353-380 | an element gives the text before its last `=` one more value, the decoded text behind it, unless one of the two is missing or the text is undecodable |
| QueryText.MeansNothing | httpp/httpp.c:353-380 | an element without `=` gives nothing |
| QueryText.ElementDropped | httpp/httpp.c:353-391 | a query of one element adds nothing if and only if it is empty, begins with a NUL, or is dropped for one of these reasons |
| QueryText.QueryRoundTrip | httpp/httpp.c:353-405 | parsing a printed query adds exactly the parameters sent, in order, whatever dropped elements stand between them |
| QueryText.AddAllGives | httpp/httpp.c:617-660 | a name's values are its earlier ones followed by the decoded values it is given, in order of appearance |
| KeptLines.Log.CreateEntry | log/log.c:381-409 | the line reaches the file and the queue, the oldest leaving a full queue |
| KeptLines.Log.SetLinesKept | log/log.c:280-297 | the last lines stay; the tail is right afterwards if and only if it was and the count is positive or nothing was queued |
| KeptLines.Log.Contents | log/log.c:412-440 | the kept lines untruncated, of length total minus entries; the reported length is total |
| KeptLines.Run | log/log.c:280-440 | over any run of lines and counts, 0 among them, the list equals a bounded queue up to the first lost line, and a line is lost if and only if one is queued after a 0 has emptied a list that was not empty; it is counted and cannot be reached |
| KeptLines.PositiveLosesNone | log/log.c:280-297 | while every count is positive nothing is lost |
| KeptLines.ZeroLoses | log/log.c:287-295 | a 0 on a queue that is not empty, a positive count and a line lose the line; a 0 on an empty queue is harmless |
| KeptLines.LostLine | log/log.c:280-409 | one kept, a line, none kept, five kept, a line: one entry counted, none to be reached |
| KeptLines.QueueIsLast | log/log.c:381-409 | the queue holds the last lines of all the lines there have been |
| KeptLines.LastSuffix | log/log.c:381-409 | the last lines are those at the end, as many as there are up to the count |
| KeptLines.JoinBoth | log/log.c:412-440 | the text of two lists of lines is that of the first followed by that of the second |
| LogFormat.CountsText | log/log.c:451-476 | the length function agrees with the escaped text |
| LogFormat.EscapeDecodes | log/log.c:614-632 | escaped text determines the text it came from |
| LogFormat.EscapeOne | log/log.c:442-449 | which bytes are shown as they are, and how the others are written |
| LogFormat.EscapeBoth | log/log.c:614-632 | bytes are escaped one by one |
| LogFormat.BlockByByte | log/log.c:614-632 | where block and room are short, a byte to be escaped becomes a dot, and nothing is written beyond them |
| LogFormat.QuotesAround | log/log.c:608-637 | the opening quote is written where there is room, the closing one where room is left |
| LogFormat.PlainExact | log/log.c:639-643 | the copying loop writes the beginning of the string, as far as block and room go |
| LogFormat.EscapeIsPlain | log/log.c:442-449 | escaped text has no quote, no line end and no byte outside ASCII; it is printable if and only if the text has no DEL |
| LogFormat.ConvertExact | log/log.c:586-643 | with no explicit length and enough room, `%H` writes the escaped text, of the length announced |
| LogFormat.LineOfH | log/log.c:478-654 | the same for the whole formatter on `%H` and `%#H` |
| LogFormat.LiteralText | log/log.c:488-503 | text without conversions is copied as far as there is room |
| LogFormat.EnoughRoom | log/log.c:478-654 | a buffer that could hold what a larger one receives receives the same |
| LogTemplate.WholeFormat | log/log.c:478-654 | a format put together from text, strings, numbers with lengths in digits or `*`, and escapes prints the texts of its pieces one after the other, where there is room |
| LogTemplate.PlainFormat | log/log.c:478-654 | without escapes, as much of that as there is room for |
| LogTemplate.PlainGoesOn | log/log.c:505-643 | one `%s`, `%d`, `%i`, `%u` or `%p` with any length prints the beginning of its argument, `(null)` for NULL |
| LogTemplate.UnknownGoesOn | log/log.c:577-579 | an integer of a size that is not known prints a fixed text and takes no argument |
| LogTemplate.LoudLimited | log/log.c:478-654 | `%H` with an explicit length shows what length and room allow |
| LogTemplate.DecimalPrints | log/log.c:538-539 | the digits of a length are read as the number they spell |
| LogTemplate.PrintLine | log/log.c:478-654 | such a format fills the buffer with the texts of its pieces and a NUL |
| LogFormat.PutShown | log/log.c:616-631 | one round of the escaping loop |
| LogFormat.EscapeBlockInto | log/log.c:614-632 | the escaping loop writes `EscapeBlock` and nothing else |
| LogFormat.PlainBlockInto | log/log.c:639-643 | the copying loop writes `PlainBlock` and nothing else |
| LogFormat.ConvertInto | log/log.c:586-643 | one string conversion, from the substitution of a NULL on |
| LogFormat.Step | log/log.c:488-650 | one round of the formatter: what it writes and where it goes on |
| LogFormat.VSnprintf | log/log.c:478-654 | for any format and any buffer of at least one byte, the buffer holds `Format` and a NUL and is otherwise unchanged |

## Left out

- AvlTree.Avl.Delete: on a miss that ends right it does not promise true ranks, because avl/avl.c:389 does not keep them; every tree operation that reads ranks therefore asks for `Valid`.
- AvlTree.Avl.GetSpanByTwoKeys: states the end the code computes, which is not the half-open end when the larger key is duplicated; `AvlLaws.SpanIsBetween` gives the exact condition.
- AvlTree.Avl.GetSpanByKey: asks for a tree that is not empty, as does the span of two keys: in an empty one the code returns an index variable it has never set.
- AvlTree.Avl.IterateIndexRange: for an admissible `high` it asks for low <= high and 0 < high; for high = 0 the code walks past the header, and the unsigned difference wraps when low exceeds high.
- AvlNode.DoubleRight: the code writes the links of a double rotation once; the model composes two single rotations, which end in the same links, ranks and balances. The rotation code repeated in insertion and deletion is one set of methods here.
- EncodingReader.Reading.Read: prompt delivery is not promised, because the code does not keep it, see above; callbacks that answer less than -1 are taken to answer -1.
- EncodingReader.Reading.FindHeader: on a lone LF at the very start of the raw buffer the code writes a NUL to the byte before the buffer; the model stops with -1 there.
- EncodingRuns.Transfer: meta data is restricted to what the header scan passes over, and its return to lists that are clean.
- KeptLines.Run: stops at the first lost line, because the next entry to be dropped would be read through a NULL head; until then the freed entry a stale tail points to is treated as memory that may still be written.
- LogFormat.VSnprintf: numbers and pointers arrive as the text the C library renders for them, and a missing argument reads as NULL or 0.
- HttpVars.Vars.SetVar: a record is modelled by its address in a map of records, because the tree's keys are values; the name and the address never change while the tree holds them.
- All locks, reference counts, allocation failure and the freeing of memory other than the key a deletion hands over.
- Threads, sockets, the resolver and timing: thin wrappers around system calls.
- Tree printing, `avl_verify` (it returns 0 whatever it finds), `avl_tree_free` and `avl_iterate_inorder`: single recursions.
- The identity encoding, request and response lines, header splitting and the request tables of `httpp.c`: tables or single branches.
- Log files, rotation, time stamps, levels and `log_write`: input and output.
