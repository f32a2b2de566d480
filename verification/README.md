# A verified model of bluetea

bluetea is a small C framework: a bounded linked queue, an option parser, an arena allocator, string escapers and
trimmers, and a unit-test harness. This project models the logic of that code in Dafny and proves what each part is
for. `dafny verify dfyconfig.toml` checks everything.

## How the model is laid out

- `Queue.dfy` is the linked queue with real node objects: enqueue and dequeue of the release build, detach with the
  debug build's search from both ends, destroy, and both iteration macros. `OldQueue.dfy` is the earlier queue, which
  has a different invariant, and `QueueEquivalence` runs both. `BoundedFifo.dfy` is what both refine: a sequence with a
  bound, with first-in-first-out and conservation proved over whole runs. `QNodes.dfy` is the node.
- `NodeLayout.dfy` is the pointer arithmetic that places a node in its malloc block and finds the block again.
  `Words.dfy` has the 64-bit machine operators, with bitwise "and" written out bit by bit.
- `Arena.dfy` is the bump allocator, its invariant over all calls since the last init, and runs of requests.
- `Getopt.dfy` is the option parser as an object with a cursor; `GetoptRuns.dfy` says what repeated calls do to a whole
  argv, including the round trips between a command line and its list of items; `GetoptExamples.dfy` has the parser's
  own four tests.
- `Html.dfy`, `ShellArg.dfy` and `UrlEncode.dfy` are the escapers, each with a decoder that follows its standard: HTML
  4.01 section 5.3, IEEE Std 1003.1 XCU sections 2.2.1, 2.2.2 and 2.3, and RFC 3986 sections 2.1 and 2.3.
- `StrTrim.dfy` has the two in-place trimmers.
- `Handshake.dfy` and `MutexCounter.dfy` are the two threaded tests as state machines over every interleaving.
- `BlueTest.dfy` is the harness: the child's counting, the bounded non-blocking pipe, crashes, and the parent.
- `CBase.dfy` has what the others share: optional values, 32-bit counters, NUL-terminated strings.

Methods change fields and arrays as the C code does and are proved against specification functions; the lemmas are
about those functions. `Drive`, `Perform`, `PerformDetach`, `CallUntilEnd`, `Session` and the methods of `QueueEquivalence` are
clients that exercise the modelled calls in arbitrary order.

What the environment decides is a parameter: whether malloc succeeds and where it puts a block, the scheduler's
choices and spurious wakeups, where a test crashes, the capacity of the pipe, the child's exit code.

## Where the code and its intent differ

- `bt_queue_dequeue` leaves `tail` pointing at the last node it removed. The queue invariant therefore says nothing
  about `tail` while the queue is empty. The debug assertion in enqueue (line 112) fails exactly when
  `BtQueue.StaleTail` holds, and `Queue.Drive` proves when that is: the queue is empty and its last change was a
  dequeue. Backward iteration over such a queue visits the removed node, as long as its owner has left it the way
  dequeue handed it over (`WalkBackward`, `DrainLeavesStaleTail`).
- An option that looks for a separate value reads `argv[cur_idx + 1]` without checking for the end. The model returns
  `Crash` there. `CrashIffLastWantsNext` says exactly when a call does it, `ReachesEndIffLastIsSatisfied` exactly when a
  whole run does, and `LoneOptionCrashes` is an example.
- The arena's rounding wraps to 0 for the fifteen largest lengths, which then "succeed". `FitsIffUnrounded` gives the
  exact condition under which a request succeeds if and only if it fits. The queue node's request wraps above
  `SIZE_MAX - 129` in the same way (`NodeIsInsideBlock`).
- The buffer `escapeshellarg` allocates itself is too small exactly for arguments made of quotes only, the empty one
  included (`SelfAllocatedFits`, `EscapeShellArg`).
- `htmlspecialchars` and `htmlspecialcharsl` do not write a NUL when the input is empty.
- `strtriml` leaves its buffer when everything before position `len` is whitespace and the byte at `len` is neither
  NUL nor whitespace (the backward scan passes the front), and when the buffer ends at `len` without trailing whitespace
  (the NUL goes behind it). `InBoundsIffTrimmable` proves that the methods' precondition excludes exactly the calls that
  leave the buffer, for each variant, and `OutOfBoundsExamples` names two of them.

## Model

| member | source | states |
|---|---|---|
| CBase.StrLen | src/bluetea/lib/arena.c:79-89 | the index of the first zero byte |
| Queue.BtQueue.constructor | src/bluetea/include/bluetea/lib/queue.h:43-50 | an initialized queue is empty, bounded by `max`, with a NULL tail |
| Queue.BtQueue.Enqueue | src/bluetea/lib/queue.c:86-125 | appends a fresh node holding the payload iff count < max_el and malloc succeeds; otherwise EAGAIN or ENOMEM and nothing changed; links, count and order stay consistent |
| Queue.BtQueue.LinkLast | src/bluetea/lib/queue.c:108-122 | the node becomes the last of the doubly linked chain, the others keep their order, also behind a stale tail |
| Queue.BtQueue.Dequeue | src/bluetea/lib/queue.c:128-153 | removes exactly the front node, unlinked and with its payload; EAGAIN iff empty; the tail field is left alone, so after the last removal it still points at the removed node |
| Queue.BtQueue.ScanBothEnds | src/bluetea/lib/queue.c:196-219 | finds a node iff it is a member, in at most half the length (rounded up) rounds, exactly 1 + distance to the nearer end; a non-member takes exactly n rounds |
| Queue.BtQueue.Relink | src/bluetea/lib/queue.c:223-245 | the four relinking cases bridge over position k and leave every other link as it was; err_ident 3 is unreachable |
| Queue.BtQueue.BridgeIsLinked | src/bluetea/lib/queue.c:223-245 | a bridged-over chain is a proper doubly linked list of the remaining nodes in their order |
| Queue.BtQueue.Detach | src/bluetea/lib/queue.c:188-253 | removes exactly the given member keeping the order of the rest, returns it unlinked; aborts with err_ident 1 iff the queue is empty, 2 iff the node is not a member, never 3; an abort changes nothing; emptying by detach clears tail |
| Queue.BtQueue.Destroy | src/bluetea/lib/queue.c:162-185 | frees every remaining node exactly once, front first; the counter reaches 0 so it never aborts; all fields are zero afterwards |
| Queue.BtQueue.WalkForward | src/bluetea/include/bluetea/lib/queue.h:87-88 | forward iteration visits the nodes in queue order |
| Queue.BtQueue.WalkBackward | src/bluetea/include/bluetea/lib/queue.h:90-91 | backward iteration visits exactly the reverse of the queue; on a drained queue with a stale tail whose prev is NULL, as dequeue leaves it, it visits exactly that tail (`DrainLeavesStaleTail` names the node) |
| Queue.Perform | src/bluetea/lib/queue.c:86-253 | one call refines one step of the bounded sequence, and says when the tail becomes or stays stale |
| Queue.Drive | src/bluetea/lib/queue.c:86-253 | on any queue, every interleaving of enqueue, dequeue, detach (of members and of nodes of no queue) and count answers and ends as the bounded sequence does, up to the first abort; the tail is stale iff the queue is empty and its last change in the run was a dequeue, or there was none and the tail was stale before |
| Queue.PerformDetach | src/bluetea/lib/queue.c:188-253 | detaching position k answers with its payload, and a node of no queue aborts with the queue unchanged |
| Queue.DrainLeavesStaleTail | src/bluetea/lib/queue.c:128-153 | after one enqueue and one dequeue on a new queue the tail is the removed node; forward iteration visits nothing, backward iteration visits exactly that node |
| BoundedFifo.RunEndsEarlyIffFatal | src/bluetea/lib/queue.c:249-252 | a run ends early only with an abort, an abort is always the last answer, and only detach aborts |
| BoundedFifo.FirstInFirstOut | src/bluetea/tests/003_queue/003_queue.c:180-221 | over every run without detach, stored-before plus pushed equals popped plus still-stored, in order |
| BoundedFifo.NothingLost | src/bluetea/tests/003_queue/003_queue.c:300-359 | over every run with detach the payloads are conserved as a multiset and the bound is never exceeded |
| BoundedFifo.AnswersFollowBalance | src/bluetea/lib/queue.c:86-253 | every answer of every run, exactly: full iff the balance of what was stored and handed back so far has reached the bound, empty iff it is 0, no memory iff there was room and malloc failed, an abort iff the position is not below it; count answers the balance |
| OldQueue.QueMaster.Enqueue | old/src/bluetea/include/bluetea/lib/que.h:59-117 | appends a node with the payload and a NUL behind it iff there is room and memory; otherwise EAGAIN when full or ENOMEM, and nothing changed; its internal assertions hold |
| OldQueue.QueMaster.NewNode | old/src/bluetea/include/bluetea/lib/que.h:71-80 | a new node holds the payload and a NUL behind it |
| OldQueue.QueMaster.LinkLast | old/src/bluetea/include/bluetea/lib/que.h:83-113 | the node becomes the last of the chain, the others keep their order, and prev is NULL in an empty queue; the assertions on head and tail hold |
| OldQueue.QueMaster.Dequeue | old/src/bluetea/include/bluetea/lib/que.h:120-154 | removes the front node, which keeps its links; the new front node's prev still points at it; its internal assertions hold; tail is NULL again when drained |
| OldQueue.QueMaster.Destroy | old/src/bluetea/include/bluetea/lib/que.h:163-178 | frees every remaining node exactly once and re-initializes with capacity 0 |
| OldQueue.Drive | old/src/bluetea/include/bluetea/lib/que.h:53-154 | every run of enqueue, dequeue and count answers and ends as the bounded sequence does |
| QueueEquivalence.RunNewer | src/bluetea/lib/queue.c:86-185 | from init to destroy: the answers are those of the bounded sequence and destroy frees exactly the payloads left, in order |
| QueueEquivalence.RunOlder | old/src/bluetea/include/bluetea/lib/que.h:42-178 | the same for the old queue |
| QueueEquivalence.SameAnswers | old/src/bluetea/include/bluetea/lib/que.h:42-178 | the old and new queue answer every sequence of calls identically, and their destroys free the same payloads in the same order |
| Words.AndLow | src/bluetea/lib/arena.c:23-30 | masking with 2^k - 1 is the remainder modulo 2^k, for the bit-by-bit "and" |
| Words.AndHigh | src/bluetea/lib/queue.c:30-37 | masking with the complement of 2^k - 1 rounds down to a multiple of 2^k |
| Words.Masks | src/bluetea/lib/arena.c:61 | the three mask expressions of the source as remainders on 64-bit words |
| NodeLayout.RequestSizeIs | src/bluetea/lib/queue.c:21-25 | the size passed to malloc is len + 129, or that minus 2^64 when it wraps, exactly above SIZE_MAX - 129 |
| NodeLayout.AlignUpIs | src/bluetea/lib/queue.c:30-37 | the address expression is orig + 64 rounded down to a multiple of 64 |
| NodeLayout.NodeIsInsideBlock | src/bluetea/lib/queue.c:16-48 | wherever malloc puts the block: the node is 64-byte aligned, 1 to 64 bytes above the block's start, and node plus len + 1 bytes end inside the block iff the request did not wrap |
| NodeLayout.NodeHeap.Create | src/bluetea/lib/queue.c:16-48 | returns an aligned new node 1 to 64 bytes above the malloc address, writes exactly that distance in the byte below it and no other byte, and disturbs no live node's record; nothing changes when malloc fails; for a length whose request wraps the node reaches beyond its block |
| NodeLayout.NodeHeap.Write | src/bluetea/include/bluetea/lib/queue.h:27-32 | writing any bytes of a node's header or payload keeps every node's shift record intact |
| NodeLayout.NodeHeap.WriteElsewhere | src/bluetea/lib/queue.c:16-48 | writing bytes outside every live block keeps every node's shift record intact |
| NodeLayout.NodeHeap.DeleteIgnoreRef | src/bluetea/lib/queue.c:51-61 | frees exactly the address malloc returned for this node, after any other creates, writes and deletes |
| NodeLayout.LoadIsZero | src/bluetea/lib/queue.c:72 | a pointer field read from memory is NULL iff all its bytes are zero |
| NodeLayout.NodeHeap.Delete | src/bluetea/lib/queue.c:64-83 | NULL is ignored; a node whose next or prev, read from memory, is not NULL aborts; any other is freed at exactly its malloc address |
| Arena.RoundUpIsMask | src/bluetea/lib/arena.c:61 | the mask expression, bit by bit, is the arithmetic rounding used in the model |
| Arena.RoundUpIs | src/bluetea/lib/arena.c:61 | it is round-up-to-16 up to SIZE_MAX - 15 and 0 above |
| Arena.FitsIffUnrounded | src/bluetea/lib/arena.c:56-70 | testing the rounded length against the capacity is testing the requested length, iff the length is at most SIZE_MAX - 15 |
| Arena.BtArena.Init | src/bluetea/lib/arena.c:19-41 | succeeds iff the size is a non-zero multiple of 16 and the address is 16-aligned; otherwise -EINVAL and nothing changed |
| Arena.BtArena.Capacity | src/bluetea/lib/arena.c:44-53 | capacity and used are multiples of 16 and sum to size |
| Arena.BtArena.Alloc | src/bluetea/lib/arena.c:56-76 | fails iff the request exceeds the capacity, changing nothing; else returns a 16-aligned block inside the buffer behind every earlier one, and every earlier copied string is still there |
| Arena.BtArena.StoreCopy | src/bluetea/lib/arena.c:87-88 | stores text and NUL in its block, changing no byte outside, so every earlier copy stays |
| Arena.BtArena.StrDup | src/bluetea/lib/arena.c:79-89 | fails iff the string and its NUL exceed the capacity; else adds a copy of the whole string and keeps all earlier copies |
| Arena.BtArena.StrNDup | src/bluetea/lib/arena.c:92-102 | the same for the bytes before the first NUL, at most inlen of them |
| Arena.RunKeepsBlocksApart | src/bluetea/lib/arena.c:56-76 | over every run of requests of any lengths all blocks are aligned, inside the buffer, pairwise disjoint and in order, used grows by exactly the rounded sizes served, and a block covers the bytes asked for iff the length is at most SIZE_MAX - 15 |
| Arena.Drive | src/bluetea/lib/arena.c:56-102 | every mixed run of allocations and string copies returns the pointers of the run of requests, and at its end the bytes and NUL of every string copied before or during it are still in the buffer |
| Getopt.ScanShort | src/bluetea/lib/getopt.c:125-177 | the pointer scan over the option string is first-match lookup in the parsed list of characters and arities |
| Getopt.LookupIsFirst | src/bluetea/lib/getopt.c:125-177 | lookup gives the first pair for the character, and none iff there is none |
| Getopt.SpellingIsRead | src/bluetea/lib/getopt.c:125-171 | an option string read back: each character takes no value with no colon behind it, a required one with one colon, an optional one with two or more |
| Getopt.EverySpecIsSpelled | src/bluetea/lib/getopt.c:125-130 | every option string is such a spelling, where a colon can be a character only at the start |
| Getopt.ColonOnlyFirst | src/bluetea/lib/getopt.c:125-177 | a ':' is matched iff the option string starts with one |
| Getopt.MatchesNameOrNameEq | src/bluetea/lib/getopt.c:57-70 | a long entry matches iff the argument is its name, or its name, '=' and anything |
| Getopt.AtMostOneMatch | src/bluetea/lib/getopt.c:51-70 | with distinct '='-free names at most one entry matches, and it is the one the scan selects |
| Getopt.OrderDoesNotMatter | src/bluetea/lib/getopt.c:51-107 | two tables with the same well-named entries in any order select the same entry for every argument |
| Getopt.BtGetopt.TakeSeparate | src/bluetea/lib/getopt.c:83-87 | looks at the next argument, takes it and moves the cursor iff it does not start with a dash, and crashes iff there is none |
| Getopt.BtGetopt.TrackLong | src/bluetea/lib/getopt.c:36-108 | code, retval and cursor are those of the specification for a long option, crash included |
| Getopt.BtGetopt.TrackShort | src/bluetea/lib/getopt.c:111-178 | code, retval and cursor are those of the specification for a short option, crash included |
| Getopt.BtGetopt.Next | src/bluetea/lib/getopt.c:181-211 | one call takes exactly the specified step |
| GetoptRuns.CrashIffLastWantsNext | src/bluetea/lib/getopt.c:82-88 | the unchecked read behind argv happens iff the last argument is an option that takes a value and holds none |
| GetoptRuns.CodesMean | src/bluetea/lib/getopt.c:36-211 | NON_OPT, UNKNOWN_OPT, MISSING_ARG and EINVAL are returned in exactly these situations |
| GetoptRuns.RetvalMeans | src/bluetea/lib/getopt.c:36-211 | retval after every call: NULL at END, for an unknown option and for a missing value; the argument for an operand; unchanged on EINVAL and the crash; for an option its value behind the sign or character, or the next argument unless that starts with a dash, else NULL; and an option returns its own character or its entry's code |
| GetoptRuns.ExtraTextIsDropped | src/bluetea/lib/getopt.c:95-97 | options without value succeed and ignore "=text" or trailing characters |
| GetoptRuns.StepAdvances | src/bluetea/lib/getopt.c:181-211 | END iff the cursor is at argc, and then stable; every other call moves it by 1, or by 2 iff retval is the following argument, never past argc; EINVAL keeps retval and moves by 1; retval always points into argv |
| GetoptRuns.CallsPartitionArgv | src/bluetea/lib/getopt.c:181-211 | repeated calls consume argv in order without a gap, in at most argc - cur_idx calls, until END or the crash |
| GetoptRuns.ReachesEndIffLastIsSatisfied | src/bluetea/lib/getopt.c:82-88 | repeated calls reach END without a crash iff the last argument is not an option that wants another one |
| GetoptRuns.LoneOptionCrashes | src/bluetea/lib/getopt.c:148-150 | the concrete argv "-H" with options "H:" crashes on the first call |
| GetoptRuns.CallUntilEnd | src/bluetea/tests/002_getopt/002_getopt.c:51-93 | a client that calls until END sees exactly that list of calls |
| GetoptRuns.ShortReadsBack | src/bluetea/lib/getopt.c:111-178 | a rendered short option (no value, merged or separate) is read back with its character and value |
| GetoptRuns.LongReadsBack | src/bluetea/lib/getopt.c:36-108 | a rendered long option (no value, '=' or separate) is read back with its code and value |
| GetoptRuns.RenderThenParse | src/bluetea/lib/getopt.c:36-211 | rendering any well-formed list of options, operands and unknown options and calling until END gives back exactly that list, without a crash |
| GetoptRuns.ParseThenRender | src/bluetea/lib/getopt.c:36-211 | a command line none of whose calls is an error, crashes or drops text is the rendering of a well-formed list |
| GetoptRuns.RenderedIsPlain | src/bluetea/lib/getopt.c:36-211 | and only such a command line is |
| GetoptExamples.SimpleShortOpt | src/bluetea/tests/002_getopt/002_getopt.c:178-252 | the calls on this test's line, for any three values, return, point to and move to exactly what it asserts |
| GetoptExamples.ShortOptMergedVal | src/bluetea/tests/002_getopt/002_getopt.c:254-325 | the same for the line with merged values |
| GetoptExamples.SimpleLongOpt | src/bluetea/tests/002_getopt/002_getopt.c:16-96 | the same for long options with separate values |
| GetoptExamples.LongOptWithEqSign | src/bluetea/tests/002_getopt/002_getopt.c:99-176 | the same for long options with equals signs |
| Html.EscapeCharIs | src/bluetea/lib/string/htmlspecialchars.c:19-25 | the five replacements literally; every other character stays |
| Html.EscapeIsPiecewise | src/bluetea/lib/string/htmlspecialchars.c:99-133 | an escape is the replacements of the characters in order |
| Html.DecodeEscape | src/bluetea/lib/string/htmlspecialchars.c:19-25 | decoding character references in the escape of any text gives the text |
| Html.EscapeHasNoMarkup | src/bluetea/lib/string/htmlspecialchars.c:19-25 | escaped text contains none of the characters that open or close markup or quote an attribute |
| Html.FittingIsLongest | src/bluetea/lib/string/htmlspecialchars.c:99-133 | the greedy cut is the longest prefix whose escape fits |
| Html.ShortMemcpy | src/bluetea/include/bluetea/lib/string.h:40-51 | copies exactly the given bytes and leaves the others |
| Html.Put | src/bluetea/lib/string/htmlspecialchars.c:100-131 | one character is written whole or not at all, and not iff it and the NUL do not fit |
| Html.HtmlSpecialCharsL | src/bluetea/lib/string/htmlspecialchars.c:84-137 | writes the escape of the longest prefix that fits in outlen - 1 bytes, a NUL, nothing beyond, and returns its length; with no room or no input nothing is written |
| Html.HtmlSpecialChars | src/bluetea/lib/string/htmlspecialchars.c:28-80 | the same for the bytes before the first NUL |
| Html.WrittenDecodes | src/bluetea/lib/string/htmlspecialchars.c:84-137 | decoding the output gives the longest fitting prefix, all of the input iff its escape and a NUL fit |
| Html.WrittenIsUnique | src/bluetea/lib/string/htmlspecialchars.c:28-137 | both functions leave the same buffer and length for the same text |
| ShellArg.PieceIs | old/src/bluetea/lib/string.c:41-59 | a single quote becomes quote, backslash, quote, quote; every other byte stays |
| ShellArg.ShellReadsArgument | old/src/bluetea/lib/string.c:38-71 | a shell reads the quoted argument as one word equal to the argument, whatever its bytes and whatever command text follows |
| ShellArg.EscapeSize | old/src/bluetea/lib/string.c:41-74 | the output has exactly len + 3q + 2 bytes before the NUL, q being the number of quotes |
| ShellArg.SelfAllocatedFits | old/src/bluetea/lib/string.c:29-31 | the self-allocated 4 * len + 1 bytes suffice iff some byte is not a quote |
| ShellArg.PutPiece | old/src/bluetea/lib/string.c:41-59 | the switch with its fall-through writes one character's piece and nothing else |
| ShellArg.Begin | old/src/bluetea/lib/string.c:38-59 | the opening quote and the loop write quote and body at the front and nothing behind; when a piece does not fit, neither does the whole output |
| ShellArg.Close | old/src/bluetea/lib/string.c:71-74 | the closing quote and the NUL are written and nothing else |
| ShellArg.Fill | old/src/bluetea/lib/string.c:38-79 | fills the buffer with the quoted argument and a NUL, leaving the bytes behind it, iff both fit; otherwise a store leaves the buffer |
| ShellArg.EscapeShellArg | old/src/bluetea/lib/string.c:22-80 | the same with the caller's buffer or one of 4 * len + 1 bytes: quotes the first len bytes, or with len 0 those before the first NUL; its own buffer is overrun iff the argument consists of quotes only |
| UrlEncode.EncodedBytes | old/src/bluetea/lib/string.c:205-217 | raw mode keeps exactly the unreserved bytes; plain mode escapes '~' too and turns exactly the space into '+'; every escape is '%' and two upper-case hex digits |
| UrlEncode.DecodeEncode | old/src/bluetea/lib/string.c:184-222 | percent-decoding the output gives the input, for every byte string in both modes |
| UrlEncode.PutByte | old/src/bluetea/lib/string.c:203-217 | the three-way branch writes one byte's encoding and nothing else |
| UrlEncode.Fill | old/src/bluetea/lib/string.c:200-219 | the loop fills the buffer with the encoding and a NUL, leaving the bytes behind it |
| UrlEncode.UrlEncode | old/src/bluetea/lib/string.c:184-222 | the same with the caller's buffer or one of 3 * len + 1 bytes, which always suffices |
| StrTrim.IsWsIs | src/bluetea/include/bluetea/lib/string.h:37 | whitespace is exactly space, tab, newline, carriage return, vertical tab and form feed |
| StrTrim.InBoundsIffTrimmable | src/bluetea/lib/string/strtrim.c:20-114 | every read and write of a call stays inside the buffer iff the stated condition holds, for each variant and all buffers and lengths |
| StrTrim.OutOfBoundsExamples | src/bluetea/lib/string/strtrim.c:20-59 | a space before len with a letter at len sends the backward scan off the front; a full buffer without trailing whitespace gets its NUL behind the end; and where the NUL goes in each other branch, for both variants |
| StrTrim.AccessIsBehindTheRegion | src/bluetea/lib/string/strtrim.c:20-114 | the one byte those accesses write is the one behind the region |
| StrTrim.TrimmedIsTheRegion | src/bluetea/lib/string/strtrim.c:34-54 | the selected region is the only non-empty one without whitespace at its ends outside which all is whitespace; it is empty iff all is whitespace |
| StrTrim.TrimExample | src/bluetea/lib/string/strtrim.c:34-54 | a tab in front and a newline behind are trimmed |
| StrTrim.SkipLeading | src/bluetea/lib/string/strtrim.c:34-42 | the forward scan stops at the first kept byte, or at len, and says whether whitespace is there |
| StrTrim.SkipTrailing | src/bluetea/lib/string/strtrim.c:53-54 | the backward scan stops at the last kept byte |
| StrTrim.StrTrimL | src/bluetea/lib/string/strtrim.c:20-59 | returns the region's offset and changes at most the one byte behind the region, to NUL |
| StrTrim.StrTrimLMove | src/bluetea/lib/string/strtrim.c:69-114 | leaves the region, a NUL, then the original bytes from that offset on |
| StrTrim.StrTrim | src/bluetea/lib/string/strtrim.c:13-17 | the offset variant on a whole C string |
| StrTrim.StrTrimMove | src/bluetea/lib/string/strtrim.c:62-66 | the moving variant on a whole C string |
| StrTrim.BothSelectTheSameText | src/bluetea/lib/string/strtrim.c:20-114 | the C string at the offset of the one buffer equals the C string at the front of the other |
| Handshake.InvReach | src/bluetea/tests/004_mutex/004_mutex.c:84-150 | the invariant of lock ownership, counter and signal history holds in every reachable state |
| Handshake.Safety | src/bluetea/tests/004_mutex/004_mutex.c:84-150 | in every interleaving with spurious wakeups: never both inside or both waiting, only the lock holder changes the counter, each thread leaves its wait only at N respectively 2N, main leaves its section at 2N, and the end is at exactly 3N |
| Handshake.BlockedIff | src/bluetea/tests/004_mutex/004_mutex.c:84-150 | in every reachable state a thread is held up iff it waits, is done, wants the lock while the other holds it, spins on start, or joins an unfinished child; a thread may wake spuriously iff it waits |
| Handshake.NeverStuck | src/bluetea/tests/004_mutex/004_mutex.c:99-147 | no wakeup is lost: every reachable unfinished state has a thread that can act without a spurious wakeup |
| Handshake.WorkReach | src/bluetea/tests/004_mutex/004_mutex.c:84-150 | steps taken plus work left never exceed the initial work plus three per spurious wakeup |
| Handshake.Terminates | src/bluetea/tests/004_mutex/004_mutex.c:84-150 | an interleaving with k spurious wakeups has at most 3N + 17 + 3k steps |
| Handshake.MaximalRunsFinish | src/bluetea/tests/004_mutex/004_mutex.c:84-150 | every run in which no thread can act any more has both threads done and the counter at 3N, within that bound |
| Handshake.BoundIsReached | src/bluetea/tests/004_mutex/004_mutex.c:84-150 | for every N and k a run with k spurious wakeups takes exactly 3N + 17 + 3k steps; in it main and child each wait once and are woken by the other |
| MutexCounter.NoLostIncrement | src/bluetea/tests/004_mutex/004_mutex.c:26-69 | with increments split into load and store, every interleaving keeps the counter exact, keeps the threads out of each other's section, is never stuck, and ends at twice the increments of one thread |
| MutexCounter.BlockedIff | src/bluetea/tests/004_mutex/004_mutex.c:26-69 | in every reachable state a thread is held up iff it is done or the other holds the lock |
| MutexCounter.LeftReach | src/bluetea/tests/004_mutex/004_mutex.c:26-69 | every step does exactly one unit of the remaining work of both threads |
| MutexCounter.RunsFinish | src/bluetea/tests/004_mutex/004_mutex.c:26-69 | no interleaving is longer than the total work, and one in which no thread can act any more has exactly that length, both threads done, and the counter at twice the increments of one thread |
| BlueTest.Harness.TqAssert | src/bluetea/bluetest/bluetest.h:76-143 | the four assertion macros: count in the first phase, judge in the second, and set the test's result iff judged and failed |
| BlueTest.Harness.CallEntry | src/bluetea/bluetest/bluetest.c:452-453 | an entry, cut off anywhere, has moved the counters by exactly the assertions it reached, and returns 1 iff one of them failed while running |
| BlueTest.Harness.Write | src/bluetea/bluetest/bluetest.c:462-466 | a non-blocking write appends the record or, with the pipe full, drops it |
| BlueTest.Harness.SigHandler | src/bluetea/bluetest/bluetest.c:137-142 | the handler sends the saved totals, whatever the running entry has changed since |
| BlueTest.CompletedCall | src/bluetea/bluetest/bluetest.c:484-508 | one turn of the loop saves the totals, runs the whole entry, and sends the new totals |
| BlueTest.CrashingCall | src/bluetea/bluetest/bluetest.c:484-494 | a crash anywhere inside an entry makes the handler send the totals from before that entry, and without a handler nothing is sent |
| BlueTest.Phase | src/bluetea/bluetest/bluetest.c:432-512 | either phase sends one record after every entry before the crashing one and, when it crashes with a handler, the last totals once more |
| BlueTest.Child | src/bluetea/bluetest/bluetest.c:545-560 | counting everything, then running everything, sends exactly the timeline of snapshots, up to the entry it crashes in |
| BlueTest.HandleWait | src/bluetea/bluetest/bluetest.c:260-348 | drains the pipe, keeps the last record (all zero when there is none), and turns a clean exit with dynamic failures into 1 |
| BlueTest.Session | src/bluetea/bluetest/bluetest.c:260-512 | for every test list, crash point and pipe capacity the parent's record is: without a crash the totals of both phases, after a crash in a run entry those of the whole count and the entries run before it, after a crash while counting those of the entries counted before it; with a smaller pipe the first capacity entry calls |
| BlueTest.SnapshotIsTotals | src/bluetea/bluetest/bluetest.h:76-143 | every snapshot is the totals of the entries counted and run so far |
| BlueTest.TotalsAre | src/bluetea/bluetest/bluetest.h:76-143 | the totals are the numbers of predictable, passed, dynamically failed and dynamically passed assertions, each modulo 2^32 |
| BlueTest.ChecksOfConcat | src/bluetea/bluetest/bluetest.c:443-468 | the entries are called in the order of the list |
| BlueTest.ChecksOfOne | src/bluetea/bluetest/bluetest.c:443-453 | and of one entry the assertions of the phase count |
| BlueTest.NTestIsFinal | src/bluetea/bluetest/bluetest.c:443-468 | n_test is final once the counting phase is over, and before that nothing has been judged |
| BlueTest.AllPassedMeansNoneFailed | src/bluetea/bluetest/bluetest.c:238-243 | unless a counter wrapped, "all predictable tests passed" is printed iff there are predictable tests and as many passed as were counted, the failure message iff there are some and another number passed; when no more ran than were counted, iff all of them ran and none failed, respectively fewer ran, as after a crash, or one failed |

## Left out

- The release build of `bt_qnode_detach`, which relinks without checking membership: its effect on a member is that of `Relink`; on a foreign node it has no defined meaning.
- Backward iteration from a stale tail whose node the owner has since freed or linked elsewhere: it is then meaningless. The queue's own invariant does not depend on that node.
- `errno` beyond the code a failing call sets, and the messages printed before an abort.
- The 32-bit pointer target: addresses and sizes are 64-bit words.
- Node payloads in `NodeLayout` and in `Queue` are two views of the same memory; the model does not join them.
- A malloc that fails inside `escapeshellarg` and `urlencode`: the source does not check it either.
- `memset` of the condition data, thread creation and joining errors, and a failing `bt_cond_wait` in the mutex tests: the pthread calls are taken to succeed.
- The harness's `fork`, `execve`, `poll`, signal and printing code, argument forwarding, file locking and accuracy percentages. A pipe write of one record is atomic, and the pipe's capacity is counted in records.
- A crash of the harness itself between two test entries, and a child that neither exited nor was killed by a signal (the parent then returns -1 without reading the pipe).
- The `start` flag of the mutex test, which only delays main's loop.
- Entity names other than lt, gt, quot and amp and references above 255 in the HTML decoder: the escaper never produces them.
- Shell expansions, double quotes and here-documents in the word reader: it reports them as `Expands`, and quoted output never reaches them.
- The superseded forms under `old/` (arena, getopt, htmlspecialchars, trim functions, tstack, teatest), the Windows branch of `escapeshellarg`, `print.c`, and the Makefiles.
