# processx: models of its cores, with proofs

processx starts child processes from R, reads their output through
connections, polls and waits for them, and cleans them up. This project models
the parts of it where loops, heap state or interleavings make it hard to see
that the code is right, and proves what they do.

Each module is the model of one component, in the form of the C or R code: the
buffers are arrays, the lists are linked nodes, the objects are classes whose
methods change their fields, the loops are loops. Methods are proved against
specification functions, and lemmas say what those functions mean.

| module | component |
|---|---|
| `Common` | an option type, and writing text into a buffer of characters |
| `Codec` | characters of UTF-8 (sections 3 and 4 of RFC 3629), and the converter of a connection, as a stateless step that looks at the front of its input |
| `Utf8` | UTF-8 from the numbers of the characters, and what the converter for it makes of any bytes |
| `Lines` | cutting text into lines |
| `Connections` | a connection: descriptor, raw buffer, converter, UTF-8 buffer, readers |
| `ReadAll` | the loops that read everything, and any series of reads |
| `ChildFds` | the descriptors of the child between fork and exec, as a parallel move |
| `Sigchld` | the protocol between the SIGCHLD handler and the calls that wait, as a transition system |
| `Calls` | what the calls of that protocol answer, traced back to the moment of the run that decided it |
| `ChildList` | the linked lists that the handler changes |
| `CommandLine` | quoting the arguments of a Windows process |
| `Environment` | the environment block of a Windows process |
| `RootedTree` | the growing vector, and the processes of a tree |
| `Supervisor` | the children that the supervisor keeps track of |
| `Poll` | polling processes, connections and curl handles together |
| `LineCallback` | callbacks that get the output line by line |
| `Cleancall` | exit handlers for C code that R errors can jump out of |
| `Base64` | base 64 (section 4 of RFC 4648) |

## Where the code does not do what one expects

The code is modelled as it is. Where it departs from what its comments or its
documentation say, there is a concrete witness, and the exact condition for all
inputs.

* A line reader does not search what it reads after the first look, so the lines
  depend on how the operating system splits the output into reads
  (`Lines.LinesDependOnReads`), and at the end of the file an element can contain
  newlines (`Lines.ElementsAreLines`) or exceed the limit (`Lines.LimitExceeded`).
  Output that ends with a newline is not affected. Otherwise that happens exactly
  if the call that gets the rest of the file misses a line: its first look ends
  before the first newline, or there are more lines than it takes
  (`ReadAll.ReadAllLines`, `Lines.StopsShort`).
* The child closes all descriptors above the one it reports errors on. If that
  one is not above all requested ones, requested ones are lost: up to 200, exactly
  those above it (`ChildFds.ChildInit`, `ChildFds.ErrorFdAmongTargets`).
* `signal`, the first look of `kill`, and a failed `exec` read the status of a
  child without storing it, exactly if they find that it has exited. The status
  is NA then, and only then, or if other code waited for the child
  (`Sigchld.StatusIsRight`, `Sigchld.WhoDrops`, `Sigchld.SignalLosesStatus`).
* If the wait inside `kill` cannot make its pipe, SIGCHLD stays blocked after the
  error, and only then (`Calls.KillLeavesBlocked`).
* The search for a process tree can find a process twice (`RootedTree.FoundTwice`).
  It finds each once exactly if, among the processes of the tree, none is listed
  twice and each is listed before its parent (`RootedTree.Forest.FoundOnce`). It
  ends exactly if there is no cycle below the root (`RootedTree.Forest.SearchEnds`).
* A sweep of the supervisor does not look at the child that it moves to the place
  of a removed one, so up to half of the dead children stay
  (`Supervisor.SweepRemovesHalf`, `Supervisor.AllDead`). It takes off all m dead
  children exactly if m is at most 1 or the last m - 1 children all run
  (`Supervisor.SweepClears`).
* Reading bytes from a connection that was read as text does not hand out the text
  that was converted before, not even at the end
  (`Connections.Connection.ReadBytes`, `Connections.Connection.NothingAfterEof`).
* The last line of the output never gets to a line callback if it has no newline
  (`LineCallback.LostIsUnended`).
* An exit handler is lost if the allocation after it fails, that error is caught
  in the same context, and another handler is saved there
  (`Cleancall.NoneIsLost`, `Cleancall.LostHandler`).
* Decoding base 64 gives one zero byte too many exactly if the original length is
  2 modulo 3 (`Base64.RoundTrip`).

## Model

| member | source | states |
|---|---|---|
| Codec.DecodeStep | src/processx-connection.c:1977-2004 | whatever bytes are still to come, one step of the converter on the buffer is one step of the decoding of the whole stream |
| Codec.DecodeChar | src/processx-connection.c:1977-1979 | moving one converted character to the text leaves text plus decoding of the rest the same |
| Codec.DecodedIsWhole | src/processx-connection.c:1957-2016 | decoded text is a sequence of whole UTF-8 characters, whatever the input bytes are |
| Codec.Utf8IsSound | src/processx-connection.c:1971-1979 | what is assumed of a converter holds of the one for UTF-8: stable verdicts, progress, bounded lookahead |
| Codec.Utf8DecodesToItself | src/processx-connection.c:1957-2016 | text that is UTF-8 is decoded to itself |
| Utf8.WellFormedIs | src/processx-connection.c:1971-1979 | the byte sequences that are taken for characters are exactly the encodings, six bits to a byte, of the numbers up to 0x10FFFF that are not surrogates |
| Utf8.StepIs | src/processx-connection.c:1977-1979 | input that begins with the encoding of a character is converted to just that; it is incomplete exactly if it is a proper beginning of an encoding, and otherwise its first byte is invalid |
| Utf8.Readable | src/processx-connection.c:1957-2016 | any bytes are a series of characters and bad bytes, with maybe the beginning of a character at the end |
| Utf8.Utf8Decoded | src/processx-connection.c:1957-2016 | for any bytes, the decoded text is the encoding of those characters, in order, and nothing for bad bytes and for what is cut off |
| Utf8.WholeIs | src/processx-connection.c:2029-2067 | whole text is the encoding of some characters, as many as it is said to have, and is decoded to itself |
| Codec.LongestChars | src/processx-connection.c:2040-2061 | the longest beginning within a limit of k characters has exactly min(k, available) characters |
| Codec.LongestProgress | src/processx-connection.c:953-970 | without limits everything is taken; with room for at least 4 bytes, something is |
| Codec.LongestIfNextIsOver | src/processx-connection.c:2040-2061 | a beginning is the longest one within the limits as soon as one more character is over a limit |
| Codec.WholeCutAtAscii | src/processx-connection.c:208-246 | text can be cut before and after a newline without cutting a character |
| Lines.LinesRestore | src/processx-connection.c:217-235 | the lines with their terminators, put together again, are the text they were cut from |
| Lines.LinesAreProper | src/processx-connection.c:217-229 | a line has no byte 10 in it; what ends it is 13, 10 or, if the line does not end with 13, 10 |
| Lines.CutIsUnique | src/processx-connection.c:217-229 | there is only one way to cut lines off a text like that |
| Lines.LinesReadRestore | src/processx-connection.c:208-246 | one call loses nothing: lines handed out, their terminators and the text that is left are the buffer |
| Lines.ElementsAreLines | src/processx-connection.c:1742-1781 | an element contains a newline exactly if the rest of the file was added after lines stopped short, at the limit or because the first newline came in a later read |
| Lines.NumberOfElements | src/processx-connection.c:1692-1723 | the number of elements: none if no newline was seen, the lines up to the limit, which is 1000 if none is given, and one more for the rest of the file |
| Lines.LimitExceeded | src/processx-connection.c:1715-1721 | the limit is exceeded exactly if the rest of the file comes on top of it |
| Lines.LinesDependOnReads | src/processx-connection.c:1754-1779 | "a\nb" gives two lines if it is read at once, and one element if the newline comes in a second read |
| Lines.LinesAndRestAreLines | src/processx-connection.c:1715-1721 | all elements of a whole file are lines exactly if the reader did not stop short |
| Lines.StopsShort | src/processx-connection.c:1742-1781 | some complete line of the whole file is not handed out as a line exactly if the call that gets the rest does not see the first newline of its buffer, or has more lines than it takes |
| Lines.AddRead | src/processx-connection.c:208-246 | one more call hands out the next lines of the whole text, or all the rest of it |
| Connections.Source.Read | src/processx-connection.c:1916-1941 | assumption about read(2): some of the bytes that are next, EAGAIN finitely often, end of file or EIO only at the end |
| Connections.Connection.constructor | src/processx-connection.c:77-87 | a new connection owes its caller the decoding of the whole source |
| Connections.Connection.NothingAfterEof | src/processx-connection.c:1903-1907 | once the end was reported, nothing is left in any buffer or in the source, except, in raw mode, text that was converted before |
| Connections.Connection.Alloc | src/processx-connection.c:1785-1798 | two empty buffers of 64 KiB |
| Connections.Connection.Realloc | src/processx-connection.c:1803-1811 | the UTF-8 buffer grows by a fifth and keeps its text |
| Connections.Connection.Riconv | src/processx-connection.c:1977-1979 | conversion stops at the end, at an invalid or incomplete character, or when the next one does not fit, and conserves the text |
| Connections.Connection.Convert | src/processx-connection.c:1977-2004 | invalid bytes are skipped one by one, an incomplete character is dropped only at the end of the file; text plus decoding of the rest is conserved |
| Connections.Connection.ToUtf8 | src/processx-connection.c:1957-2016 | the same with the raw buffer moved to its front; progress if there is room for a character |
| Connections.Connection.Fill | src/processx-connection.c:1915-1943 | one read(2): bytes go to the end of the raw buffer, the end of the file is noted; `is_eof_` exactly if all buffers are empty then |
| Connections.Connection.Read | src/processx-connection.c:1900-1954 | reading and converting conserves all text of the connection, and makes progress unless there is nothing to read; in raw mode nothing is converted unless the raw buffer is full |
| Connections.Connection.FindUtf8Chars | src/processx-connection.c:2029-2067 | the branch for invalid text is never reached; the result is the longest beginning within both limits, and its number of characters |
| Connections.Connection.TakeText | src/processx-connection.c:965-967 | text is handed out from the front, the rest moves there |
| Connections.Connection.TakeLongest | src/processx-connection.c:1671-1676 | hands out the longest beginning within the limits |
| Connections.Connection.ReadLimited | src/processx-connection.c:1658-1676 | result plus what is pending after is what was pending before; the result is the longest beginning within the limits |
| Connections.Connection.ReadChars | src/processx-connection.c:152-169 | exactly min(n, available) characters, all whole, nothing lost |
| Connections.Connection.CReadChars | src/processx-connection.c:953-970 | the longest beginning of whole characters within nbyte bytes, not empty if there is text; an error below 4 bytes |
| Connections.Connection.FindNewline | src/processx-connection.c:1730-1740 | the first newline from a position on, or -1 |
| Connections.Connection.ReadMore | src/processx-connection.c:1762-1780 | reads on until nothing comes, text only grows at its end |
| Connections.Connection.ReadUntilNewline | src/processx-connection.c:1742-1781 | finds the first newline of the text that was there at the first look, whatever was read after that |
| Connections.Connection.FindLines | src/processx-connection.c:1692-1723 | the number of lines to hand out, and whether an unterminated last one follows |
| Connections.Connection.CountLines | src/processx-connection.c:1709-1713 | the number of complete lines, at most the limit |
| Connections.Connection.CopyLines | src/processx-connection.c:217-229 | copies exactly the first k lines |
| Connections.Connection.TakeLines | src/processx-connection.c:217-244 | hands out lines and the rest of the file, and keeps exactly what was not handed out |
| Connections.Connection.ReadLines | src/processx-connection.c:208-246 | the elements are those of `LinesRead`, at most the limit but for the rest of the file; what was taken and what is pending is what was pending; progress without end |
| Connections.Connection.ReadBytes | src/processx-connection.c:171-206 | in raw mode the bytes come out as they are, none lost, at most the limit; text converted before stays in its buffer; the end is reported exactly when the source and the raw buffer are empty |
| Connections.Connection.PrePoll | src/processx-connection.c:1563-1576 | the connection can be read at once exactly if it is at its end, has text, or has raw bytes at the end of the file; converting on the way loses nothing |
| Connections.PrePollFunc | src/processx-connection.c:1563-1606 | no connection, a closed one, one that can be read at once, or a descriptor to wait for, exactly as they are; nothing is lost |
| ReadAll.ReadAllText | R/io.R:113-150 | the loop ends, with an error only if a read failed; otherwise the result is the decoding of the whole source, once and in order, however it is split into reads |
| ReadAll.ReadAllLines | R/io.R:152-170 | the loop ends, and the result is the first k lines of the whole text and the rest of it as one element; if the text ends with a newline, just its lines, however it is split into reads; if not, k is less than the number of newlines exactly if the call that got the rest misses a line of its buffer |
| ReadAll.LinesSoFarNext | R/io.R:152-170 | one turn of that loop, for any split of the source |
| ReadAll.ServeAll | src/processx-connection.c:152-246 | any series of reads and polls conserves the text; at the end all of it was handed out |
| ChildFds.MoveUp | src/unix/processx.c:236-247 | after loop 1 every source is open and not below its target, and no descriptor that is needed was touched |
| ChildFds.Source | src/unix/processx.c:253-297 | which descriptor a target is to get: the end of a pipe, fd 1 for "2>&1", or a newly opened file |
| ChildFds.Install | src/unix/processx.c:252-319 | one turn of loop 2 finishes its target and keeps the finished ones and all sources still needed |
| ChildFds.InstallAll | src/unix/processx.c:252-319 | after loop 2 every target refers to what was requested for it, without close-on-exec |
| ChildFds.CloseUpward | src/unix/processx.c:329-331 | the last loop closes everything from a number on, up to the first free number over 200 |
| ChildFds.CloseAll | src/unix/processx.c:321-331 | loops 3 to 5 keep the targets below the error descriptor and that one, and above it only what is past the first free number over 200 |
| ChildFds.ChildInit | src/unix/processx.c:236-331 | fails only if the system refuses a descriptor; otherwise a target up to 200 is right in the end exactly if it is not above the error descriptor, and one over 200 also if below it, over 200 and over the error descriptor, a number is free; the error descriptor stays exactly if it is no target; after exec there is nothing else below that free number |
| ChildFds.DoneIs | src/unix/processx.c:253-297 | a target that is right refers to the end of its pipe, or to the null device or the file that was named: read only for the standard input, for appending if the name begins with ">>", emptied otherwise; "2>&1" is what the standard output is |
| ChildFds.ErrorFdAmongTargets | src/unix/processx.c:326-331 | there are valid requests for which a target is closed |
| Sigchld.ApplyKeeps | src/unix/processx.c:745-1119 | every step of handler, calls, kernel and others keeps the invariant, and stores a status only where there is none, in the handler or with SIGCHLD blocked |
| Sigchld.RunKeeps | src/unix/sigchld.c:13-157 | the invariant holds after every run |
| Sigchld.MainStepKeeps | src/unix/processx.c:745-1119 | each step of wait, is_alive, get_exit_status, signal, kill, exec and the finalizer keeps it |
| Sigchld.HandleNodeKeeps | src/unix/sigchld.c:42-94 | so does the handler for one child |
| Sigchld.StatusIsRight | src/unix/processx.c:655-696 | in every interleaving a handle has no status, and then the handler looks after the child; or it has the exit code of that child, or its signal as a negative number, except that it is NA exactly if somebody read and dropped that |
| Sigchld.WhoDrops | src/unix/processx.c:1005-1019 | a step drops a status exactly if signal, the first look of kill, also in the finalizer, or a failed exec finds its child exited and not waited for, or code outside of processx waits for the child |
| Sigchld.StatusIsFinal | src/unix/processx.c:665-686 | once collected, exit code and end time never change |
| Sigchld.WaitIsRight | src/unix/processx.c:745-838 | wait returns TRUE only if there is no handle, or it is collected, or the process is gone; the signal mask at its return is that at its entry; also for the wait inside kill, and inside the finalizer |
| Sigchld.NoLostWakeup | src/unix/processx.c:791-823 | while wait polls, the next poll ends it exactly if the status is there: the handler that collects also closes the pipe; also for the wait inside kill, and inside the finalizer |
| Sigchld.NoChildForgotten | src/unix/sigchld.c:32-94 | when no signal is pending, a child without a status still runs, as long as nobody replaced the handler |
| Sigchld.KillIsRight | src/unix/processx.c:1045-1119 | kill returns TRUE only if the child died of signal 15 or 9, and leaves SIGCHLD unblocked |
| Sigchld.AliveIsRight | src/unix/processx.c:855-896 | is_alive returns FALSE only if there is no handle or it has its status; it finds the child alive exactly if it runs; SIGCHLD is unblocked after that |
| Sigchld.SignalLosesStatus | src/unix/processx.c:992-1019 | a run of the protocol at whose end the status of a child that exited with 0 is NA |
| Calls.ExitStatusIsRight | src/unix/processx.c:655-696 | a child that exits with code n in a run is collected with n, and one that dies of signal g with -g, unless that was dropped; then, and before, it is NA |
| Calls.CollectedHasExited | src/unix/sigchld.c:42-75 | a handle has a status only if its child exited in the run |
| Calls.EndTimeIsRight | src/unix/processx.c:678-688 | the end time is that of the one step that stored the status |
| Calls.FalseIsTimeout | src/unix/processx.c:791-837 | if wait returns FALSE, its last poll timed out, with its pipe open and no status at that moment; also inside kill, and inside the finalizer |
| Calls.WaitReturnsTrue | src/unix/processx.c:757-837 | once wait finds no handle or a status at its start, polls with a status there, or finds the process gone, it returns TRUE whatever comes in between, unless it throws |
| Calls.WaitThrows | src/unix/processx.c:769-827 | a wait that throws leaves the signal mask as it was at its entry if it could not make its pipe, and SIGCHLD unblocked if it failed or was interrupted when it polled |
| Calls.AliveAnswer | src/unix/processx.c:855-896 | is_alive returns FALSE if it finds no handle, or a status; otherwise TRUE exactly if it finds the child running |
| Calls.SignalAnswer | src/unix/processx.c:965-1023 | signal returns FALSE if it finds no handle, or a status; otherwise TRUE exactly if the child was not reaped |
| Calls.SignalCollects | src/unix/processx.c:1005-1013 | when signal has looked for the status and there was no such child any more, the handle has a status after that |
| Calls.KillAnswer | src/unix/processx.c:1045-1119 | what kill returns, by the step that decided it: FALSE if there is no handle, a status or no running child; after SIGTERM and after SIGKILL exactly whether the status is that signal |
| Calls.SigkillIsLast | src/unix/processx.c:1086-1104 | SIGKILL is sent only to a child that was found running, and with a time of grace only after SIGTERM and a wait that returned FALSE |
| Calls.SigtermToChild | src/unix/processx.c:1081-1097 | SIGTERM is only sent to a child that is there, if only as a zombie |
| Calls.SigkillToChild | src/unix/processx.c:1081-1101 | and so is SIGKILL |
| Calls.KillLeavesBlocked | src/unix/processx.c:1076-1097 | if kill throws, SIGCHLD stays blocked exactly if the wait in it could not make its pipe |
| Calls.FinalizerKills | src/unix/processx.c:364-392 | the finalizer kills exactly if that was asked for and there is a handle, and no handle is left after it |
| Calls.ExecAnswer | src/unix/processx.c:603-653 | exec returns a handle if it reads no error; if it reads one, it throws when the child has exited |
| ChildList.NoNodeLost | src/unix/sigchld.c:42-94 | every node is on exactly one of the two sides after the handler |
| ChildList.WhoStays | src/unix/sigchld.c:51-92 | on which side a node is, by the answer of waitpid |
| ChildList.Lists.FreelistAdd | src/unix/childlist.c:9-15 | a node goes to the front of the free list |
| ChildList.Lists.ChildAdd | src/unix/childlist.c:32-48 | a new node goes to the front of the child list |
| ChildList.Lists.FreelistFree | src/unix/childlist.c:17-26 | each node of the free list is freed once, and none is read after that |
| ChildList.Lists.Unlink | src/unix/sigchld.c:77-92 | moving a node between the lists while the child list is cut in two |
| ChildList.Lists.SigchldCallback | src/unix/sigchld.c:39-94 | for any answers of waitpid, the child list becomes the nodes whose process still runs, or for which waitpid failed in another way than that there is no such child, in their order; the others, exactly, go to the front of the free list, last one first; both lists stay acyclic and disjoint |
| CommandLine.EscapedParses | src/win/processx.c:238-257 | the standard parser reads an escaped argument as the argument, backslashes before quotes and at its end included |
| CommandLine.QuotedParses | src/win/processx.c:188-258 | the same for each of the four ways to quote |
| CommandLine.QuotedIs | src/win/processx.c:193-216 | an argument is left as it is exactly if it is not empty and has no blank, tab or quote in it |
| CommandLine.SplitUndoesJoin | src/win/processx.c:303-331 | splitting the line by the argument rules of Microsoft C gives back exactly the arguments |
| CommandLine.WcsReverse | src/win/processx.c:254-255 | the part that was written backwards is reversed in place, what is before it stays |
| CommandLine.WriteEscapedBackwards | src/win/processx.c:240-253 | the loop from the last character to the first writes the reverse of the escaped argument |
| CommandLine.QuoteCmdArg | src/win/processx.c:188-258 | writes the quoted argument, in at most twice its length plus two characters |
| CommandLine.MakeProgramArgs | src/win/processx.c:260-334 | the line fits into the buffer, ends with a NUL, and is split into the arguments again |
| Environment.EnvCompare | src/win/processx.c:380-418 | compares the names in upper case; an error exactly if one is empty |
| Environment.CompareIsOrder | src/win/processx.c:405-417 | the comparison is antisymmetric, and 0 exactly for the same name |
| Environment.CompareIsTransitive | src/win/processx.c:405-417 | it is transitive |
| Environment.CompareIs | src/win/processx.c:405-417 | the order is that of the first character that differs, and a name comes before its continuations |
| Environment.Next | src/win/processx.c:543-551 | both passes take the same decision at the same place |
| Environment.MakeRoom | src/win/processx.c:542-568 | the size pass counts exactly what the copy pass writes, and knows the lengths of the values that it needs |
| Environment.CopyAll | src/win/processx.c:570-609 | the copy pass fills the block exactly, and ends it with a NUL |
| Environment.MergeContent | src/win/processx.c:542-609 | the merge has every variable of the caller and every required one that is missing and set here, each once |
| Environment.MergeSorted | src/win/processx.c:542-609 | the merge is in the order of the names |
| Environment.SameLength | src/win/processx.c:539-540 | sorting does not change the room that is needed |
| Environment.VariablesCount | src/win/processx.c:484-497 | the variables of the caller are all strings with a "=", each as often as it is there |
| Environment.MissingCount | src/win/processx.c:553-566 | a required variable of this process is added, once, exactly if no variable of the caller has its name in upper case |
| Environment.FlattenReads | src/win/processx.c:570-609 | reading a block up to its empty string gives back the strings that were written |
| Environment.MakeProgramEnv | src/win/processx.c:468-613 | an error exactly if a string of the caller begins with "="; otherwise reading the block gives, in the order of the names, each string of the caller with a "=" as often as it is there, the tree id, and each required variable of this process that none of these is, once, and nothing else |
| Environment.RequiredIsInOrder | src/win/processx.c:365-377 | the table of required variables has these eleven names, in increasing order |
| RootedTree.Vector.PushBack | src/processx-vector.c:41-51 | appends, whatever the storage is |
| RootedTree.Vector.Reserve | src/processx-vector.c:25-35 | more storage, same elements |
| RootedTree.Vector.Find | src/processx-vector.c:64-76 | the first occurrence from a position on |
| RootedTree.Forest.SegmentIsFar | src/processx-vector.c:99-109 | what round k adds has a walk of at least k steps from the root |
| RootedTree.Forest.WalkIsInSegment | src/processx-vector.c:101-106 | what k steps reach is added by round k |
| RootedTree.Forest.RoundNeeded | src/processx-vector.c:99-109 | round k has something to do exactly if there is a walk of k steps |
| RootedTree.Forest.ResultIsTree | src/processx-vector.c:89-110 | once a round has nothing to do, the result is exactly the root and its descendants |
| RootedTree.Forest.SearchEnds | src/processx-vector.c:99-109 | the search ends exactly if no walk from the root meets itself |
| RootedTree.Forest.FoundOnce | src/processx-vector.c:89-110 | the result has each process once exactly if, in the tree, none is listed twice and each is listed before its parent |
| RootedTree.Round | src/processx-vector.c:101-106 | one round, which also searches what it added itself |
| RootedTree.FindTree | src/processx-vector.c:89-110 | ends for every acyclic parent relation; the root is first, the set of the result is the tree, and each is in it once under exactly that condition |
| RootedTree.FoundTwice | src/processx-vector.c:101-106 | a process can be in the result twice |
| Supervisor.SweepRemovesHalf | src/supervisor/supervisor.c:430-439 | a sweep leaves at most half of the dead children |
| Supervisor.SweepClears | src/supervisor/supervisor.c:430-439 | a sweep takes off all m dead children exactly if m is at most 1, or the last m - 1 children of the list all run |
| Supervisor.SweepKeepsRunning | src/supervisor/supervisor.c:430-439 | it keeps every running child as often as it was there, and adds nothing |
| Supervisor.DeadAreGone | src/supervisor/supervisor.c:430-439 | fewer than 2^k dead children are gone after k sweeps |
| Supervisor.AllDead | src/supervisor/supervisor.c:430-439 | if all n children are dead, exactly half of n (rounded down) stay |
| Supervisor.AllDeadStay | src/supervisor/supervisor.c:430-439 | so for 2^k dead children k sweeps are not enough |
| Supervisor.RunFits | src/supervisor/supervisor.c:400-428 | after any input and sweeps no child is there twice, and there are at most 1024 |
| Supervisor.StaysTracked | src/supervisor/supervisor.c:391-440 | a child on the list stays there until it is called off or a sweep finds it dead, whatever else happens |
| Supervisor.TrackedWasAsked | src/supervisor/supervisor.c:391-440 | a child on the list was asked for, and not called off since |
| Supervisor.RemoveElement | src/supervisor/utils.c:33-36 | the last element takes the place of the removed one |
| Supervisor.ArrayContains | src/supervisor/utils.c:39-46 | whether the value is there |
| Supervisor.Tracker.Command | src/supervisor/supervisor.c:400-428 | one number of the input does what `Apply` says |
| Supervisor.Tracker.Sweep | src/supervisor/supervisor.c:432-439 | the loop over the array is the sweep |
| Supervisor.Tracker.KillChildren | src/supervisor/supervisor.c:144-208 | all tracked children are asked to stop, and exactly those of them that still run in the end are killed |
| LineCallback.SplitIsLines | R/run.R:479-483 | the pieces are the complete lines, and the rest if it is not empty |
| LineCallback.LinesOfMore | R/run.R:476-485 | pushback plus the next chunk has just the lines of the whole text that were not delivered yet, also if "\r\n" is split |
| LineCallback.Stream.Output | R/run.R:476-485 | after each chunk, the calls are the complete lines of all text so far, and the pushback is what is after the last newline |
| LineCallback.Deliver | R/run.R:512-521 | the calls do not depend on the chunks |
| LineCallback.LostIsUnended | R/run.R:620-630 | the calls are all of the text except an unterminated last line |
| Poll.CountFds | src/processx-connection.c:1372-1391 | the first pass counts the descriptors to poll |
| Poll.Collect | src/processx-connection.c:1395-1440 | the second pass fills exactly as many entries, in order, and counts what is ready |
| Poll.Answer | src/processx-connection.c:1459-1476 | what one answer of poll(2) changes |
| Poll.SetTimeouts | src/processx-connection.c:1453-1455 | everything that has an entry times out |
| Poll.SetAnswers | src/processx-connection.c:1457-1478 | every pollable gets the event of its own answers |
| Poll.SetEvents | src/processx-connection.c:1449-1479 | timeouts if nothing was answered and nothing was ready, otherwise the events of the answers |
| Poll.ConnectionPoll | src/processx-connection.c:1357-1481 | every pollable has its event, the result is the number of those with data or a connection, there is no waiting if some are ready before, and an error only from poll(2) |
| Poll.TimeoutIsForAll | src/processx-connection.c:1452-1455 | one timeout means that everything that was polled timed out, and nothing is ready |
| Poll.PolledFor | src/processx-connection.c:1409-1440 | a connection is polled for reading, and the descriptors of a curl handle for what they are listed for |
| Poll.NoWaiting | src/processx-connection.c:1445-1448 | poll(2) is told not to wait exactly if something is ready already |
| Poll.FinalIs | src/processx-connection.c:1449-1479 | the event of each pollable, from the flags of its answers |
| Poll.SlotCount | src/poll.c:11-12 | the slots that are allocated are those that are used |
| Poll.Layout | src/poll.c:18-53 | three slots for a process, one for anything else, in order |
| Poll.PollAll | src/poll.c:3-67 | every input gets the events of its own slots; a connection is closed if its descriptor is not open, ready, or has a connection, if it can be read or hung up, times out if nothing happened at all, and is silent otherwise |
| Cleancall.Session.CallSaveHandler | src/cleancall.c:145-162 | the handler goes to the free slot on top, before the next one is allocated; before any context it runs at once, and that is an error |
| Cleancall.Session.CallExits | src/cleancall.c:93-116 | the outer stack is back, and the handlers ran newest first |
| Cleancall.Session.WithCleanupContext | src/cleancall.c:125-143 | a context, nested ones included, leaves the outer stack as it was, and runs its handlers also if the code jumps |
| Cleancall.Session.Run | src/cleancall.c:118-123 | code that saves handlers, nests contexts, jumps and catches jumps |
| Cleancall.WhoRuns | src/cleancall.c:93-116 | the handlers that run are those that were not overwritten, newest first: ordinary ones always, early ones exactly if the code failed |
| Cleancall.WhoFails | src/cleancall.c:118-143 | code fails exactly if it gets to a jump, or to an allocation that does not work, that it does not catch |
| Cleancall.NoneIsLost | src/cleancall.c:145-162 | all saved handlers are kept exactly if no handler was saved after one whose allocation failed |
| Cleancall.AllRun | src/cleancall.c:93-162 | so, unless jumps are caught in the same context, each handler runs once, newest first |
| Cleancall.LostHandler | src/cleancall.c:153-161 | if they are, a handler can be lost |
| Base64.ValueOfLetter | src/base64.c:15-75 | the decode table undoes the encode table, and the padding is not in it |
| Base64.LetterOfValue | src/base64.c:15-75 | and the other way round |
| Base64.TablesAre | src/base64.c:15-75 | the encode table is the alphabet of RFC 4648, letter by letter, and the decode table is its inverse, with 255 for all other bytes |
| Base64.Encode | src/base64.c:77-129 | fills exactly 4 * ceil(n / 3) characters, each with its six bits or padding |
| Base64.DecodeByte | src/base64.c:162-177 | one character ends a byte and begins the next one |
| Base64.Decode | src/base64.c:131-190 | what is returned for any text below 128: decoded bytes, their number, and what is not cut off |
| Base64.EncodedLetters | src/base64.c:93-124 | where the padding begins, that it is "=", and how many bytes come back |
| Base64.RoundTrip | src/base64.c:181-189 | decoding what was encoded gives the same bytes, and one zero byte more exactly if the length is 2 modulo 3 |

## Left out

- The operating system is a source of arbitrary answers, with what is assumed of it stated in the model: end of file is final, read(2) finds nothing only finitely often, waitpid gives a status once, process ids are not reused. fork, exec, pipes, ptys and sockets themselves are not part of this model.
- Windows input and output (completion ports, ConPTY, named pipes, the I/O thread), and polling there, including `poll_idx`.
- Stateful encodings: the converter is a function of the bytes in front of it.
- Memory that cannot be allocated, except for exit handlers; buffer sizes beyond the integers of C.
- Reading text from a connection that is in raw mode.
- `processx_c_connection_read_line` and `processx__child_remove`, which nothing else in the core calls.
- Connections.Connection.Realloc: the factor 1.2 is exact arithmetic, not floating point.
- ReadAll.ReadAllLines: a loop with part of a line in the buffer does not wait, and a poll may return for another connection, so that it ends rests on the source having finitely many reads without data.
- ReadAll.ReadAllText: that it ends rests on that too. Of the loop for a pty on Windows only the common part is modelled.
- ChildFds.ChildInit: a failing call kills the child, which is `ok` being false; the file status flags that `nonblock_fcntl` sets, the start of a pty session and everything after the loops are left out.
- Sigchld.ApplyKeeps: the finalizer runs between calls, not inside them. In the code `processx__child_add` may collect garbage when it makes its weak reference (src/unix/childlist.c:32-48), and so run the finalizer of another handle, which unblocks SIGCHLD (src/unix/processx.c:366-374) before the child is on the list; that race is not modelled. Other threads, and the signal mask other than SIGCHLD, are left out.
- Calls.SignalAnswer: a signal for the process group counts as sent if the child itself was there; that other processes of its group may get it is left out.
- Sigchld.NoLostWakeup: the wait pipe is its two ends, not their numbers, so that a number used again after the cleanup handler is not modelled.
- ChildList.Lists.FreelistFree: runs with SIGCHLD blocked, so it is not interleaved with the handler.
- CommandLine.MakeProgramArgs: characters are UTF-16 units that were converted before; the rule for the program name, which is parsed in another way, is left out, so the split is that of arguments after it.
- Environment.EnvCompare: upper case is a function on characters; names have no NUL in them, and are converted to UTF-16 before.
- Environment.MakeProgramEnv: the sort is an insertion sort, any other order of variables with the same name would do as well; a variable of the parent that changes between the passes, which the code reports as an error, is left out.
- RootedTree.FindTree: requires that there is no cycle, because otherwise the search does not end.
- Supervisor.Tracker.KillChildren: the time that is waited is the number of looks; a process that was found dead is dead at later looks.
- LineCallback.Stream.Output: one stream; the callbacks for chunks and the spinner are left out. `strsplit` is the algorithm of its documentation, on bytes.
- Poll.ConnectionPoll: what the pre-poll function of a connection does to its buffers is `PrePoll` in `Connections`; here it is a value. poll(2) is asked once, with its slices and interrupts in it.
- Cleancall.Session.CallSaveHandler: a call after a context has ended and outside of any other, where the stack is the NULL of R and not that of C, is left out.
- Cleancall.Session.CallExits: handlers neither jump nor save handlers, as the code demands.
- Base64.Decode: bytes of 128 or more, which the original looks up beyond its table, are excluded; the table is in closed form.
- Error messages, `px`, `sock` and `interrupt`, the R6 classes and `pipeline.R` would only add easy members.
