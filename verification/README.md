# A model of the GTags server

GTags answers questions about the tags of a large source tree. A tag server keeps
the tags of its files in a table with several indexes and speaks s-expressions over
a poll loop; a mixer asks a local and a remote source and joins their racing
answers; a watcher keeps the local table's directories under observation; a Python
client formats requests and parses replies. This project models these parts in
Dafny and proves what they keep, over all inputs, all runs and all interleavings.

One module stands for one component:

| module | component |
|---|---|
| `CStrings`, `Sequences` | C strings as `strcmp`, `isspace` and `c_str()` see them; equalities of sequences |
| `Numerals` | decimal integers of strutil.cc and the integer tokens of sexpression.cc |
| `SExpressions`, `RoundTrip` | the s-expression reader and printer, and the exact law between them |
| `Filenames` | path components, their order and their distance |
| `ProducerConsumer`, `QueueContention` | the bounded queue as a machine of interleaved steps, and when a missed mutex can hurt |
| `TagEntries`, `TagsTables` | the tag table: what it represents, and the indexes as mutable objects |
| `PollServers`, `RpcSockets` | the poll loop, and one RPC with its two callbacks over it |
| `Framing`, `TagsReplies` | texts that denote trees, and the tag server's replies |
| `Mixing`, `Joining`, `ErrorReplies`, `ResultHolders` | the text of the mix, when its elements come apart again, the reply that carries a failure, and the mixer and its holders as objects |
| `MixerProtocol`, `SourceInvariants`, `MixerInvariants`, `MixerRuns`, `MixerReplies` | the race of the services: its steps, what every step keeps, whole runs, and what their reply says |
| `MixerRequests`, `EndToEnd` | the mixer's requests, and a lookup all the way through |
| `FileWatchers`, `FileWatcherRequests` | the watcher's maps and recursion, and its request queue |
| `PythonClient`, `PythonRoundTrip`, `PythonEndToEnd` | the client's printer and parser, against itself and against the server |

What the program changes in place is a class here, with the program's fields, and
its methods are proved against functions on values; what runs in several threads is
a step machine whose steps are single mutex or semaphore operations, sections under
a mutex, and deletions. The mixer's two objects appear both ways. Text ends at the
first NUL for every reader that works on `c_str()`. CHECK failures, NULL results and
undefined behaviour are outcomes of their own.

## Where the code and its documentation differ

The model follows the code.

- sexpression.h describes integers with an optional plus sign; `IsIntToken` accepts
  none, so `+1` is a symbol.
- sexpression.h says that a backslash in a symbol between bars is escaped; the
  printer escapes bars only, and `RoundTrip.BackslashIsLost` shows that such a
  symbol is never given back.
- The C escapes of newline, carriage return and tab are printed as letters, which the
  server's own reader does not translate (`RoundTrip.StringRoundTrip`) and the
  client's reader drops for newline and carriage return, together with the single
  quote (`PythonRoundTrip.ClientReadsString`).
- A `TryPut` or `TryGet` that gets its semaphore but not the mutex reports failure and
  still posts the other semaphore. With two threads and a capacity above one that lets a
  pop find the deque empty and lets the queue outgrow its capacity; otherwise neither
  happens (`QueueContention.EmptyPopsExactly`, `QueueContention.OverflowsExactly`).
- The mixer writes no space between elements. They come apart again exactly if all but
  the last show their own end (`Joining.MixedReply`).
- The message of a failure is written between quotes without being escaped, names from
  the request included (`ErrorReplies.ErrorReplyExactly`, `MixerRequests.FailureIsRead`).
- A service's text can fail a CHECK while it is mixed, and then the client gets no reply at
  all (`MixerRuns.AnsweredExactly`).
- A lookup's records reach the reader and the Python client unaltered only if their strings
  hold none of the characters above, and for the client no single quote
  (`TagsReplies.RecordDenotesExactly`, `PythonEndToEnd.RecordReachesClient`).
- `Basename` of a path such as `/` is NULL. The basename index hashes it without a test, so
  unloading such a file ends the program, as does indexing one of its records
  (`TagsTables.TagsTable.UnloadFile`, `TagsTables.TagsTable.AddTag`).
- A path that ends with the corpus root is stripped to the empty name, whose lookup aborts
  (`TagsReplies.SexpProtocolRequestHandler.Answer`).
- socket.h promises that a repeatable callback of either kind makes `PerformRPC` delete
  both. A repeatable done callback is deleted and the error callback left alone; a
  repeatable error callback is accepted and never deleted once it has run
  (`RpcSockets.PerformRPC`).
- The comment on watcher requests says that their excludes do not affect later ones;
  an exclude that was there before and is named again is gone afterwards
  (`FileWatcherRequests.ExcludesAreLocal`).
- "Inside a directory" is a prefix test on names (`FileWatcherRequests.RemovesOnlyInside`).
- A comment in `UnloadFilesInDir` speaks of deleting the stored filename; it stays.
- `ResultMixer` reports only the remote source's failure.

## Model

| member | source | states |
|---|---|---|
| `Numerals.DecimalRoundTrip` | strutil.cc:56-98 | Every int's decimal text is an integer token, denotes the same int (the most negative one included) and has at most 11 characters |
| `Numerals.PlaceValues` | strutil.cc:66-73 | The k-th digit from the right is the number of tens, hundreds and so on |
| `Numerals.IntTokenExactly` | strutil.cc:81-98 | A token is an integer exactly if it is one to ten digits with or without a minus sign in front |
| `Numerals.FastItoa` | strutil.cc:58-75 | Writing backwards through the 11 character buffer, in bounds, with the magnitude taken in unsigned arithmetic, gives the decimal text |
| `Numerals.WriteDigits` | strutil.cc:66-73 | The loop leaves exactly the decimal digits at the end of the buffer |
| `Numerals.MagnitudeFits` | strutil.cc:60-64 | The wrapped negation is the magnitude for every int, -2147483648 included |
| `Numerals.IsIntToken` | strutil.cc:81-98 | Accepts exactly an optional minus sign with one to ten digits |
| `SExpressions.CEscape` | strutil.cc:23-54 | The loop's buffer is the escaped C string |
| `SExpressions.WriteRepr` | sexpression.cc:250-314 | Appends the printed form, whatever the buffer held; termination by the structure of the tree |
| `SExpressions.WriteReprWithoutParens` | sexpression.cc:258-272 | Appends the elements of a list, with a dot in front of an improper tail |
| `SExpressions.WriteQuotedSymbol` | sexpression.cc:300-314 | Appends the bars and the name with its bars escaped |
| `SExpressions.ReadDelimited` | sexpression.cc:218-239 | Never fails a CHECK and never passes the terminator; a result leaves less text than there was |
| `SExpressions.ReadSexp` | sexpression.cc:97-186 | Terminates on every text; a tree is returned only after at least one character was read; NULL, a failed CHECK and undefined behaviour are separate outcomes |
| `SExpressions.ReadItems` | sexpression.cc:109-170 | The list reader that calls back into the expression reader consumes text whenever it returns |
| `SExpressions.ScanToken` | sexpression.cc:188-216 | A scanned token ends at whitespace, a closing parenthesis or the end of the text, and a token that is not empty consumes text |
| `SExpressions.ScanUnquotedToken` | sexpression.cc:188-204 | The cursor loop agrees with the token function in text, escape flag and cursor, overrun included |
| `SExpressions.FillWithDelimitedString` | sexpression.cc:218-239 | The cursor loop agrees with the delimited-text function in value, outcome and cursor |
| `SExpressions.ParseUnquotedToken` | sexpression.cc:188-216 | The cursor and the result are those of the token reader, for every text |
| `SExpressions.ParseSexp` | sexpression.cc:97-186 | The recursive-descent parser on the shared cursor agrees with the reading function: same outcome, same tree, same text left |
| `SExpressions.ParseList` | sexpression.cc:109-170 | The same for lists, with the period that is swallowed in front of a token |
| `SExpressions.ConsUp` | sexpression.cc:157-169 | The backwards loop builds the list or improper list of the items read |
| `SExpressions.Parse` | sexpression.cc:69-72 | The first expression of the C string; what follows is ignored |
| `SExpressions.WriteAtom` | sexpression.cc:300-314 | Appends the printed form of an atom |
| `SExpressions.FindNeedsQuoting` | sexpression.cc:278-298 | The constructor's loop finds exactly the names that need bars |
| `SExpressions.TokenIsAllPeriods` | sexpression.h:170-177 | The loop over the token |
| `SExpressions.SymbolCharExactly` | sexpression.cc:318-322 | Exactly letters, digits and these twenty-one others stand in a symbol without bars |
| `SExpressions.CharacterIterator.Advance` | iterators.h:47-48 | Moves on by one character, never from the terminator |
| `SExpressions.CharacterIterator.SkipWhitespace` | iterators.h:152-158 | Moves on to the first character that is no whitespace |
| `RoundTrip.ReadPrintedExactly` | sexpression.cc:97-314 | The law of reader and printer: in front of any text that ends a token, a printed tree is read back as itself and leaves exactly that text if and only if it is faithful (strings without the soft characters, symbol names without backslash and not nil, no leading period inside a list) |
| `RoundTrip.PrintThenRead` | sexpression.cc:97-314 | The total map behind the law: what every readable tree has become once printed and read, nested and improper lists included, with the text left |
| `RoundTrip.FaithfulReadsBack` | sexpression.cc:97-314 | On faithful trees that map is the identity |
| `RoundTrip.UnfaithfulIsLost` | sexpression.cc:97-314 | A tree that is not faithful is not given back, whatever follows it and however deep the damage sits |
| `RoundTrip.StringRoundTrip` | sexpression.cc:218-239 | The exact map on strings: every C escape comes back as its letter |
| `RoundTrip.SoftenFixpoint` | strutil.cc:23-54 | A string survives exactly if it holds no NUL, newline, carriage return or tab |
| `RoundTrip.BarsRoundTrip` | sexpression.cc:300-314 | A symbol in bars without backslash comes back |
| `RoundTrip.BackslashIsLost` | sexpression.cc:304-309 | A symbol in bars with a backslash never does |
| `RoundTrip.AtomRoundTrip` | sexpression.cc:188-216 | Every readable atom, at top level or in a list, comes back as the map says |
| `RoundTrip.NumberRoundTrip` | sexpression.cc:241-246 | Every int32 comes back as the same number |
| `RoundTrip.HeadDepthIsKept` | sexpression.cc:109-170 | The reader never opens more parentheses in front than were printed |
| `RoundTrip.SexpLeft` | sexpression.cc:97-186 | What a returned tree leaves is a proper suffix of the text: the cursor never moves behind the terminator |
| `RoundTrip.NilSymbolIsLost` | sexpression.cc:209-210 | A symbol named nil is read as nil |
| `RoundTrip.TabIsLost` | strutil.cc:36-38 | A tab is read as the letter t |
| `RoundTrip.LeadingPeriodIsLost` | sexpression.cc:124-131 | Inside a list a symbol loses its leading period |
| `Filenames.Initialize` | filename.cc:150-181 | The loop over the path yields its components, which hold no slash and are never a single period |
| `Filenames.Str` | filename.cc:123-136 | The loop yields the joined components |
| `Filenames.Basename` | filename.cc:138-148 | The last component that is not empty, none if all are |
| `Filenames.RebuildFromStr` | filename.cc:123-181 | Rebuilding a filename from its string gives the same components |
| `Filenames.SplitExactly` | filename.cc:150-181 | The parts of a path are the one way to write it as parts without a slash that are joined by slashes |
| `Filenames.DropDotsExactly` | filename.cc:150-181 | Single periods are dropped wherever they stand, and nothing else is |
| `Filenames.BasenameExactly` | filename.cc:138-148 | The basename is the component behind which all are empty and which is not |
| `Filenames.EqualIffSameStr` | filename.cc:89-96 | Two filenames are equal exactly if their strings are, so hash and equality agree |
| `Filenames.LessThan` | filename.cc:64-87 | The loop decides the lexicographic order of the components |
| `Filenames.PathLessExactly` | filename.cc:64-87 | Of two filenames that is smaller which ends first or has the smaller component where they first differ |
| `CStrings.LessExactly` | filename.cc:75-77 | The same for characters, as strcmp compares components and tags |
| `Filenames.Equals` | filename.cc:89-96 | The loop decides equality of the components |
| `Filenames.PathLessTransitive` | filename.cc:64-87 | The order is transitive |
| `Filenames.PathLessTrichotomy` | filename.cc:64-96 | Of two filenames exactly one is smaller unless they are equal |
| `Filenames.DistanceTo` | filename.cc:102-121 | The loop's result is the length of a walk of cd .. and cd child steps between the containing directories, and no walk is shorter |
| `Filenames.ShortestWalk` | filename.cc:102-121 | A walk of exactly that length exists |
| `Filenames.NoShorterWalk` | filename.cc:102-121 | No walk is shorter |
| `Filenames.DistanceSymmetric` | filename.cc:102-121 | The distance is symmetric |
| `Filenames.DistanceTriangle` | filename.cc:102-121 | The distance obeys the triangle inequality |
| `Filenames.DistanceZero` | filename.cc:102-121 | The distance is zero exactly between a directory and itself |
| `ProducerConsumer.EveryRun` | pcqueue.h:38-97 | Over every interleaving of Put, Get, TryPut and TryGet: tokens plus calls in flight equal the capacity, what the callers see follows the queue, and the semaphores count it exactly if as many puts as gets have missed the mutex |
| `ProducerConsumer.FirstInFirstOut` | pcqueue.h:38-97 | Over every interleaving: the k-th value that leaves is returned to its caller as the k-th argument that came in, what has come in and not left is queued, and once nobody is inside a call all that has left has been returned. Arguments are those of the schedule's calls, results what the calls return |
| `ProducerConsumer.FollowStep` | pcqueue.h:38-97 | Every step keeps what the callers have seen and what the queue and the calls in flight hold in agreement |
| `ProducerConsumer.WaitsExactly` | pcqueue.h:38-82 | A thread waits exactly for a token or the mutex that Put and Get must have; TryPut and TryGet wait for neither |
| `ProducerConsumer.StepInv` | pcqueue.h:38-97 | Every step keeps the token sum, the queue length law and mutual exclusion |
| `ProducerConsumer.TokensKept` | pcqueue.h:38-82 | A step that gives and takes tokens as it owes them keeps both counting laws |
| `ProducerConsumer.NeverPopsEmpty` | pcqueue.h:47-56 | A pop finds a value as long as no more puts than gets have missed the mutex: the step from the length law to the results below |
| `ProducerConsumer.QueueStaysBounded` | pcqueue.h:38-45 | The queue outgrows its capacity by no more than the missed gets that no missed put makes up for, the bound behind the results below |
| `ProducerConsumer.QuietQueueCounts` | pcqueue.h:38-97 | With nobody inside a call and misses balanced, the semaphores say how full the queue is |
| `QueueContention.EmptyPopsExactly` | pcqueue.h:38-97 | For every capacity and every set of threads: no run pops the empty deque if and only if the capacity is at most one or there is at most one thread |
| `QueueContention.OverflowsExactly` | pcqueue.h:38-97 | No run takes the queue over its capacity if and only if the same holds |
| `QueueContention.WithoutTryPut` | pcqueue.h:47-69 | Where nobody calls TryPut no pop is empty, whatever the capacity and the number of threads |
| `QueueContention.WithoutTryGet` | pcqueue.h:38-82 | Where nobody calls TryGet the queue keeps to its capacity |
| `QueueContention.NoMissRun` | pcqueue.h:58-82 | With capacity one or a single thread no run ever misses the mutex |
| `QueueContention.EmptyPopRun` | pcqueue.h:58-69 | For any two threads and any larger capacity, the run in which one missed TryPut makes a Get pop the empty deque |
| `QueueContention.OverflowRun` | pcqueue.h:71-82 | And the run in which one missed TryGet takes the queue one value over its capacity |
| `TagEntries.EveryRunRepresents` | tagstable.cc:100-178 | After every sequence of reloads, updates and directory unloads, the sorted index represents one map from files to records |
| `TagEntries.LastWriterWins` | tagstable.cc:113-178 | Loading a tag file leaves every file with the records of its last declaration, and files it does not mention as they were |
| `TagEntries.LoadedRecords` | tagstable.cc:527-655 | Field by field: after a tag file, a file holds one record for each tag item of its last declaration, in their order, with the C string of its tag, its line, its offset, the declared language and the C string of the first 200 characters of its snippet; a file deleted last is gone, one not mentioned is as before |
| `TagEntries.LastOperationWins` | tagstable.cc:100-178 | Over every sequence of reloads, updates and directory unloads, each file has the records the last operation that touches it gave it, or none if that took them away |
| `TagEntries.EveryRecordDeclared` | tagstable.cc:100-178 | Over every sequence of operations, what a file holds is item by item what one of its declarations says, or what it held before |
| `TagEntries.StableSort` | tagstable.cc:586-600 | What the index holds is a stable sort of the records: all of them once, by tag, in declaration order under each tag |
| `TagEntries.SelectOutside` | tagstable.cc:372-432 | Removing files removes their records and no others |
| `TagEntries.EqualRange` | tagstable.cc:261-271 | The equal_range of a tag in the sorted index is the filter by equality |
| `TagEntries.PrefixRange` | tagstable.cc:235-250 | The scan from lower_bound to the first entry without the prefix is the filter by prefix of the whole index |
| `TagsTables.TagsTable.FreeData` | tagstable.cc:325-359 | Every record is freed exactly once and all indexes are empty |
| `TagsTables.TagsTable.FileGet` | tagstable.cc:829-840 | The stored filename equal to a path, added if it is new |
| `TagsTables.TagsTable.UnloadIndexed` | tagstable.cc:393-415 | Unloading by the file index, comparing pointers, removes exactly the given records and frees each once |
| `TagsTables.TagsTable.UnloadScanning` | tagstable.cc:416-429 | Unloading by a scan removes exactly the file's records: the same sequence as by the index |
| `TagsTables.TagsTable.EraseResult` | tagstable.cc:396-411 | The search among the entries with the same tag erases the one record, by identity |
| `TagsTables.TagsTable.EraseName` | tagstable.cc:376-391 | All basename entries of the file go, and only they |
| `TagsTables.TagsTable.UnloadFile` | tagstable.cc:372-432 | With the file index on or off, all indexes agree again and represent the old table without the file; the program is lost exactly if the file is loaded and has no basename |
| `TagsTables.TagsTable.ParseDeletedDeclaration` | tagstable.cc:508-525 | A deletion is the deletion in the represented map; it fails exactly for the empty path and for a loaded file without a basename |
| `TagsTables.TagsTable.AddTag` | tagstable.cc:586-600 | A fresh record with the item's own tag, line, offset and snippet and the declared file and language enters the tag index behind its equals, and the basename index once; with that index on, a file without a basename ends the program, and nothing else does |
| `TagsTables.TagsTable.ParseFileDeclaration` | tagstable.cc:527-611 | A declaration replaces the file's records in all indexes by those of its items, field by field and in its own order; it fails exactly for an empty path or language, a loaded file without a basename, or records of such a file when basenames are indexed |
| `TagsTables.TagsTable.EnterItems` | tagstable.cc:575-605 | The loop over the contents enters the file's records one by one; the indexes agree at every point but for the vector that is still growing; it fails exactly if a record has no basename to be indexed under |
| `TagsTables.TagsTable.LoadTagFile` | tagstable.cc:113-178 | All indexes together represent the fold of the declarations, and each file declared last by a file declaration holds its items' records; the load fails exactly if a header stands behind a file or a declaration fails where it stands, given what is loaded by then |
| `TagsTables.TagsTable.ReloadTagFile` | tagstable.cc:100-105 | A reload is the fold from the empty table, and fails exactly as a load into it |
| `TagsTables.TagsTable.UpdateTagFile` | tagstable.cc:107-111 | An update is the fold from the present table, and fails exactly as a load into it |
| `TagsTables.SurvivesExactly` | tagstable.cc:508-611 | A declaration ends the program exactly for an empty path, a loaded file without a basename, an empty language, or a tag of a file without a basename when basenames are indexed |
| `TagsTables.LoadedBeforeExactly` | tagstable.cc:113-178 | What is loaded in front of a declaration: what was declared so far and not deleted since, and what was there before and not deleted |
| `TagsTables.AcceptableExactly` | tagstable.cc:113-178 | A tag file is survived exactly if each of its declarations is, given what is loaded by then, and no header stands behind another declaration |
| `TagsTables.TagsTable.UnloadFilesInDir` | tagstable.cc:361-370 | Exactly the files whose name starts with the text are unloaded; it fails exactly if one of the loaded ones has no basename |
| `TagsTables.TagsTable.FindTags` | tagstable.cc:255-274 | The first results of the whole index filtered by equality; every one is a live record |
| `TagsTables.TagsTable.FindPrefixTags` | tagstable.cc:221-253 | The first results of the whole index filtered by prefix; every one is a live record |
| `TagsTables.TagsTable.ScanPrefix` | tagstable.cc:241-250 | The loop stops at the first entry without the prefix or at the limit |
| `TagsTables.TagsTable.Collect` | tagstable.cc:265-271 | The loop over a range of results stops at its end or at the limit |
| `TagsTables.TagsTable.FindTagsByFile` | tagstable.cc:276-293 | The file's records in declaration order, up to the limit; nothing without the file index |
| `TagsTables.TagsTable.FindFile` | tagstable.cc:295-312 | Only loaded files with this basename, and all of them if the limit, which counts one entry per record, is not reached |
| `TagsTables.ValuesExcept` | tagstable.cc:393-429 | Removing a file's record objects is selecting the records of the other files |
| `TagsTables.InsertFileIndex` | tagstable.cc:527-611 | The file index keeps listing each file's records exactly, once each, as records enter |
| `TagsTables.UnloadTagIndex` | tagstable.cc:372-432 | The tag index stays sorted, without duplicates, and free of unloaded files |
| `TagsTables.UnloadFileIndex` | tagstable.cc:372-432 | The file index loses the file's vector and still lists every other file exactly |
| `TagsTables.UnloadNames` | tagstable.cc:376-391 | The basename index names loaded files only |
| `PollServers.PollServer.LastIndexOf` | pollserver.cc:163-169 | An index of the descriptor, or -1 if it has none |
| `PollServers.PollServer.DoubleCapacity` | pollserver.cc:171-176 | Twice the capacity, with the old entries where they were |
| `PollServers.PollServer.Register` | pollserver.cc:58-75 | The pollable takes its descriptor from whoever owned it; entries in use keep their events and places |
| `PollServers.PollServer.Append` | pollserver.cc:66-74 | A new descriptor takes the next slot, after growing if need be; all entries in use stay as they were |
| `PollServers.PollServer.Overwrite` | pollserver.cc:58-75 | A registered descriptor changes its owner in place |
| `PollServers.PollServer.MoveLastInto` | pollserver.cc:88-95 | The last entry takes the vacated slot without events, and the owners lose exactly the one of that slot |
| `PollServers.PollServer.Unregister` | pollserver.cc:77-101 | Gives up the descriptor only if the pollable still owns it; the last entry moves into the slot with its events cleared, every other entry is untouched |
| `PollServers.PollServer.IsRegistered` | pollserver.cc:103-106 | True exactly for owners |
| `PollServers.PollServer.HandlePollEvents` | pollserver.cc:137-161 | Whatever the handlers register and unregister, all indexing is in bounds and every call goes to whoever owns its descriptor by then. The pass comes through if and only if no call it makes unregisters another open descriptor; then HandleRead is called exactly for the descriptors that had POLLIN at its start, HandleWrite exactly for those that had POLLOUT or POLLHUP and did not quit in their own HandleRead, new entries are never visited, the early exit skips no ready descriptor, and the owners are what the calls have made of them. Otherwise it stops in the first call that does |
| `PollServers.PollServer.HandleEntry` | pollserver.cc:139-157 | One iteration calls HandleRead for POLLIN and HandleWrite for POLLOUT or POLLHUP unless the descriptor has quit, on its owner of the moment, and leaves the entries below untouched; it comes through exactly if its calls keep to what is allowed |
| `PollServers.PollServer.RunHandler` | pollserver.cc:145-153 | Any list of registrations and unregistrations keeps the slots below the current one; it comes through exactly if none of them unregisters another open descriptor, and the entry leaves exactly if one gives its descriptor up |
| `PollServers.PollServer.Act` | pollserver.cc:77-101 | The same for one action: the CHECK fails exactly if it is not allowed, and otherwise the owners change as the action says |
| `PollServers.PollServer.CallHandler` | pollserver.cc:145-153 | One call is logged with the owner registered for the descriptor at that moment and with what that did |
| `PollServers.PollServer.Visit` | pollserver.cc:138-157 | An iteration as a part of the pass: the calls so far stay those for the entries above, and what is left to report covers what is ready below |
| `PollServers.DispatchedExactly` | pollserver.cc:137-161 | A descriptor is read exactly if its revents have POLLIN, and written exactly if they have POLLOUT or POLLHUP and it has not quit |
| `PollServers.DispatchedInOrder` | pollserver.cc:137-161 | The slots are visited from the last to the first, and HandleRead comes before HandleWrite of the same slot |
| `PollServers.DispatchedOnce` | pollserver.cc:137-161 | No descriptor gets two reads or two writes in a pass |
| `PollServers.SkipUnready` | pollserver.cc:138-138 | Entries that the early exit skips would have caused no call |
| `RpcSockets.HandleError` | socket.cc:276-282 | The done callback is deleted unused, the error callback is run once |
| `RpcSockets.ClientSocket.constructor` | socket.cc:128-170 | The new socket owns its descriptor |
| `RpcSockets.ClientSocket.HandleWrite` | socket.cc:116-126 | On connection the descriptor passes to the connected socket, and the old owner's late unregistration does not remove the new one; on refusal both callbacks are used up and nobody owns the descriptor |
| `RpcSockets.RpcSocket.constructor` | socket.cc:267-274 | The connected socket takes the descriptor over and holds the command to send |
| `RpcSockets.RpcSocket.HandleRead` | socket.cc:185-216 | Everything received is kept until the other side closes; then the done callback gets all of it, once, and the socket gives up its descriptor |
| `RpcSockets.RpcSocket.HandleWrite` | socket.cc:218-243 | What was sent followed by what is still buffered never changes: nothing is lost or sent twice, in whatever portions write() takes it |
| `RpcSockets.PerformRPC` | socket.cc:245-259 | Which callbacks are used up on each path out, and who owns the descriptor; the error callback may be repeatable, and is then never deleted once it has run |
| `RpcSockets.Connecting` | socket.cc:116-126 | One writable event of the connecting socket, from within the poll loop: the descriptor still has exactly one owner beside the others, or the RPC is settled and nobody has it |
| `RpcSockets.Answering` | socket.cc:185-216 | One readable event of the connected socket, likewise |
| `RpcSockets.Act` | pollserver.cc:58-101 | Another pollable comes or goes, and the descriptor keeps its owner |
| `RpcSockets.RunRpc` | socket.cc:116-282 | Over every sequence of events, other pollables coming and going in between: when the RPC is over, exactly one of the callbacks has run, once, and what can be used up is used up, no owner of its descriptor is left and the others are as they have left it; until then done has not run and the descriptor has exactly one owner |
| `TagsReplies.SexpProtocolRequestHandler.PrintTagsResults` | tagsrequesthandler.cc:404-438 | The appended text is the list of the records that pass the predicate, in order |
| `TagsReplies.PassingAt` | tagsrequesthandler.cc:404-438 | The records printed are those at the positions where the predicate holds, in their order |
| `TagsReplies.LookupFinds` | tagsrequesthandler.cc:348-398 | An exact lookup finds only records of loaded files with this very tag, a prefix lookup those whose tag begins like this, a file lookup those of the file; never more than the limit, and all of them if they are fewer |
| `TagsReplies.SexpProtocolRequestHandler.Answer` | tagsrequesthandler.cc:306-398 | The value of every request, as the parser reads it, from the represented table; the program ends exactly at a load that fails or at the lookup of a file whose path is nothing but its corpus root |
| `TagsReplies.SexpProtocolRequestHandler.Execute` | tagsrequesthandler.cc:283-402 | The reply parses to server start time, as its two half-words, sequence number and value, leaves nothing, and the sequence number counts the earlier requests |
| `TagsReplies.ReplyDenotes` | tagsrequesthandler.cc:283-306 | The frame around any value is read as the frame around that value's tree |
| `TagsReplies.ReplyTreeExactly` | tagsrequesthandler.cc:283-306 | The frame, written out: start time as high and low half-word, sequence number, value |
| `TagsReplies.FixedReplies` | tagsrequesthandler.cc:325-350 | The answers that do not depend on the records: a ping gives t, and nil in test mode, versions are 2 and (1 2), everything else gives t, and a file lookup without a file index or a file gives nil |
| `TagsReplies.RecordDenotes` | tagsrequesthandler.cc:413-433 | A printed record is read as its six attributes, each string as the reader makes it |
| `TagsReplies.RecordDenotesExactly` | tagsrequesthandler.cc:413-433 | A printed record is read as the table's own strings if and only if tag, snippet and file name hold no newline, carriage return, tab or NUL |
| `TagsReplies.RecordIsIntact` | strutil.cc:23-54 | The record read is the table's own record if and only if that holds |
| `TagsReplies.RecordsAreIntact` | tagsrequesthandler.cc:404-438 | The same for the list of the results |
| `TagsReplies.TabInSnippet` | strutil.cc:36-38 | A record that is altered: the snippet begins with a tab, and is read with the letter t |
| `TagsReplies.BehindFirst` | tagsrequesthandler.cc:79-95 | What is behind the first place the pattern stands at, and nothing exactly if it stands nowhere |
| `TagsReplies.StripExactly` | tagsrequesthandler.cc:79-88 | Everything up to the first place where the corpus root stands between two slashes is cut off |
| `TagsReplies.NothingStripped` | tagsrequesthandler.cc:79-88 | Without such a place, or without a corpus root, the path stays as it is |
| `TagsReplies.ResultsDenote` | tagsrequesthandler.cc:404-438 | The printed results, with a space behind each, are read as the list of the records |
| `TagsReplies.PiecesAreRecord` | tagsrequesthandler.cc:413-433 | The pieces appended for one record make up its text |
| `Framing.SpacedList` | sexpression.cc:109-170 | Texts that denote trees, with a space between them, denote their list |
| `Framing.TrailedList` | sexpression.cc:109-170 | The same with a space behind each |
| `Framing.BlankedList` | iterators.h:152-158 | Any run of spaces, tabs, newlines, vertical tabs, form feeds and carriage returns may stand in front of, between and behind the elements of a list: they are read as the same list |
| `Framing.BlankedPair` | iterators.h:152-158 | For two elements, as one text |
| `Framing.BlankBefore` | sexpression.cc:97-108 | The same in front of any expression |
| `Framing.SpaceExactly` | strutil.h:29-29 | These six characters are whitespace, and no others |
| `Framing.TokenExactly` | sexpression.cc:188-216 | What a token without a backslash is read as, whatever characters it has: an integer, undefined outside the int range, nil, nothing at all if it is all periods, and a symbol otherwise |
| `Framing.EscapedExactly` | sexpression.cc:188-216 | A backslash takes the next character literally, whitespace and parentheses included, and makes the token a symbol |
| `Framing.PeriodAtEnd` | sexpression.cc:124-131 | A period in front of the closing parenthesis fails a CHECK |
| `Mixing.SExpressionAssocGet` | sexpression_util.cc:24-49 | The iterator loop finds the first entry with the key, and its three ways to fail |
| `Mixing.AssocFirst` | sexpression_util.cc:24-49 | The first entry with the key decides, unless one that begins with nil stands in front of it |
| `Mixing.AssocMissing` | sexpression_util.cc:24-49 | Without either the key is missing |
| `Mixing.ResultMixer.SetResult` | gtagsmixer.cc:28-38 | Stores the slot and counts down; the last one in runs the callback once and frees the mixer, unless the mix ends the program |
| `Mixing.ResultMixer.SetFailure` | gtagsmixer.cc:40-50 | Stores an empty list and the reason, and counts down likewise |
| `Mixing.ResultMixer.CheckIfDone` | gtagsmixer.cc:112-123 | The callback runs exactly when the count reaches zero, unless the mix ends the program before that |
| `Mixing.ResultMixer.MixResult` | gtagsmixer.cc:52-95 | The loop over the sources gives the mixed reply for every pair of answers, ill-formed ones included |
| `Mixing.AppendElements` | gtagsmixer.cc:103-105 | The inner loop appends the printed elements, one behind the other |
| `Mixing.JoinResults` | gtagsmixer.cc:97-108 | The joined text holds the elements of all lists, in order |
| `Mixing.NumbersFuse` | gtagsmixer.cc:103-105 | An input on which elements run together: two numbers from two sources are read as one |
| `Mixing.ResultMixer.AddValue` | gtagsmixer.cc:59-78 | The body of the loop: one source's value list, if it has one, joins the others |
| `Joining.MixedReply` | gtagsmixer.cc:52-108 | The law of the mix, for readable elements: the reply is read as ((value L)) with L the local elements followed by the remote ones, each as it is read by itself, if and only if every element but the last shows its own end |
| `Joining.SeparableReply` | gtagsmixer.cc:97-108 | Such elements come apart again, the last one in front of its parenthesis |
| `Joining.InseparableReply` | gtagsmixer.cc:97-108 | Any others do not, however they are spread over the two sources and however far back the first of them stands |
| `Joining.BareSwallows` | sexpression.cc:188-216 | An element without an end of its own takes in what follows: it is read as something else, or has swallowed all of the list |
| `Joining.LongerToken` | sexpression.cc:188-216 | A longer token stands for something else, unless all it has gained are digits: that alone happens to leading zeros and wide numbers |
| `Joining.FaithfulElements` | gtagsmixer.cc:97-108 | Faithful elements that come apart arrive unchanged |
| `ErrorReplies.ErrorReplyExactly` | gtagsmixer.cc:80-84 | The law of the failure's reply, whose message is not escaped: it is read as ((error ((message M)))) with nothing left over if and only if M holds no quote, no backslash and no NUL |
| `ErrorReplies.AlteredRead` | sexpression.cc:218-239 | Any other message is altered or cut, or nothing is read at all: a quote ends it early, and behind a backslash the text read lags behind the message for good |
| `ResultHolders.ResultHolder.SetResult` | gtagsmixer.cc:125-140 | The first result is reported, and later ones are not; the program outlives it exactly if the other source is still out or the mix exists; the last reply deletes the holder |
| `ResultHolders.ResultHolder.SetFailure` | gtagsmixer.cc:143-158 | Only the last reply reports, and only if no result came before, with the same condition; it deletes the holder |
| `ResultHolders.Serve` | gtagsmixer.cc:125-158 | Any series of replies to a new holder tells the mixer exactly once: the first result, or the failure if there was none. The program outlives it if and only if the other source is still out or the mix exists, and then the holder is deleted and the reply, if it is due, is the mix |
| `MixerRuns.EveryRun` | gtagsmixer.cc:28-158 | Over every interleaving of any number of services: no freed holder or mixer is touched, each source reports at most once, the callback has run exactly if both have reported and their mix exists, the program has ended exactly if they have and it does not, and the mix does not depend on their order |
| `MixerRuns.CompletedRun` | gtagsmixer.cc:28-158 | At the end of every run: the reply mixes one answer of each source, or its failure only if all its services failed; it is given exactly once and the mixer freed if that mix exists, and otherwise the program has ended without one |
| `MixerRuns.AnsweredExactly` | gtagsmixer.cc:28-158 | Every run that ends has given exactly one reply if and only if no service answers with a text that the mixer does not survive |
| `MixerRuns.HarmlessMeansAnswered` | gtagsmixer.cc:52-123 | Where no service does, every run ends with one reply and all freed |
| `MixerRuns.HarmMeansNoReply` | gtagsmixer.cc:52-123 | Where one does, on either side and among any number of others, there is a run that ends without a reply |
| `MixerRuns.DoneMeansAnswered` | gtagsmixer.cc:112-158 | With all threads done, each source has reported exactly once, holders and mixer have freed themselves, and the client has its one reply |
| `MixerRuns.ReplyIsDetermined` | gtagsmixer.cc:28-158 | If the services of each source that answer agree, every run ends with the same reply, or none of them with any |
| `MixerReplies.RunReplies` | gtagsmixer.cc:52-108 | What the reply of every run says, from the texts of the services: the lists of both sources printed one behind the other if there is one; the remote text as it is if there is none and the remote source has answered, whatever the local one brought; the failure if it has not |
| `MixerReplies.RemoteTextComesBack` | gtagsmixer.cc:76-87 | If no answer has a value that is a list and the remote source has answered, the client gets an answer of the remote source back as it is |
| `MixerReplies.FailureExactly` | gtagsmixer.cc:76-87 | The failure is the reply if and only if all remote services have failed and the local source brings no list, unless a service sends that very text |
| `MixerReplies.HasListExactly` | gtagsmixer.cc:59-74 | What a text contributes is the list that the first value entry of its tree holds |
| `MixerRuns.NeverStuck` | gtagsmixer.cc:28-158 | No deadlock: while some thread is not done and the program goes on, some thread can move, through both mutexes |
| `MixerRuns.EndedExactly` | gtagsmixer.cc:28-158 | Nothing more can happen exactly if all threads are done or the program has ended |
| `MixerRuns.Continues` | gtagsmixer.cc:28-158 | Every run can be continued to such an end |
| `MixerRuns.RunsEnd` | gtagsmixer.cc:28-158 | No run is longer than a bound fixed at its start |
| `SourceInvariants.HolderStepKeeps` | gtagsmixer.cc:125-158 | Every step inside a holder keeps its count, its mutex, its single release and its single report |
| `SourceInvariants.MixerMoveKeeps` | gtagsmixer.cc:28-50 | So does every step of its threads through the mixer |
| `MixerInvariants.MixerStepKeeps` | gtagsmixer.cc:28-123 | Every step at the mixer keeps the count of reports, the mutex, the slots, the single deletion and the single reply, or the end of the program in its place |
| `MixerInvariants.HolderStepLeavesMixer` | gtagsmixer.cc:125-158 | Steps in a holder keep what holds of the mixer |
| `MixerRuns.InitInv` | mixerrequesthandler.cc:148-171 | The state after a dispatch satisfies all invariants, with or without a local source |
| `MixerRequests.MixerRequestHandler.Execute` | mixerrequesthandler.cc:88-171 | Every command is answered at once exactly one time, with the text for a ping, an unknown corpus, an unknown language or a missing kind, or dispatched and not answered yet: to the callgraph of its corpus and language if it asks for callers, to the definitions if not, and to the local source of that kind; or it ends the program, and exactly when |
| `MixerRequests.FailureIsRead` | mixerrequesthandler.cc:108-144 | A failure is read as its message if and only if none of the names it repeats holds a quote, a backslash or a NUL |
| `MixerRequests.MixerRequestHandler.CreateDataSourceRequest` | mixerrequesthandler.cc:26-78 | The request's attributes, with the settings in place of what is missing or no string; it fails exactly if a lookup does |
| `MixerRequests.CommandMeans` | mixerrequesthandler.cc:26-78 | Each attribute of a command feeds the field that is named after it: for all texts of a command with a corpus, a language, a callers flag and a current file |
| `MixerRequests.BareCommandMeans` | mixerrequesthandler.cc:26-78 | A command without attributes has those of the settings |
| `MixerRequests.MixerRequestHandler.IsCommandPing` | mixerrequesthandler.cc:80-86 | True exactly for a list that starts with the symbol ping; the empty list has no first element to look at |
| `MixerRequests.PingRepr` | mixerrequesthandler.cc:85-85 | Only the symbol ping prints as ping |
| `MixerRequests.DispatchedIsAnswered` | mixerrequesthandler.cc:148-179 | A dispatched request gets exactly one reply in every run if and only if no service answers with a text that the mixer does not survive |
| `MixerRequests.DispatchedIsSafe` | mixerrequesthandler.cc:148-179 | Whatever they answer: nothing freed is used, and there is at most one reply |
| `EndToEnd.LookupContributes` | gtagsmixer.cc:52-95 | What a tag server's lookup reply contributes to the mix is its records |
| `EndToEnd.LookupThroughMixer` | gtagsmixer.cc:52-108 | The mixed reply to a lookup is read as the local records followed by the remote ones, none missing, doubled or fused; they are the tables' own if and only if no tag, snippet or file name holds a newline, carriage return, tab or NUL |
| `EndToEnd.BroughtThroughMixer` | gtagsmixer.cc:52-108 | The same where one of the sources has failed or does not exist: what is read is what the other one brought |
| `EndToEnd.LookupFromOneSource` | gtagsmixer.cc:52-95 | If only one source answers, its records come through alone |
| `EndToEnd.EveryRaceAnswers` | mixerrequesthandler.cc:148-179 | However the services race, whichever of them fail, with or without a local source: exactly one reply, read as the records of the sources that have answered, the local ones first, unaltered if and only if the same holds; or read as the failure if no source has |
| `FileWatchers.PathnameWatchDescriptorMap.Add` | filewatcher.cc:61-71 | Both maps gain the pair; for a new path and descriptor they stay inverse to each other |
| `FileWatchers.PathnameWatchDescriptorMap.Remove` | filewatcher.cc:73-85 | Both maps lose the pair, or nothing if the descriptor is unknown |
| `FileWatchers.PathnameWatchDescriptorMap.GetWatchDescriptor` | filewatcher.cc:87-94 | The descriptor of a path, zero exactly if it has none |
| `FileWatchers.PathnameWatchDescriptorMap.GetPathname` | filewatcher.cc:96-107 | The path of a descriptor, none exactly if it is unknown |
| `FileWatchers.PathnameWatchDescriptorMap.GetSubDirsWatchDescriptor` | filewatcher.cc:120-129 | Exactly the descriptors of the paths that start with the text, once each, in whatever order the table is visited |
| `FileWatchers.InotifyFileWatcher.AddDirectory` | filewatcher.cc:199-211 | The path is watched; every watch there was keeps its descriptor |
| `FileWatchers.InotifyFileWatcher.AddDirectoryRecursive` | filewatcher.cc:213-252 | Exactly the found directories are added, the files on the way imported in order; it fails exactly if a joined path overflows its buffer |
| `FileWatchers.InotifyFileWatcher.AddContents` | filewatcher.cc:219-249 | The loop over the entries of a directory adds what is found in them |
| `FileWatchers.InotifyFileWatcher.RemoveEach` | filewatcher.cc:259-263 | The loop removes exactly the watches with the given descriptors |
| `FileWatchers.InotifyFileWatcher.RemoveDirectoryRecursive` | filewatcher.cc:254-264 | Exactly the watches whose path does not start with the text are left, unchanged, in the maps and in the kernel |
| `FileWatchers.InotifyFileWatcher.RemoveDirectory` | filewatcher.cc:266-269 | The watch of the descriptor goes, every other one stays |
| `FileWatchers.InotifyFileWatcher.AddExcludeDirectory` | filewatcher.cc:272-289 | The name, without its ending slash, is excluded |
| `FileWatchers.InotifyFileWatcher.RemoveExcludeDirectory` | filewatcher.cc:291-311 | The name, without its ending slash, is excluded no more |
| `FileWatchers.FoundExactly` | filewatcher.cc:213-252 | The recursion finds a path exactly if readable directories, none of them excluded, lead to it |
| `FileWatchers.ImportedExactly` | filewatcher.cc:213-252 | A path is imported exactly if it leads to a file through readable directories, none of the names on the way a period, two periods or excluded |
| `FileWatchers.FitsExactly` | filewatcher.cc:35-52 | The registration comes through exactly if every name that is met fits, with its directory and a slash, a buffer of 512 characters |
| `FileWatchers.JoinedParts` | filewatcher.cc:35-52 | The joined path has the parts of the directory, whether or not that ends with a slash, and then the child |
| `FileWatchers.StrippedExactly` | filewatcher.cc:272-311 | One slash at the end of an excluded name does not count, unless it is the whole name |
| `FileWatcherRequests.FileWatcherRequestHandler.Push` | filewatcherrequesthandler.cc:31-40 | The queue gains the excludes, the directories, and the excludes to be taken back, in this order |
| `FileWatcherRequests.FileWatcherRequestHandler.Add` | filewatcherrequesthandler.h:58-61 | The queue gains the commands of an add request |
| `FileWatcherRequests.FileWatcherRequestHandler.Remove` | filewatcherrequesthandler.h:63-66 | The queue gains the commands of a remove request |
| `FileWatcherRequests.FileWatcherRequestHandler.PushDirectory` | filewatcherrequesthandler.cc:50-57 | The queue gains one command |
| `FileWatcherRequests.FileWatcherRequestHandler.PushDirectories` | filewatcherrequesthandler.cc:42-48 | One command per directory, in order |
| `FileWatcherRequests.FileWatcherRequestWorker.Run` | filewatcherrequesthandler.cc:59-81 | The worker's loop is the fold of the commands on the watches and of the removals on both tag tables; it ends the program exactly if a path overflows or a removal unloads a file without a basename; the maps stay inverse, and a watch no command removes keeps its descriptor |
| `FileWatcherRequests.FileWatcherRequestWorker.Apply` | filewatcherrequesthandler.cc:62-77 | One command has its meaning on watches, excludes, imports and both tag tables, and disturbs no other watch |
| `FileWatcherRequests.FileWatcherRequestWorker.UnloadBoth` | filewatcherrequesthandler.cc:74-75 | Both tables lose the files whose name starts with the directory, and the program ends exactly if one of these has no basename |
| `FileWatcherRequests.RequestMeans` | filewatcherrequesthandler.cc:26-40 | A request's directories are worked on with its excludes in force; afterwards the excludes it named are gone |
| `FileWatcherRequests.AddRequest` | filewatcherrequesthandler.cc:31-40 | An add watches exactly what is found in one of its directories, and fails exactly if a path overflows |
| `FileWatcherRequests.RemoveRequest` | filewatcherrequesthandler.cc:31-40 | A removal never fails and leaves exactly the watches whose path starts with none of its directories |
| `FileWatcherRequests.RequestUnloads` | filewatcherrequesthandler.cc:72-76 | A request to remove leaves in a tag table exactly the files whose name starts with none of its directories; a request to add leaves the table alone |
| `FileWatcherRequests.EveryRunRestoresExcludes` | filewatcherrequesthandler.cc:26-40 | Over every sequence of requests the exclude list loses exactly what they named; from an empty one it is empty again |
| `FileWatcherRequests.ExcludesAreLocal` | filewatcherrequesthandler.cc:26-40 | A run leaves the exclude list as it was if and only if none of its excludes was there before |
| `FileWatcherRequests.AddThenRemove` | filewatcherrequesthandler.cc:31-40 | Adding directories and removing them again leaves the watches whose path starts with none of them; it undoes the addition if and only if no path watched before starts with one |
| `FileWatcherRequests.RemovesOnlyInside` | filewatcher.cc:112-129 | Removing a directory takes only what lies inside it, whatever is watched, if and only if its name is empty or ends with a slash |
| `FileWatcherRequests.SiblingIsRemoved` | filewatcher.cc:112-129 | Removing /a also removes the watch on /ab |
| `PythonClient.StringLispRepr` | gtags.py:268-280 | The loop's text is the quoted string with its backslashes and quotes escaped |
| `PythonClient.UnescapeString` | gtags.py:373-395 | The index loop stays in range and gives the unescaped text, or fails exactly on a dangling backslash |
| `PythonClient.ParseSexpHelper` | gtags.py:397-486 | On every input every index is in range, the recursion ends, and the result is that of the reading function, with the number of characters read |
| `PythonClient.ParseList` | gtags.py:415-442 | The list branch agrees with the list reader |
| `PythonClient.ParseString` | gtags.py:443-460 | The string branch agrees with the string reader |
| `PythonClient.ParseInteger` | gtags.py:461-468 | The integer branch reads the digits and gives their value |
| `PythonClient.ParseSymbol` | gtags.py:469-483 | The symbol branch agrees with the symbol reader |
| `PythonClient.ParseSexp` | gtags.py:352-488 | The first value of the text |
| `PythonRoundTrip.StringReadsBack` | gtags.py:268-280 | Every string the client prints is read back unchanged by the client, whatever follows |
| `PythonRoundTrip.ServerReadsClient` | sexpression.cc:218-239 | The server reads the client's string unchanged exactly if it holds no NUL, and nothing at all otherwise |
| `PythonRoundTrip.ClientReadsString` | gtags.py:373-395 | The exact map the other way: the client drops newlines, carriage returns and single quotes that the server escaped |
| `PythonRoundTrip.ClientReadsStringExactly` | gtags.py:373-395 | The client reads the server's string unchanged if and only if it holds none of them and no NUL |
| `PythonRoundTrip.QuotedUnescapes` | gtags.py:455-458 | What the string branch has scanned never ends in a dangling backslash |
| `PythonRoundTrip.SymbolUnescapes` | gtags.py:479-482 | Nor does what the symbol branch has scanned |
| `PythonRoundTrip.SymbolReadsExactly` | gtags.py:469-483 | A printed symbol is read back if and only if it needs no bars and starts with no digit |
| `PythonRoundTrip.PrintThenClientReads` | gtags.py:397-486 | What the client reads of any tree the server prints whose symbols it knows: nested lists, improper lists as proper ones, negative numbers as symbols; and it reads nothing more |
| `PythonEndToEnd.ReplyIsRead` | gtags.py:397-486 | The client reads the mixer's reply, elements without separators, as ((value L)) |
| `PythonEndToEnd.RecordReachesClient` | gtags.py:373-395 | The client gets a record with the table's own strings and numbers if and only if tag, snippet and file name hold no newline, carriage return, tab, NUL or single quote and line number and offset are not negative |
| `PythonEndToEnd.RecordsReachClient` | gtags.py:415-442 | The same for the reply with all of them |
| `PythonEndToEnd.QuoteInSnippet` | gtags.py:373-395 | A record that does not: the client reads it's as its |
| `PythonEndToEnd.FailureReachesClient` | gtags.py:397-486 | A failure whose message needs no escape is read by the client as that message |
| `PythonEndToEnd.EveryRaceReachesClient` | gtags.py:352-488 | However the services race, whichever of them fail, with or without a local source: from the one reply the client reads the records of the sources that have answered, the local ones first, none missing, doubled or fused; it has them as the tables do if and only if each is a record that reaches it whole; if no source has answered it reads the failure |

## Left out

- Regular expressions: the snippet search and the regexp branch of the tag search; the matcher is a library, and only the prefix branch is modelled.
- System calls (`read`, `write`, `poll`, `connect`, inotify, `readdir`, gunzip): what they return is a parameter. `poll()` reports the number of entries with non-zero revents, `connect()` runs on a descriptor nobody has registered and nobody else gets while it is open, and inotify hands out positive descriptors that are not in use.
- `LoopOnce`, `Loop` and the loop callback: each pass starts from what `poll()` reports.
- PollServers.PollServer.Register: pollables with descriptor -1 are not registered, and the initial capacity is at least one, since doubling nothing gives nothing.
- A pollable's descriptor does not change while the model holds it: `Socket::Close` sets it to -1 right after unregistering, which the model replaces by dropping the owner.
- Integer tokens outside the int range: `sscanf` leaves them undefined, and so does the reader here.
- Decoding a tag file's declarations from their association lists, the header's contents, reference and call descriptors, and the record's type: declarations are values with path, language and items.
- The callers setting and the predicates of a lookup (client path, language): any predicate on records is allowed.
- `TranslateInput`: requests are values, not text.
- TagsReplies.SexpProtocolRequestHandler.Execute: the sequence number stays below the int range, and the start time is a number of seconds that splits into two half-words.
- TagsTables.TagsTable.FindFile: with more entries than the limit, which files are cut off depends on the hash order, which the model leaves open.
- FileWatchers.InotifyFileWatcher.AddInotifyWatch: a directory that vanishes between `opendir` and the registration, or a kernel limit, ends the program by a CHECK; the model's registrations succeed.
- Inotify events, the index queue behind them and the filters of event handlers: the imported paths are recorded in order, unfiltered.
- Several producers on the watcher's queue: a request's commands stay together only with one.
- MixerRuns.CompletedRun: every source has at least one service, and every service answers once; a source without services never reports.
- The request object that `Done` deletes: `Execute` still reads it while the local source has not reported, and before that the callback cannot run (`MixerRuns.EveryRun`).
- `SExpressionAssocReplace`, `GetSubDirs` and the older opcode protocol: more loops of the kinds that are modelled.
- Memory allocation, interning of strings, logging, clocks, flags, settings, the version service, the other clients and the Emacs and Vim interfaces.
- The recursion limit of Python, and its raising of other exceptions than UnparseableSexp.
- Characters beyond ASCII and locales: `isspace` is the C locale's.
