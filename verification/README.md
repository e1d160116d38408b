# Verified models of the game server's protocol code

This project models the parts of the game server that parse, print, frame and dispatch data, in the
form the C and C++ code has (objects updated in place, linked lists, buffers written through moving
pointers), and proves them against short specifications:

* **hiredis reply reader** (`RespSpec`, `RespMachine`, `RespTree`, `RespReader`, `RespRuns`). The
  incremental reader keeps a stack of nine tasks, a growing and compacting buffer, and a reply tree
  filled in place. It is proved to give, for every byte stream and every way of cutting it into
  chunks, the replies and the final error that a recursive parser of the Redis serialization protocol
  gives for the whole stream. The proof goes through an abstract stack machine: a step of the machine
  never changes what the recursive parser will make of the stream, whatever arrives later, and a call
  of `processItem` is a step of the machine. The half-built tree is described on snapshots of the heap.
  `RespWire` writes out the texts of the protocol, byte by byte, and proves what each is read as.
* **hiredis command formatter** (`RespFormat`, `RespWords`): both ways of building a command, with exact
  lengths, read back by the reader in any chunks, and what a format string means, word by word.
* **sds** (`Sds`, `SdsQuote`, `SdsLine`): the buffer invariant the reader relies on, amortised growth,
  quoting, and what a line of bare and quoted words splits into.
* **cJSON** (`JsonSpec`, `JsonRoundTrip`, `JsonUnicode`, `JsonTree`, `JsonPrinter`, `JsonParser`,
  `JsonApi`): parser and printer over linked nodes, the round trip, buffer sizes, and `\u` escapes.
  `JsonText` writes out the grammar of RFC 8259 and proves that the parser takes every text of it for
  what it stands for; `JsonLayout`, that the printer writes such texts; `JsonReject`, what is refused.
* **dict** (`Hashing`, `Dict`, `DictIterator`): the chained hash table with resizing, and the iterator.
* **Asynchronous connection** (`AsyncSpec`, `AsyncRuns`, `AsyncHook`, `Async`): callback queue, flags,
  deferred free and disconnect, callbacks that call back into the library, and what the disconnect hook is
  told, over whole runs.
* **Game/DB frames** (`RpcSpec`, `Rpc`): encoder, receive buffer and decoding loop. The game server's
  and the database server's copies of this code do the same, so one model stands for both directions
  (the line that the database server's copy prints for each frame is left out).
* **tolua++ superclass table** (`Supers`): the cached transitive closure.

Every imperative method is proved against a function of its inputs or of the old state; the lemmas then
say what that function means. Where a function fixes a format, its texts are also written out in a module
of their own, with bytes, digits and letters as literals, and related to the function. `Bytes`, `Decimal` and `Memory` hold what the components share.

## Where the code differs from what its text says

* The message for deep nesting says "depth > 7"; that is right only if the outermost array has depth 0:
  eight nested arrays are accepted and the ninth is the error (`RespSpec.NestingLimit`,
  `RespSpec.NestingBound`).
* A clean disconnect asserts that no callback is pending, while the test that leads to it looks at the
  output buffer only. A readable event therefore fails the assertion when, at the end of its replies, a
  disconnect has been asked for, the output is flushed and a command is unanswered. The disconnect may
  have been asked for before the event or by a callback the event runs, a case the comment at
  async.c:302-306 calls safe. A second assertion fails when a reply that is no error comes and no command
  waits for it. `AsyncRuns.ReadAborts` is the exact condition for both, whatever the callbacks call and
  however many replies come, and `AsyncRuns.EventAborts` adds that no other event fails an assertion;
  `AsyncRuns.GracefulDisconnectAborts`, `AsyncRuns.DisconnectInCallbackAborts` and
  `AsyncRuns.UnaskedReplyAborts` are runs that meet it. The model keeps the code as it is: such a run
  ends in the status `Aborted`, and the delivery theorem covers all runs, with no assumption about
  pending callbacks.
* A connection found still in progress is said to be tried again later (async.c:446-448), but the socket check
  has recorded the error by then, and reading and writing refuse a context that has one: whatever comes
  later, no byte is read or written and no command gets a reply (`AsyncRuns.ErrorIsFinal`).
* Surrogate pairs are combined with OR, which is addition only when bit 0x40 of the high unit is clear
  (`JsonUnicode.PairIsStandard`, `JsonUnicode.PairWithBitSet`).
* `sdscatrepr` is said to be undone by `sdssplitargs`; that holds exactly for strings without `\x`
  escapes (`SdsQuote.RoundTrip`).
* A frame longer than the receive buffer closes the connection, because reading zero bytes for want of
  room looks like the peer closing (`Rpc.Serve` says when, exactly). A frame longer than 65535 bytes
  never reads back (`RpcSpec.ReadsBack`).

## Model

| member | source | states |
|---|---|---|
| RespRuns.RunRefinesParser | server/3rd/hiredis/hiredis.c:585-665 | for every split of every stream, feeding and draining chunk by chunk gives the replies and the final error of the recursive parser on the whole stream |
| RespRuns.ChunkIndependence | server/3rd/hiredis/hiredis.c:585-665 | two splits of one stream give the same replies in the same order and the same final error |
| RespRuns.StreamGrows | server/3rd/hiredis/hiredis.c:617-665 | more bytes only add replies behind those there are, and none once the stream is in error |
| RespRuns.ReadStream | server/3rd/hiredis/hiredis.c:556-665 | the reader object, fed any chunks and drained after each, hands out whole trees that spell out the replies of the stream, no two of which share an object or an element vector, and ends in the error of the stream |
| RespRuns.ReadAndFree | server/3rd/hiredis/hiredis.c:72-95 | when every reply of a stream is read and then freed, no object is freed twice and none is left |
| RespReader.RedisReader.GetReply | server/3rd/hiredis/hiredis.c:617-665 | the reply handed out is the next one of the stream so far, as a whole tree with every object in one slot only, and nothing of it is the reader's any more; no reply and no error exactly when the stream so far has no further one; an error exactly when the stream is in error |
| RespReader.RedisReader.Feed | server/3rd/hiredis/hiredis.c:585-615 | fed bytes are added to the stream and change nothing already decided; refused after an error |
| RespReader.RedisReader.ProcessItem | server/3rd/hiredis/hiredis.c:507-554 | one item processed is one step of the stack machine, on the heap: same unread bytes, stack, types and values, the tree still well formed |
| RespReader.RedisReader.ProcessMultiBulkItem | server/3rd/hiredis/hiredis.c:442-505 | an array header pushes a task, or makes a nil or an empty array, or at stack index 8 is a protocol error that leaves nothing behind |
| RespReader.RedisReader.ProcessBulkItem | server/3rd/hiredis/hiredis.c:389-440 | a bulk string is taken only when its payload and the two bytes after it, whatever they are, have all arrived; otherwise nothing is consumed |
| RespReader.RedisReader.MoveToNextTask | server/3rd/hiredis/hiredis.c:330-353 | leaving finished arrays and advancing in the innermost unfinished one keeps the partial tree well formed and completes the machine's frames |
| RespReader.RedisReader.SetError | server/3rd/hiredis/hiredis.c:186-210 | on an error every object made for the unfinished reply is freed, and buffer and stack are reset |
| RespReader.FreeReplyObject | server/3rd/hiredis/hiredis.c:72-95 | freeing a reply, finished or not, frees it and what hangs below it, each object once and while it is live, and nothing else |
| RespReader.SeekNewline | server/3rd/hiredis/hiredis.c:260-286 | finds the first CR LF wholly inside the unread bytes, or none, though it may look at the terminator behind them |
| RespReader.ReadLongLong | server/3rd/hiredis/hiredis.c:288-313 | the signed number a line holds, or -1 for unexpected bytes |
| RespWire.LineNumberIs | server/3rd/hiredis/hiredis.c:288-313 | every line is a sign or none, digits and a rest that begins with no digit: it stands for the signed number if the rest is empty or begins with a CR, else for -1 |
| RespWire.SpelledReads | server/3rd/hiredis/hiredis.c:288-313 | every integer is read back from its numeral, minus and plus signs and leading zeros included |
| RespWire.WriteReads | server/3rd/hiredis/hiredis.c:355-554 | every text of the protocol (status, error, signed integer, bulk string with any two bytes behind it, absent bulk or array, nested arrays) is read as what it stands for, with what follows it left, if its arrays nest no deeper than eight, and is a nesting error otherwise |
| RespWire.OtherTypes | server/3rd/hiredis/hiredis.c:507-554 | any other first byte is an error that names it |
| RespWire.TextsRead | server/3rd/hiredis/hiredis.c:585-665 | texts one after another, with anything behind them, in any chunks: the reader gives their values, then the replies of the rest |
| RespMachine.StepSound | server/3rd/hiredis/hiredis.c:507-554 | a step never changes the outcome of the reply in progress, for any bytes that arrive later, and consumes bytes unless it is stuck |
| RespMachine.CompleteSound | server/3rd/hiredis/hiredis.c:330-353 | popping the frames a finished item fills is what the recursive parser does with the item |
| RespMachine.StuckNeedsMore | server/3rd/hiredis/hiredis.c:617-665 | the machine is stuck only when the recursive parser, too, needs more bytes |
| RespSpec.NestingLimit | server/3rd/hiredis/hiredis.c:442-454 | eight arrays nest and parse; a ninth is an error whatever it holds |
| RespSpec.NestingBound | server/3rd/hiredis/hiredis.c:442-454 | no reply of any shape nests arrays deeper than eight |
| RespTree.AttachTree | server/3rd/hiredis/hiredis.c:97-184 | linking a new object into the slot it was made for keeps the partial tree well formed: filled slots before, empty ones behind, every object reachable from the root |
| RespTree.AllBelowRoot | server/3rd/hiredis/hiredis.c:186-200 | every object made for the unfinished reply hangs below its root |
| RespTree.KnownDenotes | server/3rd/hiredis/hiredis.c:617-665 | a finished root is a tree without holes that spells out its value |
| RespFormat.FormatCommandArgv | server/3rd/hiredis/hiredis.c:939-971 | writes exactly the precomputed number of bytes: the command of the arguments, by length or up to their NUL |
| RespFormat.VFormatCommand | server/3rd/hiredis/hiredis.c:686-895 | over %s, %b, %% and literals, the command of the words of the template, of exactly the length computed (what the words are is `RespWords.WordsRead`) |
| RespWords.WordsRead | server/3rd/hiredis/hiredis.c:686-895 | for every format made of words (literal bytes, %s, %b, %% in any mix, a single % at the very end) with one or more spaces between them and any around them, the arguments are exactly the words: literal bytes, interpolated bytes and % joined |
| RespFormat.ArgumentCount | server/3rd/hiredis/hiredis.c:686-895 | the number of arguments depends on the format only: interpolated bytes are never split again |
| RespFormat.SpacedArguments | server/3rd/hiredis/hiredis.c:686-895 | any mix of %s and %b with one or more spaces between each two gives exactly the arguments they interpolate, empty ones included, so both formatters agree |
| RespFormat.IntLen | server/3rd/hiredis/hiredis.c:668-679 | the number of digits of a numeral |
| RespFormat.CommandReads | server/3rd/hiredis/hiredis.c:389-505 | a formatted command reads back as the array of its arguments and leaves alone what follows |
| RespWire.CommandText | server/3rd/hiredis/hiredis.c:939-971 | a formatted command is byte by byte the list of its arguments as bulk strings, each ended by CR LF |
| RespFormat.PipelineReads | server/3rd/hiredis/hiredis.c:389-505 | commands written one after another are the first replies of the stream, and what follows them is read as if it stood alone |
| RespFormat.RoundTrip | server/3rd/hiredis/hiredis.c:585-665 | commands written one after another, with any bytes behind them, and fed in any chunks come back as their argument vectors, and the reader goes on exactly where the last command ends |
| RespFormat.CommandAt | server/3rd/hiredis/hiredis.c:585-665 | reply number k is the array of the arguments of command number k |
| Sds.GrowthIsLinear | server/3rd/hiredis/sds.c:88-139 | however a string is appended to, the bytes moved by reallocations are less than twice its final length, and so is its capacity at most |
| Sds.Sds.MakeRoomFor | server/3rd/hiredis/sds.c:88-108 | room for the bytes asked for, doubling exactly when it was short, contents and terminator kept |
| Sds.Sds.CatLen | server/3rd/hiredis/sds.c:127-139 | appends the bytes; length plus spare is the capacity and a NUL follows the contents |
| Sds.Sds.Range | server/3rd/hiredis/sds.c:219-248 | keeps the range of bytes, with negative positions counted from the end, in the same buffer |
| Sds.RangeIs | server/3rd/hiredis/sds.c:219-248 | a negative position counts from the end, and before the first byte is the first; ranges that run over the end stop there, and those that begin there or behind their end are empty |
| SdsQuote.RoundTrip | server/3rd/hiredis/sds.c:379-502 | splitting a line of quoted strings gives them back if and only if all bytes are printable or one of newline, return, tab, bell, backspace |
| SdsQuote.QuotedReads | server/3rd/hiredis/sds.c:379-502 | for all strings, splitting gives as many tokens, each byte outside that domain having become an x and two digits |
| SdsQuote.CatRepr | server/3rd/hiredis/sds.c:379-405 | appends the quoted form of the bytes |
| SdsQuote.SplitArgs | server/3rd/hiredis/sds.c:419-502 | the vector holds exactly the tokens of the line; on unbalanced quotes nothing is returned and the count has run down to -1 (what the tokens are is `SdsLine.LineSplits`) |
| SdsLine.LineSplits | server/3rd/hiredis/sds.c:419-502 | a line of words, each bare or quoted or bare with a quoted end, with blanks around them, splits into exactly those words with escapes replaced, and is refused if a quote in it is left open or closed before a non-blank |
| SdsLine.AnyLine | server/3rd/hiredis/sds.c:419-502 | every line without a NUL has such a form |
| SdsLine.Refused | server/3rd/hiredis/sds.c:419-502 | so a line is refused if and only if some quote in it is left open or closed before a non-blank |
| SdsLine.ReprIs | server/3rd/hiredis/sds.c:379-405 | a quoted string is byte by byte one quoted word, special bytes as the letters that stand for them and others as two digits |
| JsonRoundTrip.RoundTrip | server/gamesrv/json/cJSON.cc:143-470 | every tree of null, booleans, 32-bit integers, NUL-free strings, arrays and objects, formatted or not, at any depth, is parsed back from its printed text, to the end of the text |
| JsonRoundTrip.ValueReads | server/gamesrv/json/cJSON.cc:267-280 | a printed value is read back and the reading stops right behind it, whatever follows that does not continue a number |
| JsonRoundTrip.EscapeReads | server/gamesrv/json/cJSON.cc:143-236 | an escaped string is unescaped to its bytes, up to its closing quote |
| JsonText.TextReads | server/gamesrv/json/cJSON.cc:96-412 | every text of the grammar of RFC 8259, with blanks wherever it allows them, every spelling of numbers and strings, is read as the value it stands for, up to its end |
| JsonText.DocumentReads | server/gamesrv/json/cJSON.cc:249-260 | likewise behind leading blanks |
| JsonText.NumbReads | server/gamesrv/json/cJSON.cc:96-116 | sign, integer, fraction and exponent in either case and with any sign give mantissa and power of ten, digit by digit |
| JsonText.CharReads | server/gamesrv/json/cJSON.cc:143-200 | every spelling of a character in a string, plain, short escape or \u escape, is read as what it stands for |
| JsonLayout.PrintsText | server/gamesrv/json/cJSON.cc:203-470 | what is printed, formatted or not, is such a text, with its line feeds, tabs and spaces and its escapes where the layout says, and the text stands for the value |
| JsonReject.NoValue | server/gamesrv/json/cJSON.cc:267-280 | bytes that begin no word, string, number, array or object are refused |
| JsonReject.ArrayRejects | server/gamesrv/json/cJSON.cc:300-325 | an array is refused if something is wrong behind any number of good items |
| JsonReject.ItemBad | server/gamesrv/json/cJSON.cc:300-325 | wrong is an item that is no value |
| JsonReject.ItemUnclosed | server/gamesrv/json/cJSON.cc:300-325 | and an item followed by neither a comma nor the bracket |
| JsonReject.ObjectRejects | server/gamesrv/json/cJSON.cc:379-412 | likewise for objects |
| JsonReject.KeyBad | server/gamesrv/json/cJSON.cc:379-412 | where wrong is a key that is no string |
| JsonReject.ColonBad | server/gamesrv/json/cJSON.cc:379-412 | a key without a colon |
| JsonReject.ValueBad | server/gamesrv/json/cJSON.cc:379-412 | a colon without a value |
| JsonReject.EntryUnclosed | server/gamesrv/json/cJSON.cc:379-412 | and a member followed by neither a comma nor the brace |
| JsonReject.UnclosedReads | server/gamesrv/json/cJSON.cc:143-200 | a string that is never closed is taken up to the end of the text |
| JsonUnicode.Utf8IsStandard | server/gamesrv/json/cJSON.cc:180-188 | every scalar value is emitted as its own well-formed UTF-8, by the tables of RFC 3629 |
| JsonUnicode.UnitReads | server/gamesrv/json/cJSON.cc:168-190 | a well-formed escape of one unit yields the UTF-8 of that unit; NUL and lone low surrogates yield nothing |
| JsonUnicode.PairReads | server/gamesrv/json/cJSON.cc:172-190 | an escaped surrogate pair yields well-formed UTF-8, of the right code point if and only if bit 0x40 of the high unit is clear |
| JsonText.EscapeYields | server/gamesrv/json/cJSON.cc:168-190 | every spelling of the four digits of a character, upper or lower case, yields the well-formed UTF-8 of that character |
| JsonText.PairYields | server/gamesrv/json/cJSON.cc:168-190 | every spelling of a pair yields well-formed UTF-8, of its character if bit 0x40 of the high unit is clear, else of the one 0x10000 below |
| JsonText.NothingYields | server/gamesrv/json/cJSON.cc:168-172 | every spelling of NUL or of a lone low unit yields nothing |
| JsonText.HighYields | server/gamesrv/json/cJSON.cc:172-178 | a high unit yields nothing when no other unit follows, and takes one that is not low down with it |
| JsonUnicode.PairIsStandard | server/gamesrv/json/cJSON.cc:177 | combining by OR is the standard's addition if and only if that bit is clear, and is short by 0x10000 otherwise |
| JsonUnicode.PairWithBitSet | server/gamesrv/json/cJSON.cc:177 | a pair for which it fails: U+20000 comes out as U+10000 |
| JsonUnicode.UnescapeFits | server/gamesrv/json/cJSON.cc:149-200 | the decoded string never overruns the buffer sized by the first pass |
| JsonText.CharsRoomIs | server/gamesrv/json/cJSON.cc:149-150 | the room the first pass makes: one byte for a character or a backslash and its letter, and one more for each digit |
| JsonParser.ParseStringInto | server/gamesrv/json/cJSON.cc:143-200 | the node gets a fresh C string of the decoded bytes, written inside the buffer the first pass sized; no quote, no string |
| JsonParser.ParseNumberInto | server/gamesrv/json/cJSON.cc:96-116 | mantissa and power of ten of the longest number at the front, its value cut to an integer, and what follows it |
| JsonTree.TruncatedIs | server/gamesrv/json/cJSON.cc:111-113 | the integer stored is the number cut towards zero: what is missing is less than one and has its sign |
| JsonParser.ParseArrayInto | server/gamesrv/json/cJSON.cc:300-325 | builds a linked list of fresh nodes that denotes the array of the text, or fails exactly when the grammar does |
| JsonParser.ParseObjectInto | server/gamesrv/json/cJSON.cc:379-412 | likewise for objects, each key ending up as the name of its node |
| JsonParser.ParseValueInto | server/gamesrv/json/cJSON.cc:267-280 | the node denotes the value at the front of the text, and the pointer is right behind it, or fails exactly when there is none |
| JsonParser.Parse | server/gamesrv/json/cJSON.cc:252-260 | a fresh tree of the value behind leading blanks, or NULL exactly when there is none |
| JsonPrinter.PrintStringPtr | server/gamesrv/json/cJSON.cc:203-236 | the buffer is exactly as long as the quoted string with its NUL |
| JsonPrinter.PrintArray | server/gamesrv/json/cJSON.cc:328-376 | prints the array into a buffer whose computed length bounds every byte written |
| JsonPrinter.PrintObject | server/gamesrv/json/cJSON.cc:415-470 | prints the object likewise, in both formats and at any depth |
| JsonPrinter.ArrayFits | server/gamesrv/json/cJSON.cc:331-352 | the length print_array computes suffices for the text and its NUL, for all items, depths and formats |
| JsonPrinter.ObjectFits | server/gamesrv/json/cJSON.cc:418-448 | the length print_object computes suffices likewise |
| JsonPrinter.NumeralFits | server/gamesrv/json/cJSON.cc:119-126 | a 32-bit integer takes at most eleven of the 21 bytes |
| JsonPrinter.PrintNode | server/gamesrv/json/cJSON.cc:282-297 | the printed form of the tree, as a fresh C string |
| JsonApi.PrintThenParse | server/gamesrv/json/cJSON.cc:252-264 | printing any tree in the heap and parsing the buffer builds a new tree of the same value |
| Hashing.MaskIsRemainder | server/3rd/hiredis/dict.c:118 | masking with a power of two less one is the remainder |
| Hashing.HashIs | server/3rd/hiredis/dict.c:53-59 | the hash is 5381 followed by the bytes, to base 33, modulo 2^32 |
| Hashing.NextPower | server/3rd/hiredis/dict.c:306-315 | the first power of two from four up that is at least the size asked for |
| Dict.Dict.Expand | server/3rd/hiredis/dict.c:88-132 | moves every entry to its new bucket, the early exit on the count losing none; refused exactly when the entries outnumber the size |
| Dict.Dict.Add | server/3rd/hiredis/dict.c:135-154 | adds a new key to the map the table stands for; refused exactly when the key is there; the table has four buckets at first and doubles exactly when it is full |
| Dict.Dict.Replace | server/3rd/hiredis/dict.c:160-179 | the map with the key set to the value, and whether the key was new; the table grows as for adding |
| Dict.Dict.Delete | server/3rd/hiredis/dict.c:182-210 | the map without the key, exactly one entry unlinked from its chain, or nothing changed and the key not there |
| Dict.Dict.Find | server/3rd/hiredis/dict.c:243-256 | the entry of the key, or NULL exactly when the map has no such key |
| Dict.Replay | server/3rd/hiredis/dict.c:88-210 | a table that went through any sequence of operations is the finite map they make, and sized, placed and counted right |
| DictIteration.DictIterator.Next | server/3rd/hiredis/dict.c:268-286 | returns the next entry still to visit, or NULL exactly when none is left |
| DictIteration.PendingSurvives | server/3rd/hiredis/dict.c:182-210 | deleting an entry already returned leaves the iterator with the same entries to visit |
| DictIteration.VisitAll | server/3rd/hiredis/dict.c:258-286 | iteration ends after visiting every entry present at the start exactly once, whichever of the returned entries are deleted on the way |
| AsyncRuns.EachCallbackOnce | server/3rd/hiredis/async.c:180-437 | in every run, by the time the context is freed, the callback of accepted command number k has run exactly once, in its place, with reply number k of the byte stream or with NULL; unless a free was asked for, with NULL exactly when the stream received has no reply number k |
| AsyncRuns.RunSettles | server/3rd/hiredis/async.c:180-437 | between any two events every complete reply received has been handed to the callback of its number, the bytes sent and queued are those of the accepted commands, and the disconnect hook is told once; an abort has one of two stated causes |
| AsyncRuns.DeliveryOf | server/3rd/hiredis/async.c:215-222 | a request with a callback has exactly one delivery, at the place and with the answer of its number |
| AsyncRuns.ClosingIsFinal | server/3rd/hiredis/async.c:541 | once a disconnect or free has been asked for, no run accepts another command, from inside a callback or outside |
| AsyncRuns.ReadAborts | server/3rd/hiredis/async.c:361-437 | a read event on any live context, one whose connection it completes included, fails an assertion if and only if it gets to read (connected by then, no error before), no callback it runs frees the context, and either a reply that is no error comes when no command waits for it, or the replies leave a command unanswered, the stream is sound, a disconnect has been asked for before or by one of those callbacks, and neither the old output nor what they issue leaves a byte to send |
| AsyncRuns.EventAborts | server/3rd/hiredis/async.c:361-510 | of all events, exactly such a read fails an assertion: no call, no write and no failed read does |
| AsyncRuns.ReadEnding | server/3rd/hiredis/async.c:361-483 | whether a context is alive, freed or aborted after a read event, in terms of the calls of the callbacks, the replies, the stream and the output |
| AsyncRuns.SocketEnding | server/3rd/hiredis/async.c:442-510 | the same for failed reads and for writes |
| AsyncRuns.CallEnding | server/3rd/hiredis/async.c:247-312 | the same for calls: a free frees, a disconnect exactly when no command waits |
| AsyncRuns.WriteTakes | server/3rd/hiredis/async.c:485-510 | a write removes from the front of the output as many bytes as were taken, and changes nothing else |
| AsyncRuns.ScriptActs | server/3rd/hiredis/async.c:215-222 | the calls of a callback add the commands issued before the first disconnect or free, unless closing already, with their bytes in order, and set the flags |
| AsyncRuns.GracefulDisconnectAborts | server/3rd/hiredis/async.c:361-374 | a run that does, the disconnect asked for between two events |
| AsyncRuns.DisconnectInCallbackAborts | server/3rd/hiredis/async.c:302-312 | a run that does, the disconnect asked for by a callback |
| AsyncRuns.UnaskedReplyAborts | server/3rd/hiredis/async.c:384-411 | a run that fails the other assertion: the first event of a context completes the connection and brings a status line |
| AsyncRuns.ErrorIsFinal | server/3rd/hiredis/async.c:442-462 | once a context has an error, from a connection still in progress for one, no run reads or writes another byte, gives a command a reply or fails an assertion |
| AsyncSpec.Drain | server/3rd/hiredis/async.c:231-233 | the drain at free time ends with an empty queue, since a closing connection refuses what its callbacks issue |
| AsyncSpec.RunCallback | server/3rd/hiredis/async.c:215-222 | a callback, whatever it calls, can only add commands and set flags: it cannot free the context under its caller, and once closing cannot touch the queue |
| Async.CallbackList.Push | server/3rd/hiredis/async.c:180-197 | appends to the linked queue |
| Async.CallbackList.Shift | server/3rd/hiredis/async.c:199-213 | takes the first off the linked queue, or nothing exactly when it is empty |
| Async.AsyncContext.Command | server/3rd/hiredis/async.c:531-593 | refused exactly when closing; otherwise queued, and its bytes appended to the output |
| Async.AsyncContext.FreeNow | server/3rd/hiredis/async.c:225-267 | runs all pending callbacks with NULL, then tells the hook and is gone; never touched after it is freed (what the hook is told is `AsyncHook.HookTold`) |
| AsyncHook.HookTold | server/3rd/hiredis/async.c:255-267 | in every run that ends freed, the hook is told once if the connection came up and never otherwise, and told OK if and only if a free was asked for, or no connection attempt, read or write failed, the stream received is sound and no error reply came unasked; the stream received is the bytes of the read events |
| AsyncHook.RunTied | server/3rd/hiredis/async.c:225-510 | connection, stream received, error and free flag of every state are those its events and its callbacks call for |
| Async.AsyncContext.ProcessCallbacks | server/3rd/hiredis/async.c:361-437 | on the linked queue, what the run model does with the replies: deferred free and disconnect, spontaneous errors, reader errors |
| Async.Drive | server/3rd/hiredis/async.c:464-510 | a context driven through any events is in the state of the run model |
| RpcSpec.RoundTrip | server/gamesrv/dbclient/dbclient.cc:199-276 | frames one after another decode to the messages they were made of, with nothing left over |
| RpcSpec.FrameLayout | server/gamesrv/dbclient/dbclient.cc:236-276 | where each field of a frame is: the length of the whole frame, the length of the action, the action, the number of arguments, and the arguments, numbers low byte first |
| RpcSpec.ArgLayout | server/gamesrv/dbclient/dbclient.cc:249-273 | an argument is 3 and four bytes of two's complement, 4, a length and the bytes, or 0 alone |
| RpcSpec.ReadsBack | server/gamesrv/dbclient/dbclient.cc:213-239 | a frame reads back if and only if its length fits the 16 bits it is written in |
| RpcSpec.PacketsExtend | server/dbsrv/gamesrv/gamesrv.cc:108-122 | bytes that come later matter only to the frame that was incomplete |
| RpcSpec.PrefixReads | server/dbsrv/gamesrv/gamesrv.cc:108-122 | any prefix of some frames yields the first messages and the beginning of the next frame |
| Rpc.Post | server/gamesrv/dbclient/dbclient.cc:199-276 | the writing pass fills exactly the bytes the sizing pass counted, with the frame of the message |
| Rpc.Measure | server/gamesrv/dbclient/dbclient.cc:213-229 | the sizing pass is the length of the frame |
| Rpc.DispatchFrame | server/gamesrv/dbclient/dbclient.cc:64-113 | calls the function of the message with its arguments, and leaves every byte of the buffer as it was |
| Rpc.CNameIs | server/gamesrv/dbclient/dbclient.cc:64-76 | the function called is the one named by the bytes before the first NUL of the action |
| Rpc.Peer.DecodeAll | server/gamesrv/dbclient/dbclient.cc:153-167 | dispatches every complete frame in order and moves the incomplete one to the front |
| Rpc.Peer.OnReadable | server/gamesrv/dbclient/dbclient.cc:132-170 | takes what fits, decodes it, and closes exactly when it could take nothing |
| Rpc.Serve | server/gamesrv/dbclient/dbclient.cc:132-170 | at any moment of a connection, in the middle of a frame too, however the bytes were cut: the calls made are those of the messages that have come whole, in order, up to the first whose frame is longer than the buffer; it is closed if and only if more bytes of that frame have come than the buffer holds, so after whole frames if and only if one does not fit |
| Rpc.WholeStream | server/gamesrv/dbclient/dbclient.cc:132-170 | frames that have come whole overflow the buffer if and only if one of them is longer than it |
| Rpc.RecvBuf.Buf2Line | server/srvlib/net/recvbuf.cc:115-126 | moves the unread bytes to the front and keeps them |
| Supers.Register | server/3rd/tolua++/tolua_map.c:392-400 | after all types are registered and some of them declared as classes, each once and none after a class it is the base of, every table holds exactly the registered proper ancestors of its type, and every type and the const variant of every declared class has a table |
| Supers.LateBase | server/3rd/tolua++/tolua_map.c:71-85 | why bases must come first: a class declared before its base misses what the base inherits later, whatever other classes are declared afterwards |
| Supers.DeclareCloses | server/3rd/tolua++/tolua_map.c:521-533 | one declaration, of a class that is not the base of a declared one, turns the closure of the graph before into the closure of the graph after |
| Supers.Registry.MapSuper | server/3rd/tolua++/tolua_map.c:49-87 | adds the base and the whole table of the base, in whatever order the keys are met |
| Supers.Registry.FastIsa | server/3rd/tolua++/tolua_is.c:23-45 | true if and only if the types are the same or the second is reachable from the first in the declared graph, for a first type that has a table (a const type of an undeclared class has none) |
| Supers.Registry.IsUsertype | server/3rd/tolua++/tolua_is.c:164-204 | the same answer by name, with or without a table |
| Supers.RegisterAndAsk | server/3rd/tolua++/tolua_is.c:23-45 | in a program that registers its types and declares no class after one it is the base of, both questions are answered by reachability |
| Supers.ReachesMeans | server/3rd/tolua++/tolua_map.c:521-533 | reachability in terms of classes and bases: a type is its bases, its const variant and theirs; a const type is the const variants of the bases, and nothing that is not const |

## Left out

- Integer widths: counts, lengths and numbers are unbounded integers, except where a wrap or a cut is part of the result (hash values, 16- and 32-bit frame fields); overflow of `readLongLong` and of lengths beyond `int` is not modelled.
- Out-of-memory branches and allocator hooks: allocation succeeds, and `malloc(0)` is not NULL.
- Error texts: a protocol error is a value that tells its kind and byte, not the string in `errstr`.
- ReplyObject: string payloads are values held by the object, not separate buffers with a terminator; custom reply functions are not modelled. An array count below -1 is kept as the value `NegArray`.
- RespFormat.VFormatCommand: directives other than `%s`, `%b` and `%%` are excluded, because they delegate to printf.
- JsonParser.ParseValueInto: texts with a malformed `\u` escape (not four hexadecimal digits), where what `sscanf` accepts and the fixed skip of four may step over the end of the string, and texts with a backslash at their end, behind which the C code reads, are excluded by the outcome `Undefined`.
- JsonParser.ParseStringInto: excludes malformed `\u` escapes and a backslash at the end of the text, as above.
- JsonParser.ParseArrayInto: excludes texts with such an escape.
- JsonParser.ParseObjectInto: excludes texts with such an escape.
- JsonUnicode.UnescapeFits: excludes texts with such an escape, on which the second pass may run past the string.
- JsonParser.ParseNumberInto: the value is kept as mantissa and power of ten; its rounding to a double, and the cut of a value beyond `int`, are not modelled.
- JsonPrinter.PrintNode: of numbers, 32-bit integers only, because the others are printed by the `%f` and `%e` of printf.
- JsonPrinter.PrintArray: items with numbers that are 32-bit integers, as above.
- JsonPrinter.PrintObject: members with numbers that are 32-bit integers, as above.
- JsonParser.Parse: excludes texts with a malformed `\u` escape; the partial tree of a text that fails is not freed explicitly, and the error pointer is not modelled.
- The rest of cJSON (item access, insertion, references, creation helpers): short list operations beside the parser and printer.
- `_dictClear` and `dictRelease`: they only free memory; key and value duplication hooks are not modelled, keys are byte strings.
- Async.AsyncContext.Command: commands other than SUBSCRIBE, UNSUBSCRIBE, their pattern forms and MONITOR; the pub/sub and monitor branches of `async.c` are not modelled.
- Async.AsyncContext.HandleRead: the reply reader inside the context is represented by its specification (the replies of the bytes received so far, which `RespRuns` proves of the reader object), and system calls by their results; after a failed check of the socket its descriptor is closed (net.c:175-193), which the later results are free to show or not.
- Callbacks are represented by the library calls they make; the connect and disconnect hooks take a const context and make none.
- Rpc.DispatchFrame: bodies that end early, where the C code reads beyond the frame, or that hold a type code other than number, string and nil, which it counts as an argument without pushing one, are excluded; the Lua call itself is an entry in a list of calls.
- Rpc.Peer.DecodeAll: buffers that hold such a frame, or one whose length field is below two, are excluded.
- Rpc.Peer.OnReadable: input that holds such a frame is excluded.
- Rpc.Post: other Lua types as arguments, which the sizing pass does not count; `Sendbuf` and the socket, bytes sent being the frame as built.
- Supers: the Lua stack, metatables, inheritance of methods and collectors; a registry table is a map from type names to sets of names. Type names are at most 120 characters where the closure is proved, as longer ones are cut.
- Sockets, event loop, connection setup, the gate server's framing, MySQL and PHP clients, generated bindings and the Lua virtual machine.
