# The hiredis client, modelled and proved

A Dafny 4.11 project about the Redis client in `include/windows/hiredis`. The model
repeats the steps of the C code, and the proofs are about the model.
`dafny verify dfyconfig.toml` checks everything.

## What is modelled

- **The reply parser.** `Reader.dfy` is `redisReader` as a class: a cursor into a dynamic
  string, nine task slots, and reply objects on the heap that are linked to their parents
  before they are complete. `Resp.dfy` is the protocol as a recursive grammar that knows
  nothing of buffers or stacks. `Streams.dfy` connects them. The specification of a reader
  state is its *future*: what the current reply turns out to be, for every continuation of
  the input. Each step of the reader is proved to keep the future, or to deliver what it
  promised. From that follow the theorems about whole runs: the replies and the final
  status do not depend on how the input is cut. `ReaderRuns.dfy` drives reader objects
  with arbitrary sequences of calls and shows that each is such a run. `Encoding.dfy`
  writes every kind of reply down byte by byte, apart from the grammar, and proves that it
  is read as what it means.
- **The command formatters.** `Format.dfy` and `FormatString.dfy` fill a block of the size
  computed before and prove that they fill it exactly. `FormatWords.dfy` puts formats
  together from pieces with a meaning and proves that they print that. `RoundTrip.dfy`
  shows that a pipeline of printed commands, and any stream of encoded replies, comes back
  from the reader in any chunks, and leaves the reader in its initial state.
- **The dynamic strings.** `Sds.dfy` has the header with its five widths, the growth policy
  and the in-place operations; a value stored in a header field is cut to its width, and
  nothing is ever lost by it. `Quote.dfy` and `SplitJoin.dfy` are the two pairs of printer
  and parser, and `QuoteLines.dfy` says which lines split into which arguments;
  `Numbers.dfy` has the decimal conversions with 64-bit wrap-around.
- **The hash table.** `Dict.dfy` has the bucket array, linked entries, the mask, the
  `used` counter with its early exits and rehashing in place. Every operation is proved to
  be the one on a finite map. `DictIterator.dfy` iterates while entries are deleted.
- **The asynchronous pipeline.** `Callbacks.dfy` is the linked callback queue, `Async.dfy`
  the context. What a user callback does is an arbitrary script of commands, disconnects
  and frees, chosen anew for every call. `AsyncRuns.dfy` follows a context through any
  sequence of commands, disconnects, frees and socket events, and `Conversation.dfy` one
  that nobody closes. `Output.dfy` is the output buffer, and `Arguments.dfy` takes
  formatted commands apart again.

I/O is a parameter: a read is any chunk, "try again", end of file or an error; a write is
any number of accepted bytes, "try again" or an error; a connection attempt succeeds, goes
on or is refused. The text that printf makes of a number is a parameter too.

## Where the code differs from what one would expect

The model follows the code.

- A line that is not a number reads as -1, so a malformed bulk length is a nil and a
  malformed count a nil array. Any negative bulk length is nil; a count below -1 is an
  array without elements, whose size is the count cast to `int` and then to `size_t`. The two bytes after a
  bulk payload are skipped unread.
- The sign of an array count is that of the 64-bit number, the number of elements is its
  cast to `int`. A count of 2^32 + 1 is read as 1. A positive count that is cast to 0 or
  less opens an array without room, where the next element goes through a null pointer
  and `cur->idx < prv->elements` does not hold. Reading stops there in the model, with the
  error `NoRoom`; `Resp.CountIsCut` says for which counts. For all others the assertions
  of the reader hold.
- The error text says that nesting deeper than 7 is refused. Arrays are accepted at stack
  indices 0 to 7, so eight levels are read and the ninth is refused.
- A clean disconnect asserts that no callback waits, but nothing checks it:
  `redisProcessCallbacks` disconnects as soon as no reply is ready and the output buffer
  is empty. `AsyncRuns.CleanDisconnectAborts` is a run that fails the assertion. Whether a read
  event ends in a failed assertion, in the release of the context or in neither is known
  before the event: `Async.AsyncContext.HandleRead` gives it as a function of the waiting
  callbacks, the new bytes and what the callbacks do. `redisAsyncDisconnect` itself
  never fails it.
- While a connection attempt goes on, `redisCheckSocketError` leaves an error in the
  context, so a context that saw that is released by its first event after connecting.
- A conversion of 14 or more characters in a format takes its value and prints nothing,
  and the rest of its text is read as literal characters. `strchr` also finds the NUL of
  its string, so a format that ends inside a short conversion is read past its end.
- A percent sign at the very end of a format is a literal.
- In single quotes a backslash escapes an apostrophe only, so a string that ends with a
  backslash cannot be written in them: it would escape the closing quote
  (`QuoteLines.SingleComesBack`). A vertical tab or a form feed separates words like a
  space, but does not end a word that has begun without quotes.
- `sdsrange` with an end before the start of the string takes the end for index 0, so
  the first character stays when the start is 0 as well.
- `__redisAsyncCommand` takes a leading `p` for the mark of the pattern variants before it
  looks at the name, so `PMONITOR` counts as `MONITOR`; and because it compares with the
  line end behind the name, a first argument that itself begins with `subscribe` CR LF
  counts as `SUBSCRIBE`. `Arguments.KindOfCommand` has the exact rule.

## Model

| member | source | states |
|---|---|---|
| Resp.ItemStable | include/windows/hiredis/hiredis.c:513-560 | A complete item or a protocol error stays the same verdict when more bytes follow, and the following bytes are left untouched. |
| Resp.StreamGrows | include/windows/hiredis/hiredis.c:623-671 | The replies of a stream are the first replies of every longer stream, and a protocol error is final. |
| Resp.AdvancePlug | include/windows/hiredis/hiredis.c:336-359 | Closing finished arrays on a stack and going on with the next element means the same as recursive descent, for every stack, every item and every rest of the input. |
| Resp.CountIsCut | include/windows/hiredis/hiredis.c:463-499 | Which positive 64-bit counts are read, and as how many elements: those whose low 32 bits are a positive `int`; all others leave no room. |
| Encodings.EncodingParses | include/windows/hiredis/hiredis.c:361-560 | Each kind of reply, written with literal bytes, is read as what it means, whatever follows: status `+`, error `-`, integer `:`, bulk `$`, nil as `$-1` or `*-1`, arrays `*`, nested and empty, up to eight levels from any depth. |
| Encodings.StreamParses | include/windows/hiredis/hiredis.c:623-671 | Encoded replies in a row are read one by one, and what follows them is read as if it stood alone. |
| Encodings.NinthLevelRefused | include/windows/hiredis/hiredis.c:455-460 | Inside eight open arrays another array is refused at its type byte. |
| Encodings.OtherBytesRefused | include/windows/hiredis/hiredis.c:536-538 | Any other type byte is an error at once, at every depth. |
| Encodings.NoNumber | include/windows/hiredis/hiredis.c:294-319 | A line that holds anything but digits behind its sign reads as -1. |
| Encodings.PlusSign | include/windows/hiredis/hiredis.c:294-305 | A plus sign in front of a number changes nothing. |
| Encodings.NegativeLength | include/windows/hiredis/hiredis.c:404-411 | A bulk string of any negative length is nil. |
| Encodings.NegativeCount | include/windows/hiredis/hiredis.c:463-499 | A count below -1 gives an array without elements whose size is 2^64 less the number. |
| Streams.ChunkIndependence | include/windows/hiredis/hiredis.c:591-671 | For every interleaving of feeding and asking that ends with no reply left, the replies handed out and the final error or waiting status are those of the grammar on the whole stream. Every use of a reader object is such an interleaving, by ReaderRuns.Drive. |
| Streams.CutsDoNotMatter | include/windows/hiredis/hiredis.c:591-671 | Two runs that were fed the same bytes, in any chunks, give the same replies and the same status. |
| Streams.RepliesArePrefix | include/windows/hiredis/hiredis.c:623-671 | At every point of every run the replies handed out so far are the first replies of the stream, whatever bytes are still to come. |
| Streams.RunConserves | include/windows/hiredis/hiredis.c:591-662 | At every point of every run without an error the unread bytes are exactly the last of the bytes fed: none is lost, repeated or reordered. |
| Readers.SeekNewline | include/windows/hiredis/hiredis.c:266-290 | The scan finds the first CR LF pair of the range or reports that there is none, reading one byte past the range at most, where the NUL of the string is. |
| Readers.Reader.constructor | include/windows/hiredis/hiredis.c:562-581 | A new reader is in the initial state: nothing open, an empty buffer, no error. |
| Readers.Reader.Feed | include/windows/hiredis/hiredis.c:591-621 | Appends the chunk to the unread bytes, also when a large empty buffer is replaced, and changes nothing else; a reader in error refuses and stays as it is. The buffer grows by at most the chunk. |
| Readers.Reader.GetReply | include/windows/hiredis/hiredis.c:623-671 | Hands out the reply that the grammar assigns to open arrays plus unread bytes and keeps the rest; or reports the grammar's error for good; or waits in a state that no continuation of the input can tell from the old one. The object handed out is complete and shares nothing with the reader. The buffer does not grow. |
| Readers.Reader.ReadByte | include/windows/hiredis/hiredis.c:255-263 | Takes the first unread byte, or nothing when there is none. |
| Readers.Reader.ReadLine | include/windows/hiredis/hiredis.c:321-334 | Takes the bytes before the first CR LF and the pair itself; without one nothing is consumed. |
| Readers.Reader.Link | include/windows/hiredis/hiredis.c:127-131 | A new object goes into the slot of its parent that is being read; the parent is an array and the slot is inside it, and all levels above keep their links. |
| Readers.Reader.MoveToNextTask | include/windows/hiredis/hiredis.c:336-359 | Closes every array that the item completes and moves to the next element of the innermost other one; the asserts hold, and a closed root is a complete object for the right reply. |
| Readers.Reader.ProcessLineItem | include/windows/hiredis/hiredis.c:361-393 | A simple string, error or integer line is read as the grammar says, or the reader waits unchanged in meaning. |
| Readers.Reader.ProcessBulkItem | include/windows/hiredis/hiredis.c:395-446 | The same for a bulk string; an incomplete payload consumes nothing. |
| Readers.Reader.PushTask | include/windows/hiredis/hiredis.c:489-499 | Opening an array with elements adds one level to the stack, within its nine slots, and keeps the stack invariant. |
| Readers.Reader.ProcessMultiBulkItem | include/windows/hiredis/hiredis.c:448-511 | Array headers: nil, empty, or a new level for the count cast to int; at stack index 8 the reader fails as the grammar does for too deep nesting. |
| Readers.Reader.ProcessItem | include/windows/hiredis/hiredis.c:513-560 | One step keeps the future of the state, or completes the reply it had coming; it stops only for want of bytes or with the grammar's error, and otherwise consumes at least one byte. |
| Readers.Reader.ProcessItems | include/windows/hiredis/hiredis.c:647-650 | The parse loop terminates, with the reply, the error or the need for more bytes that the grammar gives. |
| Readers.Reader.SetError | include/windows/hiredis/hiredis.c:192-216 | After an error the buffer, the stack and the partial reply are gone and only the error remains. |
| Readers.Reader.StackShape | include/windows/hiredis/hiredis.c:336-359 | In every reachable state: at most nine slots; below the current task only arrays, each the parent of the next, with 0 <= idx < elements; elements before idx are complete, those behind it null. |
| ReaderRuns.Drive | include/windows/hiredis/hiredis.c:591-671 | Any sequence of feeding and asking on a new reader object, of less than 2^31 bytes, is a run of the abstract steps, fed exactly the bytes offered; every object handed out stays complete and stands for its reply. |
| ReaderRuns.ReadAll | include/windows/hiredis/hiredis.c:591-671 | A client that feeds chunks and takes all replies after each of them gets exactly the replies and the status of the whole stream, as complete objects. |
| ReaderRuns.ReadCommands | include/windows/hiredis/hiredis.c:395-671 | A reader object fed printed commands in any chunks hands out one array object for each command, holding exactly its arguments, and is as good as new. |
| ReaderRuns.ReadReplies | include/windows/hiredis/hiredis.c:513-671 | A reader object fed encoded replies in any chunks hands out one complete object for each, with the type number of its kind and the right content, and is as good as new. |
| ReaderRuns.EchoCommand | include/windows/hiredis/hiredis.c:395-977 | The strings handed to the formatter come back from a server that echoes the command, read in any chunks: one array object whose element j holds exactly string j. |
| Numbers.ReadLongLong | include/windows/hiredis/hiredis.c:294-319 | The accumulation loop gives the 64-bit value, wrapped once, of an optionally signed digit string up to the carriage return, and -1 for anything else. |
| Numbers.IntLen | include/windows/hiredis/hiredis.c:674-685 | The digit count equals the length of the printed number, sign included. |
| Numbers.Ll2Str | include/windows/hiredis/sds.c:429-458 | Writing digits backwards and reversing in place gives the decimal numeral, with its NUL, in the 21 bytes of the caller; the minimum is included. |
| Numbers.DecimalDigits | include/windows/hiredis/sds.c:429-458 | The digit at each place of a printed number is the quotient by that power of ten modulo 10, and there is no leading zero. |
| Numbers.NumeralFits | include/windows/hiredis/sds.c:428-429 | No 64-bit value needs more than 20 characters. |
| Numbers.ReadNumeral | include/windows/hiredis/hiredis.c:294-319 | Reading back a printed 64-bit value gives the value, for all values including the minimum. |
| Format.BulkLen | include/windows/hiredis/hiredis.c:688-690 | The computed size is the size of the bulk string of every argument of that length. |
| Format.FormatCommandArgv | include/windows/hiredis/hiredis.c:945-977 | The block is filled exactly with the command of the arguments, and pos == totlen holds: with lengths, argument j is the first argvlen[j] bytes of argv[j], NULs and all; without, the bytes before its first NUL. |
| FormatString.FormatCommand | include/windows/hiredis/hiredis.c:692-917 | The same bytes as the array formatter on the arguments the format denotes, in a block filled exactly; -1 and no command for an unknown conversion. Literals, %s, %b, %% and all conversions left to printf. |
| FormatString.ScanConversion | include/windows/hiredis/hiredis.c:754-837 | The scan over flags, width, precision and size finds the last character of a conversion, or that it is unknown. |
| FormatString.AssembleIsFill | include/windows/hiredis/hiredis.c:712-875 | Building arguments character by character equals splitting the format into words first and filling in the values afterwards. |
| FormatString.ArgumentsFollowFormat | include/windows/hiredis/hiredis.c:712-875 | The number of arguments is the number of words of the format, and argument j is word j filled from its own values, so values with spaces or empty values never move a boundary. |
| FormatWords.FormatMeans | include/windows/hiredis/hiredis.c:712-875 | A format of words that are put together from literals, %s, %b, %%, printf conversions and a last single percent sign, with any spaces around and between them, denotes one argument for each word, the concatenation of what its pieces print. The conversions are given by flags, width, precision, size and last character; of one that is too long the tail is printed as text. |
| FormatWords.FormatPieces | include/windows/hiredis/hiredis.c:692-917 | The formatter makes of such a format the command of these arguments. |
| FormatWords.UnknownIsBad | include/windows/hiredis/hiredis.c:754-837 | After any such words, a conversion with any other last character makes the whole format bad. |
| RoundTrip.CommandIsEncoding | include/windows/hiredis/hiredis.c:945-977 | A printed command is the encoding of the array of its arguments as bulk strings. |
| RoundTrip.CommandParses | include/windows/hiredis/hiredis.c:945-977 | Reading a printed command, whatever follows it, gives one array of exactly its arguments, for any bytes and any number of arguments, and consumes exactly the command. |
| RoundTrip.PipelineParses | include/windows/hiredis/hiredis.c:945-977 | Printed commands in a row are read back one by one, and what follows them is read as if it stood alone. |
| RoundTrip.PipelineRoundTrip | include/windows/hiredis/hiredis.c:395-671 | A reader fed a printed pipeline in any chunks hands out exactly the argument lists in order and ends in its initial state, every byte consumed. |
| RoundTrip.RepliesRoundTrip | include/windows/hiredis/hiredis.c:513-671 | A reader fed encoded replies in any chunks hands out exactly what they mean, in order, and ends in its initial state. |
| Arguments.ArgumentsEnumerated | include/windows/hiredis/async.c:644-656 | Repeated calls on a formatted command give exactly its arguments in order, whatever bytes they hold, and then nothing. |
| Arguments.KindOfCommand | include/windows/hiredis/async.c:675-705 | Which case a formatted command falls into depends only on its first argument, compared in full and without case, and on whether there are more arguments; the case is given for each name. |
| Arguments.BindMeans | include/windows/hiredis/async.c:685-695 | Binding a list of names maps each of them to the new callback and leaves every other key as it was. |
| Arguments.Register | include/windows/hiredis/async.c:685-695 | The registration loop binds the callback to exactly the arguments behind the command name. |
| Strings.Sds.constructor | include/windows/hiredis/sds.c:81-135 | A new string holds the given bytes and satisfies the header invariant: len <= alloc, both within the width of the type, NUL behind the content. The type is the one for the size, and type 8 for the empty string. |
| Strings.Sds.MakeRoomFor | include/windows/hiredis/sds.c:194-237 | Content and length stay, at least addlen bytes are free, the type is never narrowed, and no length or capacity is cut by its field. The capacity is doubled below 1 MB and grows by 1 MB from there on, and the type is the one for it. |
| Strings.Sds.RemoveFreeSpace | include/windows/hiredis/sds.c:245-269 | Content stays, no byte is free, and the narrower header still holds the length. |
| Strings.Sds.CatLen | include/windows/hiredis/sds.c:376-385 | Appends; and as long as lengths stay below the preallocation limit, the bytes moved over the whole life of the string never exceed its capacity, which is at most twice its length. |
| Strings.Sds.CpyLen | include/windows/hiredis/sds.c:405-414 | Replaces the content with any bytes, longer or shorter, and keeps the invariant. |
| Strings.Sds.Range | include/windows/hiredis/sds.c:719-745 | Keeps exactly the characters from start to end, negative indices counting from the end and not before the start, by moving them inside the buffer. |
| Strings.Sds.Clear | include/windows/hiredis/sds.c:183-186 | Empties the string and keeps the whole buffer as free space. |
| Dicts.MaskIsRemainder | include/windows/hiredis/dict.c:121 | For a size that is a power of two, masking a hash value with size - 1 is the remainder by size. |
| Dicts.NextPower | include/windows/hiredis/dict.c:309-318 | The smallest power of two that is at least 4 and at least the request; PORT_LONG_MAX for requests from there on. |
| Dicts.Dict.constructor | include/windows/hiredis/dict.c:76-88 | A new table is the empty map and has size 0. |
| Dicts.Dict.MoveAll | include/windows/hiredis/dict.c:108-129 | The rehash loop moves every entry to its new bucket although it stops early, so its final assert holds. |
| Dicts.Dict.Expand | include/windows/hiredis/dict.c:91-135 | Refuses a size below the number of entries and then changes nothing; otherwise the new table has the same entries and the same map. |
| Dicts.Dict.KeyIndex | include/windows/hiredis/dict.c:323-340 | Makes room exactly when the table is empty or full, and gives the bucket of a new key, or -1 exactly when the key is there. |
| Dicts.Dict.Add | include/windows/hiredis/dict.c:138-157 | Adds a new key to the map; an existing key is refused and the map stays. The size is 4 after the first call and doubles exactly when the table was full. |
| Dicts.Dict.Replace | include/windows/hiredis/dict.c:163-182 | The map gets the new value for the key, whether it was there or not, and says which; the entry looked up is never missing. |
| Dicts.Dict.Find | include/windows/hiredis/dict.c:246-259 | Finds the entry exactly when the key is in the map, with the map's value. |
| Dicts.Dict.Delete | include/windows/hiredis/dict.c:185-213 | Removes the key from the map and its entry from its bucket, and nothing else; reports whether it was there. |
| Dicts.Dict.Clear | include/windows/hiredis/dict.c:216-238 | Frees every entry exactly once although the scan stops early, and leaves an empty table. |
| DictIterators.Iterator.Next | include/windows/hiredis/dict.c:271-289 | Returns one of the entries still to come, and null only when there is none. |
| DictIterators.Iterator.DeleteReturned | include/windows/hiredis/dict.c:281-285 | Deleting an entry that has been returned does not change what is still to come. |
| DictIterators.Scan | include/windows/hiredis/async.c:321-324 | A whole iteration returns every entry of the table exactly once, whichever of the returned entries the caller deletes on the way. |
| Quote.CatRepr | include/windows/hiredis/sds.c:863-886 | Appends the quoted form of the bytes. |
| Quote.SplitArgs | include/windows/hiredis/sds.c:938-1046 | The scanner over the line gives the tokens of the recursive definition, or none when quotes are unbalanced or a closing quote is followed by something else. |
| QuoteLines.LineMeans | include/windows/hiredis/sds.c:938-1046 | A line of words splits into what the words stand for. A word is bare characters, then possibly a part in double quotes, with \xHH, the letter escapes and escaped characters, or one in single quotes; any blanks separate words. |
| QuoteLines.SplitLine | include/windows/hiredis/sds.c:938-1046 | The scanner returns these arguments for such a line. |
| QuoteLines.LineFails | include/windows/hiredis/sds.c:979-1001 | Double or single quotes that the line does not close, or a closing quote with something other than a blank behind it, refuse the whole line, after any words. |
| QuoteLines.SingleComesBack | include/windows/hiredis/sds.c:990-1004 | A string without NUL, put in single quotes with its apostrophes escaped, comes back if and only if it does not end with a backslash; otherwise the line is refused. |
| QuoteLines.QuotedForm | include/windows/hiredis/sds.c:863-886 | The quoted form of a string is one escape or character for each byte, given by a table of literals, and each stands for its byte. |
| Quote.SplitUndoesCatRepr | include/windows/hiredis/sds.c:930-931 | Splitting the quoted form of any byte string gives that one string. |
| Quote.SplitUndoesQuote | include/windows/hiredis/sds.c:863-1046 | Splitting quoted forms joined with spaces gives the list back, whatever bytes its strings hold. |
| SplitJoin.SplitLen | include/windows/hiredis/sds.c:800-847 | The scan gives the pieces between the occurrences of the separator found from the left, all writes to the doubling array in bounds; no array for an empty separator. |
| SplitJoin.JoinSds | include/windows/hiredis/sds.c:1085-1094 | Joins with the separator between any two strings. |
| SplitJoin.JoinConcat | include/windows/hiredis/sds.c:1085-1094 | Joining two lists in a row puts one separator between their joins. |
| SplitJoin.SplitExactly | include/windows/hiredis/sds.c:800-847 | The tokens of a string are the only list that joins to it and is cut where the separator first occurs; the empty string has no token. |
| SplitJoin.JoinUndoesSplit | include/windows/hiredis/sds.c:800-847 | Joining the pieces gives the string back, for every string and non-empty separator. |
| SplitJoin.TokensAreFree | include/windows/hiredis/sds.c:800-847 | No piece contains the separator. |
| Outputs.Output.AppendCommand | include/windows/hiredis/hiredis.c:1307-1318 | The command goes behind what is already waiting, and the buffer holds what its history leaves. |
| Outputs.Output.BufferWriteDone | include/windows/hiredis/hiredis.c:1246-1257 | Accepted bytes leave the front of the buffer, the rest stays in order, and done means that nothing is left. |
| Outputs.Output.BufferWrite | include/windows/hiredis/hiredis.c:1214-1241 | For every answer of the socket, exactly the accepted bytes leave the buffer; done is set exactly when nothing is left. |
| Outputs.OutputConserved | include/windows/hiredis/hiredis.c:1214-1257 | Over any history of appends and partial writes the accepted bytes are the first ones of all appended commands and the rest is exactly the others. |
| Outputs.Output.Conserved | include/windows/hiredis/hiredis.c:1214-1257 | In every reachable state of an output buffer, accepted bytes and buffer together are the concatenation of the appended commands. |
| Callbacks.CallbackList.Push | include/windows/hiredis/async.c:258-278 | The linked list represents the old queue with the callback at its end. |
| Callbacks.CallbackList.Shift | include/windows/hiredis/async.c:280-294 | The first callback leaves the queue; an empty queue is reported. |
| Async.AsyncContext.AsyncCommand | include/windows/hiredis/async.c:661-723 | A regular command is accepted exactly when the context is not closing; then its bytes and its callback are queued in the same order, and otherwise nothing changes. |
| Async.AsyncContext.RunCallback | include/windows/hiredis/async.c:296-303 | The actions of the callback take effect in order: commands are accepted up to the first disconnect or free and refused from then on. The context is not released under it, and the queue keeps the order of acceptance. |
| Async.AsyncContext.FreeContext | include/windows/hiredis/async.c:306-348 | The drain terminates although callbacks may act, and calls every waiting callback once, in order, with NULL. |
| Async.AsyncContext.AsyncFree | include/windows/hiredis/async.c:354-359 | Inside a callback the context is only marked; outside it is released at once, and at most once. |
| Async.AsyncContext.AsyncDisconnect | include/windows/hiredis/async.c:388-393 | Releases the context only outside callbacks and when nothing waits, so that the clean disconnect cannot fail from here. |
| Async.AsyncContext.DisconnectNow | include/windows/hiredis/async.c:362-380 | The assertion of a clean disconnect fails if and only if there is no error and a callback is waiting; otherwise the context is released. |
| Async.AsyncContext.NextReply | include/windows/hiredis/hiredis.c:1262-1298 | The reply read is the next one of the stream; no reply means that the reader has to wait. |
| Async.AsyncContext.Dispatch | include/windows/hiredis/async.c:465-513 | The reply goes to the first waiting callback, which acts; without one an error reply closes the connection, and any other fails the assertion that the context is subscribed. |
| Async.AsyncContext.ProcessCallbacks | include/windows/hiredis/async.c:442-519 | Every reply that is ready goes to the callbacks in order and the loop terminates. Whether it ends with a live context, a released one or a failed assertion follows exactly from the state before; a failed assertion is the same as a stuck state afterwards, and a context asked to disconnect does not survive once its output is empty. |
| Async.AsyncContext.BufferRead | include/windows/hiredis/hiredis.c:1150-1176 | A chunk read goes to the reader exactly when there was no error before; end of file, failures and a reader in error set the error, "try again" changes nothing. |
| Async.AsyncContext.HandleConnect | include/windows/hiredis/async.c:524-541 | A refused attempt releases the context with every callback answered; one that goes on leaves an error and everything else as it was. |
| Async.AsyncContext.HandleRead | include/windows/hiredis/async.c:546-573 | After any read event the context is live with every reply delivered, or released with every callback answered, or an assertion has failed; which of the three is given exactly by the connection, the input and the state before the event. A live context keeps its connection and has grown by new objects only. |
| Async.AsyncContext.HandleWrite | include/windows/hiredis/async.c:575-600 | The context is released exactly when the connection is refused, there was an error before or the write failed; otherwise the accepted bytes leave the output. No assertion can fail. |
| Async.AsyncContext.Settlement | include/windows/hiredis/async.c:306-348 | Over the whole life of a released context: the k-th reply of the stream went to the callback of the k-th accepted command, the later ones got NULL, each accepted callback exactly once and in order, and the functions run are exactly those of the accepted callbacks that have one. |
| Async.DoAllMeans | include/windows/hiredis/async.c:661-664 | What a callback does to an open context: its commands are accepted, queued and put out in order up to the first disconnect or free, and nothing later. |
| Async.DoAllCloses | include/windows/hiredis/async.c:354-393 | A callback closes the context by a disconnect or a free in its script, each by its own flag, and by nothing else. |
| Async.FateIsSafe | include/windows/hiredis/async.c:442-513 | When nobody disconnects and there are no more replies than waiting callbacks, no assertion can fail, whatever commands and frees the callbacks make. |
| AsyncRuns.Handle | include/windows/hiredis/async.c:354-723 | One event at a live context: a command is queued with its callback and bytes unless the context is closing; a free releases, a disconnect releases or closes; end of file, a failed read or an earlier error release; an accepted write moves exactly its bytes from the output to those sent. |
| AsyncRuns.Run | include/windows/hiredis/async.c:546-600 | Any sequence of commands, disconnects, frees, reads and writes leaves a context that goes on with every reply delivered, or is released and settled, or has failed an assertion, exactly as an account on values says, event by event. It ends early only when the context has ended, it has taken in exactly the bytes read, and it has accepted exactly the commands that came before it was closed. |
| AsyncRuns.Life | include/windows/hiredis/async.c:306-348 | From creation on: the k-th reply of the stream went to the callback of the k-th accepted command; the others wait, or got NULL when the context was released, where exactly the functions of the accepted callbacks were run. The accepted commands are those issued before the context was closed and those of the callbacks run, each in order; the bytes sent and those in the output are exactly these commands. Without a disconnect every command issued is accepted, and an assertion fails only for a reply that no command asked for. |
| AsyncRuns.FreeEnds | include/windows/hiredis/async.c:354-359 | A free ends every context for good, whatever events come before and after it. |
| AsyncRuns.NothingCameIn | include/windows/hiredis/async.c:448-463 | When no reply is complete, a context goes on as it was unless it is to disconnect and its output is empty; then it is released, or an assertion fails when callbacks wait. |
| AsyncRuns.CleanDisconnectAborts | include/windows/hiredis/async.c:442-456 | After a command has been written and the user has asked to disconnect, a read event that brings no reply fails the assertion of the clean disconnect. |
| Conversations.FateLives | include/windows/hiredis/async.c:442-519 | Callbacks that only issue commands and no more replies than waiting callbacks: the context stays open, and each reply uses up one callback. |
| Conversations.StaysAlive | include/windows/hiredis/async.c:524-600 | As long as nobody closes the context, the socket works, and no reply comes before its command, the context lives, for any interleaving of commands, reads and writes. |
| Conversations.Converse | include/windows/hiredis/async.c:442-723 | A whole conversation: the k-th answer of the server, written byte by byte, is what the callback of the k-th command gets, every command issued has been accepted, and the later callbacks wait. |

## Left out

- Readers.Reader.Feed: buffers of 2^31 bytes and more, where `(int)` casts in the reader and in `sdsrange` lose bits.
- Resp.ParseArray: what the C code does after a header that leaves no room, which is undefined in C.
- Numbers.IntLen: the negation of the smallest `int`, which is undefined in C.
- Format.FormatCommandArgv: commands of 2^31 bytes and more, whose size does not fit `totlen`.
- FormatString.FormatCommand: what printf prints for a number is given with the value; formats that end inside a short conversion, which the C code reads past their end.
- FormatWords.FormatMeans: a conversion of 14 or more characters with a space behind its second character, where the word ends; `FormatString.AssembleIsFill` holds for it too.
- Quote.CatRepr: the string appended to is a value here; its growth in place is that of `Strings.Sds.CatLen`. `isprint` and `isspace` are those of the C locale. The same holds for the tokens of Quote.SplitArgs, SplitJoin.SplitLen and SplitJoin.JoinSds.
- Strings.Sds.MakeRoomFor: sizes of 2^62 bytes and more, where the doubling could overflow `size_t`.
- Strings.Sds.Range: strings of 2^31 bytes and more.
- Dicts.Dict.Add: tables beyond 2^30 buckets, whose indices do not fit the `int` that `_dictKeyIndex` returns; keys are compared with ==, which the hash function respects; destructors and duplication of keys and values.
- Arguments.ArgumentsEnumerated: the overflow of `strtol` for lengths that do not fit.
- Arguments.Register: dictionaries that would grow beyond 2^30 buckets.
- Async.AsyncContext.AsyncCommand: regular commands only. Subscriptions and MONITOR are modelled as far as their registration (`Arguments.Register`, `Arguments.KindOfCommand`).
- Async.AsyncContext.Dispatch: the branches of a subscribed or monitoring context.
- Async.AsyncContext.ProcessCallbacks: delivery of pub/sub messages and of MONITOR lines, where the callback of the previous reply can be used again.
- Async.AsyncContext.FreeContext: the queue of invalid commands and the callbacks of channels and patterns, which are empty without subscriptions; `DictIterators.Scan` is the loop over them.
- Async.AsyncContext.HandleRead: the rescheduling of events, `onConnect` and `onDisconnect`.
- Async.AsyncContext.HandleWrite: the output buffer is a byte string in the context; its dynamic string is in `Outputs.Output`.
- Allocation failure, the release of memory (`freeReplyObject`, `redisReaderFree`, `dictRelease`) and custom reply object functions.
- Error texts; the model keeps which error it is.
- The blocking context, `redisvAppendCommand`, `redisCommand` and the socket code of `net.c` and the Win32 layer.
- The remaining string functions (`sdstrim`, `sdsgrowzero`, `sdsIncrLen`, `sdscatfmt`, `sdsmapchars`, `sdsull2str` and others): easier relatives of those proved.
- The book's own chapters and the other bundled libraries, which are mostly headers or thin wrappers.
