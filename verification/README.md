# Models of Duda's protocol engines and packages, with proofs

A Dafny model of the algorithmic parts of Duda I/O, with proofs. Each source file becomes
one or a few modules; a method that works in place in C works in place here, and is proved
against a specification function whose properties are proved beside it.

- **Redis reader** (`Resp`, `RespWire`, `RespMachine`, `RespReader`). `Resp` is a recursive
  grammar of replies, and `RespWire` what a server writes, byte for byte, which the grammar
  undoes. `RespMachine` is a stack machine on values that can stop at any byte.
  `RespReader` is the reader object with its buffer, position, four-slot task stack and
  reply objects linked by parent. The object refines the machine and the machine refines
  the grammar, so replies and errors do not depend on how the stream is cut.
- **Redis commands** (`Command`, `CommandWire`, `CommandFormat`, `Pipeline`). The two-pass
  formatter, a strict reader of the request protocol that accepts exactly its commands, the
  output buffer under partial writes, and the round trip through the reply reader.
- **Redis callbacks** (`CallbackList`, `AsyncActions`, `AsyncHistory`, `AsyncContext`). The
  linked queue, the flags and the disconnect and free paths; a history of accepted commands
  and deliveries is kept consistent over every run of events and callback actions, and what
  is accepted, sent and delivered is tied to what the program and its callbacks did. Two
  assertions of the source can fail; the model records the abort, states exactly when one
  step of the source runs into it, and has a run that does for each.
- **Hash table** (`Dict`). Chains of entry objects relinked in place on resizing, refining
  a map; the iterator survives deletion of the entry just returned.
- **Strings** (`Sds`, `SdsBuffer`, `SdsText`). The growing buffer in place, splitting,
  quoting and the splitting of quoted lines.
- **JSON** (`JsonText`, `JsonSyntax`, `JsonRoundTrip`, `JsonItem`, `JsonPrinter`,
  `JsonParser`, `JsonEndToEnd`). Printer and parser on values; the syntax of RFC 8259 with
  the meaning of every text, which the parser agrees with and the printer keeps to; and the
  printer with its sized buffers and the parser with its linked items.
- **Hashes** (`HashCommon`, `Sha256Words`, `Sha256Spec`, `Sha256`, `Sha1Spec`, `Sha1`).
  Streaming contexts against the fold over the padded message of FIPS 180-4. The unrolled
  rounds are loops over the round number with the registers named by it, and SHA-256
  fills its schedule before the rounds. `Sha256Constants`, `HashExample`, `Sha256Example`
  and `Sha1Example` show where the constants come from and that the definitions give the
  published digests of "abc".
- **Base64** (`Base64`), **router** (`Router`), **number parsing** (`Strtol`), and
  **cooperative threads** (`Dthread`, `DthreadChannel`). Scheduler and channel are
  transition systems over their operations, refined by the array of thread objects that is
  reallocated as it doubles and by the channel on its linked ring. A send or a receive that
  hands control over is two events, with anything between them.

`Bytes`, `Bits` and `Decimal` hold bytes, constants, bitwise operators and decimal numerals.

Where code and documentation differ the model follows the code:

- The comment above `sdssplitargs` says that it undoes `sdscatrepr`. It does not for bytes
  printed as `\xHH`; `SdsText.QuoteRoundTrip` states exactly when it does.
- A clean disconnect is documented to wait for all replies. `redisProcessCallbacks` does not
  look at the queue before it disconnects, and the assertion behind it can fail;
  `AsyncContext.Context.ProcessCallbacks` states exactly when.
- Base64 documents a length that leaves out the terminator. The terminator is written over
  the line feed, which the length counts.

## Model

| member | source | states |
|---|---|---|
| RespMachine.StepStable | packages/redis/hiredis.c:507-554 | A step the reader can take on the bytes it has is the same step, with the same result, whatever bytes arrive later. |
| RespMachine.RunSplit | packages/redis/hiredis.c:584-664 | Running on a prefix and going on from the stopped state with the rest is running on the whole, errors included. |
| RespMachine.ChunkingIndependence | packages/redis/hiredis.c:584-664 | For every stream and every way of cutting it, the replies, the error and the state left behind are those of one feed of the whole stream. |
| RespMachine.RunElements | packages/redis/hiredis.c:330-353 | From any state with an open array the stack machine fills the remaining slots, in order and once each, with exactly the elements the recursive grammar reads. |
| RespMachine.MachineRefinesGrammar | packages/redis/hiredis.c:330-554 | On every byte stream the four-slot stack machine emits the replies of the recursive grammar and stops with its error. |
| Resp.FirstCrlfAppend | packages/redis/hiredis.c:260-286 | A line end that is in the buffer stays the first one when bytes are appended. |
| RespReader.SeekNewline | packages/redis/hiredis.c:260-286 | The search that jumps from CR to CR finds the first CR LF pair or says there is none, reading no further than the terminating zero byte. |
| RespReader.ReadLongLong | packages/redis/hiredis.c:288-313 | The number on a line, with two's complement wrap-around, or -1 when the line holds anything but digits after a sign. |
| RespReader.Reader.constructor | packages/redis/hiredis.c:556-574 | A new reader waits for a reply with nothing buffered. |
| RespReader.Reader.SetError | packages/redis/hiredis.c:186-210 | An error drops the buffer and every unfinished reply; the reader stays in the error. |
| RespReader.Reader.MoveToNextTask | packages/redis/hiredis.c:330-353 | After a complete item the reader climbs to the first array that has room; both assertions of the source hold; when it leaves the stack the root object stands for the whole reply, every slot filled. |
| RespReader.Reader.ProcessLineItem | packages/redis/hiredis.c:355-387 | Integers, statuses and errors: the object reader takes the machine's step, or waits and changes nothing. |
| RespReader.Reader.ProcessBulkItem | packages/redis/hiredis.c:389-440 | Bulk strings, with the negative length that means nil: the machine's step, or nothing when bytes are missing. |
| RespReader.Reader.ProcessMultiBulkItem | packages/redis/hiredis.c:442-505 | Arrays: a new frame, a complete empty or nil array, or the error for nesting too deep; the stack index stays within its four slots. |
| RespReader.Reader.ProcessItem | packages/redis/hiredis.c:507-554 | One item, type byte included, moves the object reader as the machine moves, or leaves it waiting or in error. |
| RespReader.Reader.Feed | packages/redis/hiredis.c:584-614 | Fed bytes are appended to what is unread, also when a large empty buffer is replaced; nothing is fed after an error. |
| RespReader.Reader.Compact | packages/redis/hiredis.c:649-655 | Dropping the consumed first 1024 bytes or more leaves the unread bytes as they are. |
| RespReader.Reader.GetReply | packages/redis/hiredis.c:616-664 | Each call returns the next reply of the machine's run as a complete object tree, or none when the run waits, or its error. |
| RespReader.Reader.Drain | packages/redis/hiredis.c:616-664 | Calls until no reply is left return the replies of the run in order and leave its state. |
| RespReader.Reader.FeedAndDrain | packages/redis/hiredis.c:584-664 | For every stream cut in any way, draining after each feed yields object trees for exactly the replies of the grammar on the whole stream, and its error. |
| RespReader.ReadWritten | packages/redis/hiredis.c:584-664 | What a server writes for any list of replies, cut in any way, is read without error as object trees for exactly those replies. |
| RespWire.DecodeEncoded | packages/redis/hiredis.c:288-554 | Every reply, written byte for byte as a server writes it, is read back wherever it stands and whatever follows; the answer is the nesting error exactly when more than three arrays are inside each other. |
| RespWire.NilRead | packages/redis/hiredis.c:389-440 | A bulk with any negative length is nil. |
| RespWire.ArrayRead | packages/redis/hiredis.c:442-505 | An array with any `long long` count: too deep, nil for -1, empty for 0, a broken array below -1, and otherwise as many elements as the count cut to 32 bits says, or undefined when that is not positive. |
| RespWire.StreamDecoded | packages/redis/hiredis.c:616-664 | A stream of written replies is read as those replies, and reading goes on behind them. |
| RespWire.Incomplete | packages/redis/hiredis.c:616-664 | On every proper beginning of a written reply the reader waits; it neither errs nor replies. |
| RespWire.TypeByte | packages/redis/hiredis.c:507-554 | Any type byte but the five of the protocol is an error that names it. |
| Decimal.ReadNumberDec | packages/redis/hiredis.c:288-313 | Reading a printed numeral gives the number back, for all values of a `long long` that are not negative. |
| Decimal.ReadPrinted | packages/redis/hiredis.c:288-313 | Every printed integer, negative ones included, reads back as itself in 64-bit two's complement. |
| Decimal.ReadDigits | packages/redis/hiredis.c:288-313 | Any digits, leading zeros included, read as their positional value, with either sign in front, as far as 64 bits hold it. |
| Decimal.ReadGarbage | packages/redis/hiredis.c:288-313 | A line with anything but digits after the sign reads as -1. |
| Decimal.DecIs | packages/redis/hiredis.c:667-679 | A number is printed as a numeral without leading zeros whose value it is. |
| Decimal.DecOnly | packages/redis/hiredis.c:667-679 | There is only one such numeral. |
| Command.IntLen | packages/redis/hiredis.c:667-679 | The digit-counting loop returns the length of the printed number, sign included. |
| Command.BulkLen | packages/redis/hiredis.c:681-683 | The number is the length of the bulk bytes of every argument of that length, for lengths that fit an `int`. |
| Command.Build | packages/redis/hiredis.c:870-894 | The second pass fills the buffer of the computed size exactly: the bytes are the command, and the position ends at the total length. |
| Command.FormatCommandArgv | packages/redis/hiredis.c:938-970 | An argument vector, with lengths given or up to a zero byte, becomes its command bytes and a zero byte in a buffer of exactly that size. |
| CommandWire.CommandExact | packages/redis/hiredis.c:870-970 | A reader of the request protocol that looks at every byte, the line ends after each payload included, accepts a byte string as these arguments and this rest exactly when it is the command's bytes and the rest. |
| CommandWire.Ping | packages/redis/hiredis.c:870-970 | The command PING, byte for byte. |
| CommandFormat.CollectArgs | packages/redis/hiredis.c:685-748 | Walking the format yields the arguments of the reference definition, which splits the format first and substitutes afterwards; the sizes add up to the length of their bulks on the wire when that fits an `int`. |
| CommandFormat.FormatCommand | packages/redis/hiredis.c:685-894 | For formats of literals, `%s`, `%b` and `%%`, the bytes are those of the argument vector that splitting and then substituting gives. |
| CommandFormat.FormatExact | packages/redis/hiredis.c:697-748 | A format written out from phrases between any number of blanks, each made of characters, `%s`, `%b` and `%%`, yields one argument for each phrase: its characters and values in order. |
| CommandFormat.ValuesNeverSplit | packages/redis/hiredis.c:697-748 | The number of arguments depends on the format alone: a value with spaces never splits and an empty one is kept. |
| CommandFormat.SplittingCommutes | packages/redis/hiredis.c:697-748 | For values that are not empty and hold no space, splitting first and substituting afterwards gives the words of the substituted text. |
| CommandFormat.NextArgumentBulk | packages/redis/async.c:500-512 | Standing before a bulk argument, wherever it is in the command and whatever bytes it holds, the scan returns that argument and stops behind it. |
| CommandFormat.ArgumentsOfCommand | packages/redis/async.c:500-512 | Scanning a formatted command from its start recovers the argument vector. |
| Pipeline.Context.AppendCommand | packages/redis/hiredis.c:1182-1193 | What has been written and what is buffered grow, together, by the command. |
| Pipeline.Context.BufferWrite | packages/redis/hiredis.c:1106-1133 | A partial, refused or failed write loses, repeats and reorders no byte; the buffer is reported empty exactly when it is. |
| Pipeline.ParseCommand | packages/redis/hiredis.c:938-970 | The reader's grammar reads a formatted command back as an array of bulks holding the arguments, and stops right behind it. |
| Pipeline.ParseWire | packages/redis/hiredis.c:938-970 | A pipeline of commands parses as itself, without error. |
| Pipeline.RunOps | packages/redis/hiredis.c:1106-1193 | After any interleaving of appends and partial writes, the bytes the socket got followed by the buffered bytes are the concatenated commands. |
| Pipeline.WholeIsLargest | packages/redis/hiredis.c:1106-1133 | The commands complete in a byte sequence: the sequence begins with the first m commands exactly when m is not larger than their number. |
| Pipeline.PrefixOfWire | packages/redis/hiredis.c:1106-1133 | Any prefix of the pipeline yields exactly the commands that are complete in it, and no error. |
| Pipeline.ReadBack | packages/redis/hiredis.c:584-1193 | The bytes written so far, cut in any way, are read back as the first commands, as many as are complete in them: the largest number whose bytes have been written. |
| Pipeline.EndToEnd | packages/redis/hiredis.c:584-1193 | From a new context: any appends and partial writes, then any cutting of what was written, then the reader. The objects stand for the first commands appended, as many as are complete in what was written, without error. |
| CallbackList.List.Push | packages/redis/async.c:180-197 | The linked queue gains the callback at its end. |
| CallbackList.List.Shift | packages/redis/async.c:199-213 | The linked queue gives up its first callback, or says it is empty. |
| AsyncHistory.AcceptKeeps | packages/redis/async.c:559-570 | An accepted command keeps the history consistent: deliveries followed by the queue are the accepted commands in order. |
| AsyncHistory.TakeAndCallKeeps | packages/redis/async.c:381-403 | Delivering the next reply to the first queued callback keeps the k-th reply with the k-th accepted command. |
| AsyncHistory.StreamGrows | packages/redis/async.c:450-469 | More bytes never change the replies that were already complete. |
| AsyncHistory.EachCallbackOnce | packages/redis/async.c:225-249 | From a consistent history with an empty queue: every accepted callback that is a function was called once, in order, with its own reply or none. |
| AsyncActions.ClassifyIs | packages/redis/async.c:537-556 | A command subscribes or unsubscribes exactly when its name is (p)subscribe with an argument, or (p)unsubscribe, in any case. |
| AsyncActions.AllTaken | packages/redis/async.c:526-570 | As long as nothing closes the context, every regular command is taken, in order. |
| AsyncActions.TakenClosed | packages/redis/async.c:527 | Nothing that comes after a disconnect or a free is taken. |
| AsyncContext.Context.AsyncCommand | packages/redis/async.c:517-575 | A command is accepted, queued and appended exactly when the context is neither disconnecting nor being freed; never during teardown. |
| AsyncContext.Context.RunCallback | packages/redis/async.c:215-222 | A callback does what the next entry of the script says: each command it issues before closing the context is accepted, and the closing flags say whether it disconnected or freed; the flag is cleared afterwards, and the context is not freed inside it. |
| AsyncContext.Context.IssueAll | packages/redis/async.c:252-267 | Commands issued outside a reply callback are all on record, and accepted exactly as long as the context is not closing. |
| AsyncContext.Context.RunPending | packages/redis/async.c:225-249 | Teardown calls every queued callback with no reply and accepts nothing. |
| AsyncContext.Context.FreeNow | packages/redis/async.c:225-267 | The context is gone once, the queue is empty, and the disconnect callback gets the status it is due. |
| AsyncContext.Context.AsyncFree | packages/redis/async.c:273-278 | Inside a callback freeing is only noted; outside it happens at once. |
| AsyncContext.Context.DisconnectNow | packages/redis/async.c:281-299 | The assertion on an empty queue fails exactly when there is no error and a command is unanswered; otherwise the context is freed. |
| AsyncContext.Context.AsyncDisconnect | packages/redis/async.c:307-312 | Disconnecting waits for queued commands, except that an empty queue ends the context at once. |
| AsyncContext.Context.Dispatch | packages/redis/async.c:379-415 | One decoded reply goes to the first callback of the queue, and a free asked for by the callback happens after it; the program stops exactly when nothing is queued and the reply is not an error. |
| AsyncContext.Context.ProcessCallbacks | packages/redis/async.c:361-423 | All decoded replies are handed out. With none decoded, the program stops exactly when a disconnect is due, everything is written, there is no error and a command is unanswered; with one decoded and nothing queued, exactly when it is not an error reply. |
| AsyncContext.Context.HandleConnect | packages/redis/async.c:428-445 | The first event marks the connection established, or leaves an error while it is still being made, or ends the context; the connect callback's commands are on record when it ran; it never aborts. |
| AsyncContext.Context.BufferRead | packages/redis/hiredis.c:1069-1095 | Bytes read extend the received stream; the read succeeds exactly without an earlier error, when it would block or brings bytes. |
| AsyncContext.Context.HandleRead | packages/redis/async.c:450-469 | A readable socket: what the reply callbacks did is the script entries of the replies handed out; a context that stays has received the bytes and handed out every reply; a failed or empty read ends it; as many replies as callbacks and nothing that closes leave it there; the abort conditions are exact. |
| AsyncContext.Context.HandleWrite | packages/redis/async.c:471-496 | A writable socket hands over exactly as many bytes as were written of those accepted and not yet written, and touches no queue or history; the context ends exactly on an error or a failed write; it never aborts. |
| AsyncContext.Context.HandleAction | packages/redis/async.c:273-312 | What the program does: a regular command is queued and appended unless the context is disconnecting; a disconnect ends an idle context and otherwise only marks it; a free ends it. |
| AsyncContext.Context.RunEvents | packages/redis/async.c:180-575 | Over every run of events, with callbacks that issue commands, disconnect or free and connect and disconnect callbacks that issue commands, on a context that never subscribes: the accepted commands, and the bytes written or buffered, are those taken from what the program, the connect callback and the reply callbacks did, in that order; deliveries then queue are the accepted commands; the bytes received are those the events brought, and as long as the context is there every complete reply has been handed out; once it is gone each accepted callback has run exactly once. |
| AsyncContext.PlainRun | packages/redis/async.c:517-575 | From a new context whose callbacks do nothing: the commands accepted are those the program issued before it closed the context, in order. |
| AsyncContext.IssueThenFree | packages/redis/async.c:225-278 | From a new context: one command and then a free. The command was accepted and its bytes buffered, and its callback is called once without a reply. |
| AsyncContext.CleanDisconnectCanAbort | packages/redis/async.c:281-289 | A reachable state in which the assertion on the empty queue fails: a clean disconnect with one command written and unanswered. |
| AsyncContext.UnaskedReplyAborts | packages/redis/async.c:379-403 | A run that ends in the assertion on the subscribed flag: a connected context that has issued nothing reads a status reply. |
| Dict.NextPower | packages/redis/dict.c:306-315 | The smallest power of two that is at least 4 and at least the size. |
| Dict.Dict.Find | packages/redis/dict.c:243-256 | The entry of the key, or null when the map has none. |
| Dict.Dict.LinkFront | packages/redis/dict.c:118-120 | An entry with a new key at the front of its chain keeps every entry in the bucket of its masked hash. |
| Dict.Dict.MoveAll | packages/redis/dict.c:105-126 | Relinking, which stops as soon as no entry is left, moves every entry to its bucket in the new table; the assertion of the source holds. |
| Dict.Dict.Expand | packages/redis/dict.c:88-132 | Resizing keeps the same entries; it fails, changing nothing, exactly when the table would be too small for them. |
| Dict.Dict.ExpandIfNeeded | packages/redis/dict.c:295-303 | Afterwards there is a table with room for one more entry, and the same entries. |
| Dict.Dict.KeyIndex | packages/redis/dict.c:320-337 | The bucket of a new key, or -1 exactly when the key is there. |
| Dict.Dict.Add | packages/redis/dict.c:135-154 | Adds exactly when the key is new; otherwise the map is unchanged. |
| Dict.Dict.Replace | packages/redis/dict.c:160-179 | The map gets the value, and the answer says whether the key was new. |
| Dict.Dict.Delete | packages/redis/dict.c:182-210 | The map loses the key, the answer says whether it was there, and all other chains and the order of this one stay. |
| Dict.RunOps | packages/redis/dict.c:88-337 | Every sequence of add, replace, delete and find leaves the table, and answers, as a map does, with the value a find returns; keys stay unique, `used` is the number of entries and at most the size, which is 0 or a power of two. |
| Dict.OwnStory | packages/redis/dict.c:135-256 | Over any run each key has its own story: an insert keeps a value that is there, an update sets it, a removal ends it, and what happens to other keys does not matter. |
| Dict.AnswersTell | packages/redis/dict.c:135-256 | Every answer of a run tells the story of its key up to then: whether it was new, whether it was there, or its value. |
| Bits.Mask | packages/redis/dict.c:118 | The masked hash is its remainder modulo the table size. |
| Dict.Iterator.Next | packages/redis/dict.c:268-286 | Returns the first entry not returned yet, in chain order, and null exactly at the end, however often it is asked again. |
| Dict.FlatIsAll | packages/redis/dict.c:268-286 | One pass over the chains meets every entry once, with distinct keys. |
| Dict.DeleteReturned | packages/redis/dict.c:182-210 | Deleting the entry just returned leaves what the iterator will still return. |
| Dict.VisitAll | packages/redis/dict.c:258-286 | Iterating ends and visits every entry present at the start exactly once, even when the caller deletes any of them just after they are returned. |
| SdsBuffer.Buffer.MakeRoomFor | packages/redis/sds.c:88-106 | Growing keeps the text and leaves at least the room asked for, doubled when the block had to grow. |
| SdsBuffer.Buffer.CatLen | packages/redis/sds.c:127-139 | In place or in a larger block, the text is extended, the zero byte follows it and the spare room is accounted for. |
| SdsBuffer.Buffer.Range | packages/redis/sds.c:219-248 | In place, exactly the bytes between the two positions remain, for positions that are negative, reversed or out of range too. |
| Sds.RangeIs | packages/redis/sds.c:219-248 | Positions inside the text select it with both ends; an end beyond it is cut off; nothing remains for a start beyond it or behind the end. |
| Sds.RangeNegative | packages/redis/sds.c:219-248 | A negative position counts from the end, and stops at the front. |
| Sds.CatIs | packages/redis/sds.c:88-139 | The text is extended, and a block that had to grow has twice the room of the text it then holds. |
| Sds.RoomIs | packages/redis/sds.c:88-106 | A block that has to grow becomes as large as twice the text it will hold. |
| SdsText.SplitLen | packages/redis/sds.c:290-355 | The leftmost split at the separator; the token vector always has a slot for the next token; no vector for an empty separator. |
| SdsText.SplitJoins | packages/redis/sds.c:302-343 | Joining the tokens with the separator restores the input, and no token contains the separator. |
| SdsText.SplitFirst | packages/redis/sds.c:302-343 | Each token ends at the first place where the separator matches. |
| SdsText.CatRepr | packages/redis/sds.c:379-405 | Appends the quoted form of the bytes. |
| SdsText.ReprIs | packages/redis/sds.c:379-405 | The escapes are the two-character ones for backslash, quote, newline, return, tab, bell and backspace; printable characters stand for themselves; all others are \x with two digits. |
| SdsText.ClassesAre | packages/redis/sds.c:379-482 | What survives quoting and what counts as a space, byte by byte. |
| SdsText.SplitLine | packages/redis/sds.c:419-502 | For every line: its arguments and their number; no vector for a line without arguments, which counts 0, and none for an error, which leaves the count -1. |
| SdsText.ReadToken | packages/redis/sds.c:428-482 | One token with its quotes and escapes resolved; failure exactly for a quote left open or closed before something else than a space. |
| SdsText.WordsSplit | packages/redis/sds.c:424-494 | Words without quotes and blanks, with any blanks before, between and behind them, are the arguments of the line. |
| SdsText.Unclosed | packages/redis/sds.c:457-459 | A quote that is not closed is an error. |
| SdsText.ClosedBefore | packages/redis/sds.c:453-456 | A quote that is closed before anything but a space or the end is an error, whatever was quoted. |
| SdsText.LineSplits | packages/redis/sds.c:379-502 | A line of quoted arguments, whatever bytes they hold, splits into one token for each. |
| SdsText.RereadExact | packages/redis/sds.c:379-502 | A quoted argument comes back unchanged exactly when all its bytes are printable or among newline, return, tab, bell and backspace. |
| SdsText.QuoteRoundTrip | packages/redis/sds.c:379-502 | Quoting and splitting are inverse exactly on lists of such arguments. |
| Sha256Words.LowPlus | packages/sha256/sha256.c:96-101 | Adding 64-bit words without a mask agrees with 32-bit addition in the low half. |
| Sha256Words.LowF0 | packages/sha256/sha256.c:87 | The rewritten majority of 64-bit words is, in the low half, the function of FIPS 180-4. |
| Sha256Words.LowF1 | packages/sha256/sha256.c:88 | The rewritten choice of 64-bit words is, in the low half, the function of FIPS 180-4. |
| Sha256Words.LowS0 | packages/sha256/sha256.c:78-81 | Rotations masked only on the right give the small sigma 0 of the low half. |
| Sha256Words.LowS1 | packages/sha256/sha256.c:78-82 | Rotations masked only on the right give the small sigma 1 of the low half. |
| Sha256Words.LowS2 | packages/sha256/sha256.c:78-84 | Rotations masked only on the right give the big sigma 0 of the low half. |
| Sha256Words.LowS3 | packages/sha256/sha256.c:78-85 | Rotations masked only on the right give the big sigma 1 of the low half. |
| Sha256.RoundView | packages/sha256/sha256.c:96-101 | One round with renamed registers and unmasked words is, in the low halves, the shifting round of FIPS 180-4 section 6.2.2. |
| Sha256.FillSchedule | packages/sha256/sha256.c:61-94 | The unmasked schedule words agree in their low halves with the schedule of the standard. |
| Sha256.Process | packages/sha256/sha256.c:56-185 | One block: the low halves of the state become the compression of the standard. |
| Sha256.Context.constructor | packages/sha256/sha256.c:41-54 | A new context holds the initial value and no bytes. |
| Sha256.CarryExact | packages/sha256/sha256.c:196-200 | A counter update never counts too much, and counts right exactly when the low word plus the length is below 2^33. |
| Sha256.Context.Update | packages/sha256/sha256.c:187-224 | State and buffer are the fold of the absorbed bytes for input of any length; the byte counter grows by the length exactly when its low word plus the length is below 2^33. |
| Sha256.Context.Finish | packages/sha256/sha256.c:234-261 | The digest is the one of the whole message padded as in section 5.1.1 with the length the counter says, right or wrong. |
| Sha256.Hash | packages/sha256/sha256.c:41-261 | However a message is split into updates of any size, the result is the fold over the message and its padding; the length in the padding is the length of the message exactly when no update needs a carry of more than one, and the result then is the one-shot digest. |
| Sha256Constants.RoundConstants | packages/sha256/sha256.c:112-175 | Each round constant is the first 32 bits of the fraction of the cube root of its prime, section 4.2.2 of FIPS 180-4. |
| Sha256Constants.InitialValue | packages/sha256/sha256.c:46-53 | Each word of the initial value is the first 32 bits of the fraction of the square root of its prime, section 5.3.3. |
| Sha256Example.AbcDigest | packages/sha256/sha256.c:41-261 | The digest of "abc", through all 64 rounds, is the published one. |
| HashCommon.SerializedAt | packages/sha256/sha256.c:253-260 | A digest holds its words in order, four bytes each. |
| Sha1.FastChIs | packages/sha1/sha1.c:117 | The rewritten choice function is the one of FIPS 180-4. |
| Sha1.FastMajIs | packages/sha1/sha1.c:120 | The majority written as a sum is the one of FIPS 180-4: the summands share no bit. |
| Sha1.RoundView | packages/sha1/sha1.c:112-115 | One round with renamed registers is the shifting round of FIPS 180-4 section 6.1.2. |
| Sha1.SourceIs | packages/sha1/sha1.c:103-110 | The word a round takes from the input or mixes from 16 words used in a circle is the word of the 80-word schedule. |
| Sha1.CircleNext | packages/sha1/sha1.c:103-115 | Storing a schedule word in the circle keeps the last 16 of them there. |
| Sha1.Block | packages/sha1/sha1.c:123-229 | One block: the state becomes the compression of the standard. |
| Sha1.Context.Update | packages/sha1/sha1.c:243-269 | State and buffer are the fold of the absorbed bytes, for every input and every fill of the buffer. |
| Sha1.LengthIs | packages/sha1/sha1.c:278-279 | The two length words are the bit length of the standard also after the 64-bit counter has wrapped. |
| Sha1.Context.Final | packages/sha1/sha1.c:271-288 | The digest is the one of the whole message padded as in section 5.1.1. |
| Sha1.Hash | packages/sha1/sha1.c:231-288 | However a message is split into updates, the result is its one-shot digest. |
| Sha1Example.RoundConstants | packages/sha1/sha1.c:117-121 | Each round constant is the integer part of 2^30 times the square root of 2, 3, 5 or 10. |
| Sha1Example.AbcDigest | packages/sha1/sha1.c:231-288 | The digest of "abc", through all 80 rounds, is the published one. |
| JsonPrinter.EscapedLength | packages/json/cJSON.c:209 | The first pass counts exactly the bytes the string takes when escaped. |
| JsonPrinter.PrintStringPtr | packages/json/cJSON.c:204-237 | The second pass writes the quoted, escaped string into the counted buffer and never past it; a missing string prints as nothing. |
| JsonPrinter.RenderElements | packages/json/cJSON.c:343-350 | The texts of all elements, and a length with room for them and their separators. |
| JsonPrinter.ComposeArray | packages/json/cJSON.c:365-376 | Every write of the second pass lies inside the reserved length, and the result is the array's text. |
| JsonPrinter.RenderMembers | packages/json/cJSON.c:432-440 | The texts of all names and values, and a length with room for them, their separators and the indentation. |
| JsonPrinter.ComposeObject | packages/json/cJSON.c:454-470 | Every write of the second pass lies inside the reserved length at any depth and in both formats, and the result is the object's text. |
| JsonPrinter.RenderArray | packages/json/cJSON.c:329-377 | An array item prints as the text of the tree it stands for. |
| JsonPrinter.RenderObject | packages/json/cJSON.c:416-471 | An object item prints as the text of the tree it stands for. |
| JsonPrinter.RenderValue | packages/json/cJSON.c:283-298 | Every item prints as the text of the tree it stands for. |
| JsonParser.SkipBlanks | packages/json/cJSON.c:250 | Steps over white space and nothing else. |
| JsonParser.ReadNumber | packages/json/cJSON.c:97-117 | Sign, leading zero, fraction and exponent give the value of the grammar, and parsing goes on right behind the number. |
| JsonParser.CountPass | packages/json/cJSON.c:149 | The counting pass counts one for each character or escape, and gets lost only at a backslash that ends the text. |
| JsonParser.StepBound | packages/json/cJSON.c:149-195 | What one character or escape writes is not more than what the counting pass counted for it, surrogate pairs included. |
| JsonParser.LostCount | packages/json/cJSON.c:149-195 | Where the counting pass runs over the end of the text, so does the grammar. |
| JsonParser.StoreUtf8 | packages/json/cJSON.c:181-189 | Stored backwards, the bytes are the UTF-8 form of the code point. |
| JsonParser.Transcode | packages/json/cJSON.c:154-196 | The second pass never writes past the counted length and yields the string without a zero byte. |
| JsonParser.ReadString | packages/json/cJSON.c:144-201 | The item gets the string of the grammar, or parsing fails or is undefined with it. |
| JsonParser.ReadElements | packages/json/cJSON.c:310-325 | The list of children is linked both ways, in order, and stands for the elements of the grammar. |
| JsonParser.ReadArray | packages/json/cJSON.c:301-326 | The item stands for the array of the grammar, or parsing fails with it. |
| JsonParser.ReadMember | packages/json/cJSON.c:391-396 | Name, colon and value go into one item. |
| JsonParser.ReadMembers | packages/json/cJSON.c:389-412 | The list of children is linked both ways, named, in order, and stands for the members of the grammar. |
| JsonParser.ReadObject | packages/json/cJSON.c:380-413 | The item stands for the object of the grammar, or parsing fails with it. |
| JsonParser.ReadValue | packages/json/cJSON.c:268-280 | Every text: the new item stands for the value of the grammar and parsing goes on behind it, or fails exactly with the grammar. |
| JsonParser.Parse | packages/json/cJSON.c:253-261 | A tree for the text exactly when the grammar reads a value at its start. |
| JsonSyntax.DocRead | packages/json/cJSON.c:250-413 | Every text of the grammar of RFC 8259, with white space wherever it may stand, is read as what it means, and reading stops right behind it. |
| JsonSyntax.NumRead | packages/json/cJSON.c:97-117 | A number with any fraction and exponent is read as its digits, taken as one integer, times and divided by the powers of ten they say. |
| JsonSyntax.PowNext | packages/json/cJSON.c:111 | The power of ten is 1 at 0 and grows tenfold at every step, for negative exponents too. |
| JsonSyntax.UnitRead | packages/json/cJSON.c:154-195 | A character, a one-letter escape, a \u escape and a surrogate pair each give the bytes they stand for. |
| JsonSyntax.Utf8Decodes | packages/json/cJSON.c:181-189 | The bytes of a code point decode to it by the table of RFC 3629, and are as few as can be. |
| JsonSyntax.Dropped | packages/json/cJSON.c:171-179 | An escape of zero and half a surrogate pair are left out of the string. |
| JsonSyntax.Lenient | packages/json/cJSON.c:102-104 | A zero before other digits is stepped over, two zeros are not, and a minus alone is zero. |
| JsonSyntax.NoValue | packages/json/cJSON.c:268-280 | A text that begins with no byte a value can begin with is refused. |
| JsonSyntax.NoComma | packages/json/cJSON.c:313-325 | An array with something else than a comma or its end behind an element is refused. |
| JsonSyntax.NoColon | packages/json/cJSON.c:393-394 | A name without a colon behind it is refused. |
| JsonItem.TruncIs | packages/json/cJSON.c:114 | The conversion to `int` goes towards zero by less than one. |
| JsonRoundTrip.StringBack | packages/json/cJSON.c:144-237 | Every string without a zero byte is read back from its quoted form. |
| JsonRoundTrip.NumberBack | packages/json/cJSON.c:97-140 | Every 32-bit integer is read back from its text. |
| JsonRoundTrip.Printed | packages/json/cJSON.c:204-471 | What is printed is a text of RFC 8259, byte for byte with the white space of either format, and it means the tree. |
| JsonRoundTrip.RoundTrip | packages/json/cJSON.c:250-471 | For every finite tree of null, booleans, 32-bit integers, strings, arrays and ordered objects, at any depth and in both formats, parsing the printed text in any context gives the tree and stops right behind it. |
| JsonRoundTrip.WholeText | packages/json/cJSON.c:253-265 | Parsing a printed tree gives the tree and consumes the whole text. |
| JsonRoundTrip.PairExact | packages/json/cJSON.c:144-195 | A string of one surrogate pair, written as two escapes, is read as its UTF-16 code point exactly when bit 6 of the high half is clear. |
| JsonRoundTrip.FirstBadPair | packages/json/cJSON.c:144-195 | The pair for U+20000 is read as U+10000. |
| JsonText.CombineIs | packages/json/cJSON.c:178 | The two halves joined with bitwise or are the sum of the code point as long as bit 6 of the high half is clear, and 65536 less otherwise. |
| JsonEndToEnd.Reprint | packages/json/cJSON.c:253-265 | A printed item tree parses into a new item tree with the same meaning. |
| JsonEndToEnd.ParseDoc | packages/json/cJSON.c:253-261 | Every text of RFC 8259 is parsed into a linked tree of items with its meaning. |
| Base64.AllocationSuffices | packages/base64/base64.c:65-67 | Text, line feed and zero byte always fit the allocation; they fill it exactly for lengths of 1 modulo 3 up to 49. |
| Base64.EncodeBuffer | packages/base64/base64.c:57-108 | For every input the buffer holds the encoding, then a zero byte that the length counts, then another; the store of the first of them is inside the buffer exactly when the input is not empty. |
| Base64.BuildTable | packages/base64/base64.c:136-139 | The table is the inverse of the alphabet, with padding as zero and a mark for all other bytes. |
| Base64.SymbolIs | packages/base64/base64.c:32-33 | The alphabet is A to Z, a to z, 0 to 9, + and /. |
| Base64.SkippedIs | packages/base64/base64.c:136-139 | The decoder passes over every byte but those and =. |
| Base64.QuadIs | packages/base64/base64.c:77-83 | Four symbols are the four 6-bit digits of three bytes taken as one 24-bit number. |
| Base64.LastIs | packages/base64/base64.c:86-99 | At the end missing bytes count as zero and a = stands for each symbol that holds nothing. |
| Base64.Examples | packages/base64/base64.c:57-108 | Two encodings as section 10 of RFC 4648 gives them. |
| Base64.JunkIgnored | packages/base64/base64.c:150-160 | A byte that does not count changes nothing in the result, wherever it stands. |
| Base64.DecodeBuffer | packages/base64/base64.c:130-180 | For every input: whole blocks of the bytes that count are decoded and padding is cut, or there is no result when they make no whole blocks. |
| Base64.RoundTrip | packages/base64/base64.c:57-180 | Decoding an encoded sequence gives it back, with the zero byte that replaced the line feed or without. |
| Router.SplitPattern | lib/objects/duda_router.c:75-121 | The list is the non-empty segments between slashes, in order. |
| Router.SegmentsExact | lib/objects/duda_router.c:75-121 | A path written from segments, with any number of slashes before, between and behind them, has exactly those segments. |
| Router.RouterUri.Add | lib/objects/duda_router.c:349-364 | A field is kept, unless 32 are there already. |
| Router.TakeIs | lib/objects/duda_router.c:349-364 | The table holds all segments up to 32, and otherwise the first 32. |
| Router.UriParse | lib/objects/duda_router.c:368-442 | The parser that steps back on each closing slash ends, and its table holds the first 32 non-empty segments after the first slash. |
| Router.TokenisersAgree | lib/objects/duda_router.c:75-442 | Both tokenisers see the same segments exactly on the empty string and on strings that start with a slash. |
| Strtol.StrToLong | lib/duda_utils.c:23-109 | Success exactly when the bytes after one optional sign are all digits and the value lies between LONG_MIN and LONG_MAX; the result is that value, or 0 on failure. |
| Strtol.SignedPrinted | lib/duda_utils.c:23-109 | A printed integer, also with a plus in front, is read as itself; the limits are those of 64 bits. |
| Strtol.Accumulate | lib/duda_utils.c:70-96 | The cutoff test rejects exactly the values over the limit, before the unsigned accumulator could wrap. |
| Dthread.Scheduler.Create | lib/objects/duda_dthread.c:132-175 | On an array of thread objects: a new thread takes the first slot that can be taken, or the first of a doubled and cleared block when the counter says the table is full; the rest of the table stands for what it stood for. |
| Dthread.CreateReplaces | lib/objects/duda_dthread.c:140-155 | A new thread takes the slot of a live one exactly when every slot is live and the counter is below the capacity. |
| Dthread.Scheduler.Resume | lib/objects/duda_dthread.c:229-274 | On the thread objects: control goes to a ready or suspended thread, a starter becomes its parent, and the thread that ran is suspended; any other thread stops the program. No other slot changes. |
| Dthread.Scheduler.Yield | lib/objects/duda_dthread.c:210-220 | On the thread objects: the running thread is suspended and the main context runs. |
| Dthread.Scheduler.Finish | lib/objects/duda_dthread.c:79-94 | On the thread objects: the running thread is dead, the counter drops and control goes back to its parent. |
| Dthread.ResumeIs | lib/objects/duda_dthread.c:229-274 | Resuming stops the program exactly for a slot that is not there and a thread that runs or is dead; an empty slot is passed over; otherwise control is with the thread. |
| Dthread.LeaveIs | lib/objects/duda_dthread.c:79-220 | Yielding and finishing stop the program exactly when no thread runs; control goes to the main context, or to the parent of the thread that finished. |
| Dthread.CreateIsFree | lib/objects/duda_dthread.c:140-155 | When the counter is the number of live slots, a new thread never takes the slot of a live one. |
| Dthread.CreateKeeps | lib/objects/duda_dthread.c:132-175 | Creating keeps the counter equal to the live slots, across doublings too. |
| Dthread.ResumeKeeps | lib/objects/duda_dthread.c:229-274 | Resuming keeps the state consistent: at most the running thread has status RUNNING, and parents are alive. |
| Dthread.FinishKeeps | lib/objects/duda_dthread.c:79-94 | Finishing keeps the state consistent exactly when no live thread was started by the one that finishes. |
| Dthread.FinishCounts | lib/objects/duda_dthread.c:79-94 | The counter stays the number of live slots exactly when the finishing thread was alive. |
| Dthread.RunKeeps | lib/objects/duda_dthread.c:79-274 | From a consistent state, every run in which no thread finishes before one it started ends in a consistent state. |
| Dthread.OrderlyRun | lib/objects/duda_dthread.c:51-274 | From a new scheduler, in every such run the counter is the number of live slots, any RUNNING thread is the running one, and the next thread created replaces no live one. |
| Dthread.LiveStays | lib/objects/duda_dthread.c:79-274 | A live thread stays live in its slot through every step but its own finish. |
| Dthread.EarlyFinishMiscounts | lib/objects/duda_dthread.c:79-274 | From a new scheduler: a thread finishes before the one it started, and at the end the counter is -1 while no slot of the table is live. |
| Dthread.MiscountReplaces | lib/objects/duda_dthread.c:132-175 | From any state whose counter is below the number of live slots, as many new threads as there are free slots, and one more, replace a live thread. |
| Dthread.EarlyFinishReplaces | lib/objects/duda_dthread.c:79-274 | From a new scheduler: after the early finish, the thread created once all slots are full again replaces a live one. |
| Dthread.Scheduler.Play | lib/objects/duda_dthread.c:79-274 | The array of thread objects goes through the states of the transition system over whole runs, stops where that aborts, and ends consistent after orderly runs. |
| DthreadChannel.NothingLost | lib/objects/duda_dthread_channel.c:92-132 | Over every interleaving of the parts of sends and receives, what was stored is what was taken followed by what is buffered, in order. |
| DthreadChannel.SendsAccounted | lib/objects/duda_dthread_channel.c:92-106 | Over every run each element sent to a channel with a receiver is stored once or still waits, and no other is. |
| DthreadChannel.SentReceived | lib/objects/duda_dthread_channel.c:92-132 | From a new channel: what fits and is sent is received in order; one receive more waits, or fails exactly if the sender has ended the channel. |
| DthreadChannel.BrokenStoresNothing | lib/objects/duda_dthread_channel.c:95-97 | Once the receiver is gone and no send is under way, nothing is stored by any run. |
| DthreadChannel.FitsExactly | lib/objects/duda_dthread_channel.c:98-104 | The buffer stays within its size throughout a run exactly when no send that had to wait goes on while the buffer is still full. |
| DthreadChannel.GrowsWithoutBound | lib/objects/duda_dthread_channel.c:98-104 | From a new channel: after one full send that goes on without a receive the test for a full buffer never fires again, and any number of sends is stored. |
| DthreadChannel.DoneExactly | lib/objects/duda_dthread_channel.c:118-131 | Throughout a run a channel that is done is empty, exactly when nothing is stored after it was done. |
| DthreadChannel.Ring.Add | lib/objects/duda_dthread_channel.c:102-103 | The list, linked both ways in a ring through its head, gains the element at its end. |
| DthreadChannel.Ring.TakeFirst | lib/objects/duda_dthread_channel.c:123-126 | The ring gives up its first element and stays linked both ways. |
| DthreadChannel.Channel.Send | lib/objects/duda_dthread_channel.c:92-106 | Up to its hand-over a send is broken, stored or waiting, exactly as receiver and buffer say, with the counter equal to the length of the list. |
| DthreadChannel.Channel.SendResumed | lib/objects/duda_dthread_channel.c:98-106 | A send that goes on stores its element without testing again. |
| DthreadChannel.Channel.Receive | lib/objects/duda_dthread_channel.c:115-132 | Up to its hand-over a receive stops the program on a channel that is done, waits on an empty one, or takes the first element; the channel is done when it was ended and is now empty. |
| DthreadChannel.Channel.ReceiveResumed | lib/objects/duda_dthread_channel.c:119-132 | A receive that goes on takes the first element, or a list head that is none when the list is still empty. |
| DthreadChannel.Channel.Play | lib/objects/duda_dthread_channel.c:92-132 | Over any interleaving, the channel object goes through the states of the transition system and stops where that does, and the elements handed to receivers are, in order, those taken. |

## Left out

- Publish/subscribe: contexts that subscribe or monitor are outside the asynchronous model.
- Connection set-up, sockets, time-outs and the event loop adapters; a read or a write is an event that brings its result.
- Allocation failure, freeing of memory, and the error texts; the position a JSON error is reported at.
- AsyncContext.Context.HandleConnect: the connect callback issues commands only; one that disconnects or frees leaves its caller with a context that is gone.
- AsyncContext.Context.RunEvents: the same holds for the disconnect callback.
- RespReader.SeekNewline: the source counts the remaining bytes in an `int`, so that with 2 GiB or more unread it finds no line end; the model counts without bound.
- The printf conversions of `redisvFormatCommand`, which depend on `va_list` and libc.
- Command.FormatCommandArgv: commands of more than INT_MAX bytes are excluded, because the source computes their size in an `int`.
- CommandFormat.FormatCommand: commands of more than INT_MAX bytes are excluded, and so are formats with other conversions or too few values.
- CommandFormat.NextArgumentBulk: `strtol` is modelled on digits only, which is all a formatted command has there.
- RespReader.Reader.ProcessMultiBulkItem: an element count that is positive as a `long` and not as an `int` ends in the outcome `Undefined`, because the source then uses a vector it has not allocated.
- RespReader.ReadLongLong: signed overflow is taken to wrap around.
- Dict.NextPower: the result LONG_MAX for sizes of LONG_MAX and more is not modelled.
- Clearing and releasing a hash table, and its hash function, which is a parameter.
- The string functions for trimming, comparing, case and printing numbers.
- JsonPrinter.RenderValue: numbers that do not fit an `int` are excluded, because their text is the work of libc; the computed length is an unbounded number, so texts of 2 GiB and more are outside.
- JsonParser.ReadNumber: `double` is modelled by `real`, which agrees with it on integers up to 2^53; converting a number outside `int` gives an arbitrary value.
- JsonParser.ReadString: a `\u` without four hexadecimal digits and a backslash before the end of the text end in the outcome `Undefined`.
- JsonSyntax.DocRead: surrogate pairs with bit 6 of the high half set are not among its texts, because the parser reads them as another code point (`JsonRoundTrip.PairExact`), and neither is an escape of zero, which it drops (`JsonSyntax.Dropped`).
- JSON items that are references, and the functions that edit trees.
- Base64.EncodeBuffer: inputs so long that `len * 4` or the line length overflows are not modelled.
- Command.BulkLen: for a length over INT_MAX, of which the source counts the digits of another number, nothing is said.
- Router.SplitPattern: character search and substring copy come from the Monkey library and are taken at their word.
- Route lookup, which works on a missing request, and everything else of the router.
- Dthread.Scheduler.Resume: machine contexts and stacks are not modelled; a return to the context of a finished thread is that thread finishing again.
- DthreadChannel.Channel.ReceiveResumed: what the source reads when it takes the list head for an element is not modelled; the outcome is `Undefined`.
- Channel ends in other threads: which thread runs between the parts of a call is any interleaving, not the scheduler's choice; the release of a channel and the removal of its receiver by the scheduler are the event that sets the receiver.
- WebSocket framing, the body buffer and response queue, the garbage collection map, sessions, console, configuration, logging and the wrappers of client libraries.
