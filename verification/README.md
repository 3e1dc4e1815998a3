# memuncached in Dafny

memuncached is a small in-memory object cache: a TCP server with a fixed-size hash table, and a C client
library. This project models its protocol and its state, and proves what the two sides owe each other.

A `char` stands for one byte; a statement covers all byte values unless it names those it is about, as the ones
on seven-bit texts do. `recv` is `Pipe.Recv`: it delivers any
positive number of the bytes sent so far, up to what was asked for, so a statement about a method that
receives holds for every way the bytes can be cut into chunks. Pointers into buffers are offsets. `atoi`,
`atol` and `atoll` are digit functions with the C types' ranges written out. The operations on `double`
(`atof`, `%lf`, conversion, addition, subtraction) are parameters, collected in `Tables.Doubles`; statements
that need exactness name what they need (`ExactOnIntegers`: integers up to 2^53).

| file | what it holds |
|---|---|
| `Text.dfy`, `Decimal.dfy`, `Pipe.dfy` | C strings, decimal text, one direction of a connection |
| `Strings.dfy` | the helpers of `utils.h` |
| `Response.dfy`, `Client.dfy` | the response format and `memuncached_recv` |
| `Tokenizer.dfy`, `Request.dfy` | the in-place tokenizer, the accumulation loop, payload reading |
| `Payload.dfy`, `Bounds.dfy` | which payloads survive sharing a chunk with their header, and when the server stays in the command's memory |
| `Fnv.dfy`, `Table.dfy`, `Vector.dfy` | the hash, the slot table, the client registry |
| `Command.dfy`, `Meaning.dfy`, `Answer.dfy` | what each command does, what a line's words mean, what is answered and in which bytes |
| `Server.dfy` | one turn of a connection |
| `Session.dfy`, `Run.dfy` | client calls against the server, end to end, and whole runs of them |

## Main results

1. **Responses.** `Clients.Client.Receive` recovers code, description, type, size and body of any response, for
   every chunking, consuming exactly its bytes; it fails exactly when the peer closed early. Over any number of
   responses (`Clients.Client.ReceiveAll`) the buffer keeps its size or ends as a doubling of it below twice the
   longest of them, and all that `realloc` carried over is the difference of the first and the last size.
2. **A stale pointer.** `line_start` is not rebased after `realloc` (libmemuncached.c:148-150). `Receive` proves
   that a `realloc` happens while it is still needed if and only if the response's two header lines are longer
   than the buffer at entry, whatever the chunking; `Sessions.FirstAnswerOutgrowsBuffer` proves that with a new
   client's ten bytes this is so for every answer. Where `realloc` extends the block in place, nothing is lost.
3. **Requests.** For every chunking, `Servers.ReceiveRequest` recovers the command, and of any payload at all
   exactly `Payloads.Recovered`: what the trim and the skipping of delimiters leave of the bytes that came with
   the header, the memory behind them, and the rest of the payload. With `j` such bytes that is the payload if
   and only if its part of the chunk does not start with a delimiter nor end with CR or LF
   (`Payloads.ArrivesIffIntact`), and it is the payload under every chunking if and only if it has no leading
   space and no CR or LF among its first nine bytes (`Payloads.ArrivesIffSafe`). `Servers.NewlineIsLost` is an
   example: SET of a single LF, arriving in chunks of ten and two bytes, stores a NUL.
   The payload's copy starts behind the delimiters that lead those `j` bytes. If there are fewer than `j`, it stays
   in the command's memory if and only if they are no more than the unused bytes; if all are delimiters, it depends
   on what the unused memory starts with (`Bounds.InsideIff`, and over every content and chunking
   `Bounds.InsideIffRoom` and `Bounds.CopyStaysIffRoom`). `Servers.SpacesLeave` is an input for which it does not:
   "SET keyke 2 4" and a payload of three spaces and a letter, in chunks of ten and nine bytes.
   The text that is escaped for the log ends in the command's memory, whatever its unused part holds, if and only if
   no payload byte came along, or the last that did is a newline, or one is a NUL (`Bounds.TextEndsIff`), so for no
   safe payload under every chunking, unless it is empty or starts with a NUL (`Bounds.TextEndsIffEarly`).
4. **End to end.** `Runs.PerformAll`: any sequence of set, add, get, del and statistics calls of a client, on any
   table and for every chunking of every message, answers as an ordinary map keyed by slot does on the texts that
   the server received, which are those sent where all payloads are safe.
   `Sessions.SetThenGetDecimal`: every 64-bit number set under any key is what `get` returns.
   `Sessions.SetThenGetString`: the same for every payload that always arrives.
5. **Store.** Any run of operations answers as a map keyed by slot (`Tables.RunSimulatesSlots`), and the slot of a
   seven-bit key is its FNV-1a hash modulo the table's size (`Fnv.SlotIsRemainder`). All runs over a
   set of keys answer as a map keyed by those keys if and only if no two of them share a slot
   (`Tables.SimulatesIffInjective`, for the server's hash `Tables.KeysSimulate`), which is never so for more keys
   than slots (`Tables.KeysCollide`); every table size has two keys of digits that collide
   (`Tables.DigitsCollide`).
6. **Commands.** A name means the same in any letter case (`Meanings.CaseDoesNotMatter`), and every line is either one
   of the nine commands with acceptable arguments or refused with the complaint about the first argument at fault
   (`Meanings.PutAccepted`, `CountAccepted`, `KeyNamesMean`, `LoneNamesMean`, `OtherNamesMean`). The status of every
   answer follows from the command and its key's slot (`Answers.AnswerCode`), and its bytes are those of the
   documented format (`Answers.HeaderWords`, `EmptyBytes`, `PlainBytes`, `ValueBytes`). 409 is the answer to an ADD on an occupied slot and to nothing else, and it changes nothing
   (`Commands.ConflictIffOccupied`); only a DEL, or a SET refused for its type, lets a second ADD on a slot succeed
   (`Commands.AddIsExclusive`); the key count is always the number of occupied slots; INC and DEC sum up in any
   order, and answer the value they leave (`Answers.CountAnswers`, `Answers.LastCountAnswers`).
7. **Escaping.** A C string can be told from its escaped form if and only if it is seven-bit and contains nothing
   that looks like the code of an escaped byte (`CStrings.UnescapeEscaped`); every other one shares its form with
   such a text (`CStrings.EscapeShared`).

Where the code and its own documentation differ, the model follows the code: an INITIAL with a fraction is kept
as a real only when its second byte is the dot (`Commands.FractionalInitial`), so that "-1.5" stores -1
(`Commands.SignedInitial`); a SET with an unknown type answers 400 and has removed the old value
(`Commands.RejectedSetErases`); keys that share a slot share a value (`Tables.DigitsCollide`); bytes from 128 on
are sign-extended before they enter the hash, so that a text with an odd number of them never has its FNV-1a hash
(`Fnv.OddBytesDiffer`), while one with two may (`Fnv.TwoBytesAgree`); and `str_escape` prints eight digits for them,
for which its buffer is too short exactly when the last byte is one, the text has fewer than six bytes, and it has
fewer than three or none that is printable (`CStrings.FitsIff`).

## Model

| member | source | states |
|---|---|---|
| Clients.Client.Receive | libmemuncached.c:3-173 | round trip of any response for every chunking, exact success condition, no byte left, buffer bound, bytes copied, and exactly when `line_start` goes stale |
| Clients.Client.ReceiveAll | libmemuncached.c:138-151 | over any number of responses the buffer stays or ends as a doubling below twice the longest, and all copying together is the difference of the sizes |
| Clients.Client.ReceiveLines | libmemuncached.c:20-158 | the receive loop on a response's landmarks: it completes when and only when all bytes came, and doubles only a full buffer |
| Clients.Client.Interpret | libmemuncached.c:40-136 | after any number of bytes either the payload is complete with nothing left, or `payload_read_size` counts exactly the bytes behind the body's offset |
| Clients.Client.GrowIfFull | libmemuncached.c:138-151 | the buffer doubles exactly when it is full, keeps what was read, and leaves room for the next `recv` |
| Clients.Client.ScanStatusLine | libmemuncached.c:40-67 | finds the first line when and only when it is there, reads its code and ends its fields in place, touching nothing else |
| Clients.Client.ScanLengthLine | libmemuncached.c:69-108 | the same for the length line with its optional type |
| Responses.MarkedStatus | libmemuncached.c:48-52 | ending the fields of the first line changes exactly two bytes |
| Responses.MarkedLength | libmemuncached.c:81-88 | ending the fields of the second line changes one byte, or two with a type, all before the body |
| Responses.SuffixUnmarked | libmemuncached.c:48-95 | no in-place edit of a header line reaches a byte behind that line |
| Responses.LayoutIsValid | connection.h:48-49 | in every formatted response the newlines, the space and the printed numbers are where the reader looks for them |
| Decimal.ReadPrintedInt | libmemuncached.c:53-91 | reading a printed number gives it back, whatever non-digit follows |
| Decimal.AtollPrinted | connection.c:459-461 | every 64-bit number survives `%ld` and `atoll`, the smallest included |
| Decimal.ReadIntSpelled | connection.c:344-459 | white space, a sign and digits read as the number the digits spell by place value, up to the first other byte |
| Decimal.AtollIsNearest | connection.c:346-459 | of all 64-bit numbers `atoll` yields the nearest |
| Decimal.AtoiIsCongruent | connection.c:424 | narrowed to `int`, the lowest 32 bits stay |
| Requests.Accumulate | connection.c:31-89 | the command holds exactly the bytes read, its memory is the least doubling of ten bytes that exceeds them, and at most nine bytes follow the first newline |
| Requests.AllocatedIsDoubling | connection.c:55-59 | that memory is ten bytes until ten are read, and then a doubling of them, more than what was read and at most twice that |
| Requests.Append | connection.c:55-82 | with a free length that may go below zero, the chunk lands right behind what was there and some free space stays |
| Requests.Trim | connection.c:89-93 | exactly the trailing CRs and LFs become NULs; the loop stays in the memory if and only if there is any other byte |
| Requests.ReadCommand | connection.c:37-93 | for every layout of the line and every chunking, the command in memory is the line followed by the trimmed rest of the header's last chunk, in memory of the stated size |
| Requests.ReadPayload | connection.c:424-456 | the payload is the surplus bytes and then the next bytes of the connection, two terminator bytes are consumed and replaced by NULs |
| Requests.SurplusRange | connection.c:37-51 | the number of payload bytes that can come with the header is any up to nine, and no more |
| Payloads.IntactChunk | connection.c:90-144 | an intact share of the chunk lies undamaged at the cursor, and inside the command's memory |
| Payloads.RecoveredDamaged | connection.c:90-144 | a share that starts with a delimiter or ends with CR or LF is stored as something else |
| Payloads.SafeIffIntact | connection.c:90-144 | a payload is safe if and only if its share is intact for every number of bytes that can come with the header |
| Payloads.ArrivesIffIntact | connection.c:90-144 | for one such number, a payload is recovered whatever unused memory holds if and only if its share is intact |
| Servers.LineInMemory | connection.c:135-147 | the tokenizer stays in the command's memory if and only if something other than a delimiter lies behind the line |
| Payloads.ArrivesIffSafe | connection.c:90-144 | a payload is recovered under every chunking and every content of the command's unused memory, at its real size, if and only if it has no leading space and no CR or LF in its first nine bytes |
| Servers.NewlineIsLost | connection.c:90-144 | a concrete SET, chunking and memory size for which a NUL is stored in place of the payload, and nothing else can be |
| Servers.ReceiveRequest | connection.c:37-302 | for every request, payload and chunking: the command, the stored text `Payloads.Recovered`, the consumed bytes, and from the payload's leading delimiters and the unused memory exactly when its copy leaves the command's memory |
| Bounds.InsideIff | connection.c:430-432 | the copy stays in the memory if and only if the leading delimiters fit the unused bytes, or, with nothing but delimiters, those the unused memory starts with leave room |
| Bounds.InsideIffRoom | connection.c:430-432 | it does so whatever the unused bytes hold if and only if the leading delimiters fit and are not all that came |
| Bounds.CopyStaysIffRoom | connection.c:31-432 | over every chunking, if and only if that holds for every number of bytes that can come with the header |
| Servers.SpacesLeave | connection.c:90-432 | a concrete SET, chunking and memory size for which the copy leaves the memory, whatever that holds |
| Bounds.TextEndsIff | connection.c:89-151 | the escaped command ends in its memory, whatever the unused part holds, if and only if no byte came behind the header, or the last is a newline, or one is a NUL |
| Bounds.TextEndsIffEarly | connection.c:31-151 | over every chunking, if and only if only newlines precede the first NUL among the payload's first nine bytes; a safe payload must be empty or start with NUL |
| Servers.SafeReceived | connection.c:37-302 | hence a safe payload is received as it was sent |
| Servers.ParseCommand | connection.c:149-319 | the command understood is the one that the line's tokens mean, whatever delimiters separate them, with the cursor behind the last argument wanted |
| Meanings.CaseDoesNotMatter | connection.c:162-311 | names that differ in letter case alone mean the same with any arguments |
| Meanings.KeyNamesMean | connection.c:225-268 | GET and DEL, in any case, take the first argument as key, refuse to do without, and ignore others |
| Meanings.LoneNamesMean | connection.c:196-313 | STT, VER and BYE, in any case, refuse any argument |
| Meanings.OtherNamesMean | connection.c:314-318 | every name that spells none of the nine is refused |
| Meanings.LowerCaseGet | connection.c:259-268 | the documented "get mykey" is a GET |
| Meanings.PutAccepted | connection.c:162-194 | SET and ADD are accepted if and only if all three arguments are there and TYPE and LENGTH are digits, perhaps with a plus; a refusal is the complaint about the first argument at fault |
| Meanings.CountAccepted | connection.c:236-258 | INC and DEC are accepted if and only if there is a key and OFFSET and INITIAL, where given, are real numbers, the first without a minus; a refusal is the complaint about the first argument at fault |
| Meanings.NumberIsReal | utils.h:53-82 | a real number is digits with at most one dot, counted, behind an optional sign, and does not start with the dot |
| Servers.Server.Serve | connection.c:31-110 | one turn consumes exactly one request, and table and answer are those of its command on the text received |
| Servers.Server.Perform | connection.c:325-476 | the imperative handlers do what `Commands.Execute` says |
| Servers.Server.PerformPut | connection.c:448-472 | the store half of SET and ADD: conflict check, removal, type dispatch |
| Servers.Server.PerformCount | connection.c:341-377 | INC and DEC with their fallback to the initial value |
| Tokenizer.NextArg | connection.c:135-147 | one argument is the run of non-delimiters at the cursor; only delimiters behind it are overwritten and the cursor lands behind them |
| Tokenizer.ArgsAreWords | connection.c:8-10 | repeated `GET_NEXT_ARG` yields exactly the line's maximal runs of non-delimiters, then NULL for ever |
| Tokenizer.TokensReadBack | connection.c:135-147 | tokens joined by any delimiter runs are read back in order |
| CStrings.Sstrstr | utils.h:84-97 | the first occurrence within the length, or NULL if and only if there is none |
| CStrings.CheckDecimalString | utils.h:31-51 | accepts exactly an optional sign and digits |
| CStrings.CheckRealString | utils.h:53-82 | accepts exactly an optional sign and digits with at most one dot |
| CStrings.DecimalIsWhole | utils.h:31-82 | every text accepted as a decimal number is a whole one, as INC and DEC need to be exact |
| CStrings.StrEscape | utils.h:10-29 | everything that is written stays in the buffer of `5n + 1` bytes if and only if the text fits, and then the buffer holds the escaped text |
| CStrings.FitsIff | utils.h:13-25 | a text fits if and only if it is empty, or its last byte is seven-bit, or it has six bytes, or three with a printable one among them |
| CStrings.Escape | utils.h:10-29 | escaped text is printable and at most four times as long |
| CStrings.EscapedByteIs | utils.h:16-25 | from space to tilde a byte is kept, other seven-bit bytes become two lower-case digits, all others the same code |
| CStrings.EscapeIdempotent | utils.h:16-25 | escaping twice is escaping once |
| CStrings.EscapeUnescaped | utils.h:16-25 | escaping restores any printable text that was unescaped, so every printable text is an escaped form |
| CStrings.UnescapeEscaped | utils.h:16-25 | replacing the codes restores a C string if and only if it is seven-bit and has no look-alike of a code |
| CStrings.EscapeInjective | utils.h:16-25 | hence no two such texts have the same escaped form |
| CStrings.EscapeShared | utils.h:16-25 | and every other text shares its form with one of them |
| Fnv.Fnv1a | fnv.c:3-13 | the loop computes the hash of the C string |
| Fnv.PublishedHashes | fnv.h:13-14 | the hashes of the empty text and of "a" are the published ones |
| Fnv.StepInverts | fnv.c:8-10 | one step is a bijection on 64-bit hashes, with this inverse |
| Fnv.SuffixCancels | fnv.c:8-10 | two texts collide with a common suffix if and only if they collide without it |
| Fnv.AgreesOnAscii | fnv.c:3-13 | on seven-bit keys the loop is FNV-1a of section 2 of draft-eastlake-fnv |
| Fnv.FindSlot | hash_table.c:29 | the slot is the result of `fnv1a` on the key modulo the number of slots |
| Fnv.SlotIsRemainder | hash_table.c:29 | for seven-bit keys it is the FNV-1a hash modulo the number of slots |
| Fnv.OneByteDiffers | fnv.c:9 | a text whose other bytes are seven-bit has its FNV-1a hash if and only if its remaining byte is seven-bit, wherever that stands |
| Fnv.OddBytesDiffer | fnv.c:9 | a text with an odd number of bytes from 128 on never has its FNV-1a hash |
| Fnv.TwoBytesAgree | fnv.c:9 | with two it may: 0xA5 and any other such byte |
| Tables.HashTable.Set | hash_table.c:27-57 | the key's slot holds the value, no other slot changes, the count grows only for an empty slot |
| Tables.HashTable.Get | hash_table.c:59-64 | what the key's slot holds |
| Tables.HashTable.Bump | hash_table.c:66-110 | adds to or subtracts from a number in place; an empty slot or a string gives NULL and changes nothing |
| Tables.HashTable.Del | hash_table.c:112-127 | empties the slot and counts down, or reports that there was nothing |
| Tables.SimulatesIffInjective | hash_table.c:27-127 | all runs over a set of keys answer as a map keyed by them if and only if no two of them share a slot |
| Tables.KeysSimulate | hash_table.c:27-127 | the same for the server's hash: if and only if the hashes of the keys, which are FNV-1a for seven-bit keys, differ modulo the table's size |
| Tables.KeysCollide | hash_table.c:29 | more keys than slots always collide |
| Tables.DigitsCollide | hash_table.c:29 | for every table two keys of digits share a slot and show it in a run |
| Tables.RunSimulatesSlots | hash_table.c:27-127 | every run on any keys answers as a map keyed by slot |
| Tables.CountersAdd | hash_table.c:78-84 | any sequence of INCs and DECs whose offsets are whole, in any spelling or missing, leaves start plus INCs minus DECs, within 2^53 |
| Tables.OrderDoesNotMatter | hash_table.c:66-110 | two orders of the same changes leave the same value |
| Commands.CountRunFollows | connection.c:341-377 | INC and DEC commands change their key's slot like the changes on its value, and no other slot |
| Commands.CountRunAdds | connection.c:341-377 | a run of INC and DEC commands on a number sums up |
| Commands.CountInserts | connection.c:346-374 | on an empty slot or a string, INC and DEC store and answer the number that INITIAL spells, signed, padded or beyond 64 bits, and 1 by default |
| Commands.FractionalInitial | connection.c:350-354 | every accepted initial value is stored as a real if and only if its second byte is the dot, and otherwise as the number before the dot |
| Commands.SignedInitial | connection.c:350-354 | "-1.5" and "+1.5" are accepted and stored as -1 and 1 |
| Commands.CountConserved | hash_table.c:31-35 | in every reachable state the counter is the number of occupied slots, and STT reports it |
| Commands.AddIsExclusive | connection.c:379-470 | between two successful ADDs on a slot lies a DEL of it or a SET on it refused for its type |
| Commands.PutThenGet | connection.c:385-472 | after SET or ADD, a GET of any key answers the new value if the keys share a slot, and the old answer otherwise |
| Answers.AnswerCode | connection.c:149-476 | the status of every answer: 409 for ADD on an occupied slot, 404 for GET or DEL on an empty one, 400 for what is not understood and for an unknown type that may be stored, 200 otherwise |
| Answers.AnswerDescription | connection.h:42-45 | each status has its description |
| Answers.KeylessAnswers | connection.c:325-339 | refusals, VER, BYE and STT leave the table alone and answer these texts |
| Answers.PutAnswers | connection.c:448-472 | what SET and ADD store and answer, by the first byte of the type |
| Answers.CountAnswers | connection.c:341-377 | INC and DEC answer 200 and what a GET answers afterwards |
| Answers.CountChanges | hash_table.c:66-110 | on a number or a real they store and answer the sum or the difference |
| Answers.LastCountAnswers | connection.c:341-377 | after any whole INCs and DECs the last answer is the start plus the INCs minus the DECs |
| Answers.HeaderWords | connection.h:48-49 | the words of a response's two header lines are code, description, size and type, with a space behind the code, and body, NUL and CR LF follow |
| Answers.EmptyBytes | connection.h:63-79 | the bytes of 404, of 409 and of an empty success |
| Answers.PlainBytes | connection.h:51-73 | the bytes of 400 and of a success with a text |
| Answers.ValueBytes | connection.c:392-413 | the bytes of a number, a real and a string |
| Answers.VersionBytes | connection.c:336-339 | the bytes of the documented example, the version |
| Commands.DecodeValue | connection.c:392-413 | a stored number or string comes out of its response unchanged |
| Commands.LabelsFound | libmemuncached.c:235-239 | both labels of the statistics text are found at their first occurrence, whatever the counts |
| Commands.StatisticsRead | libmemuncached.c:235-239 | `atoi` behind the labels yields the two counts |
| Sessions.Session.Put | libmemuncached.c:423-465 | a set or add call with any payload changes the table as the command does on the text received, and succeeds exactly on 200; an unknown type sends nothing |
| Sessions.PutBytes | libmemuncached.c:423-465 | what the client writes is the request of those tokens, single spaces between them, and the payload |
| Sessions.Session.Ask | libmemuncached.c:371-421 | get and del return the value in the key's slot, and success if and only if there is one |
| Sessions.Session.Stats | libmemuncached.c:226-242 | the two counts of the server arrive |
| Sessions.SetThenGetDecimal | libmemuncached.c:397-443 | for every 64-bit number, key, table and chunking, set then get returns the number |
| Sessions.SetThenGetString | libmemuncached.c:397-443 | the same for every string that arrives unchanged |
| Sessions.FirstAnswerOutgrowsBuffer | libmemuncached.c:187-188 | every answer's header is longer than a new client's buffer |
| Runs.PerformAll | libmemuncached.c:226-465 | any sequence of put, get, del and statistics calls with any payloads answers as a map keyed by slot does on the texts received, up to one whose copy leaves the memory; safe payloads are received as sent |
| Runs.Perform | libmemuncached.c:226-465 | each call answers as its step on the map, on the text received, and leaves the table that the new map describes |
| Vectors.Vector.Insert | vector.c:45-60 | appends, doubling the cells exactly when they are full |
| Vectors.Vector.Remove | vector.c:70-91 | returns the element and fills its place with the last one; where there is none, nothing changes, and where an uninitialised cell is not NULL, the last element is lost |
| Vectors.SwapRemoveEffect | vector.c:82-88 | a removal takes one element from the multiset and moves at most one other |
| Vectors.RunConserves | vector.c:45-99 | over any interleaving of locked sections, contents plus removed are initial plus inserted, as multisets |
| Vectors.RunFits | vector.c:45-60 | the contents always fit, and the size is the initial one doubled some number of times |
| Vectors.RemoveOwn | connection.c:117-124 | a finished thread removes the first entry with its id, or nothing if and only if there is none |
| Vectors.OthersStay | connection.c:117-124 | with distinct ids every other client stays registered |
| Vectors.CloseAll | server.c:113-126 | the sweep closes the registered clients in reverse order and empties the registry |
| Vectors.ReversedKeepsAll | server.c:117-124 | that is every client exactly once |

## Left out

- Clients.Client.Receive: requires that the peer sends a well-formed response or a prefix of one; on other bytes the C code reads and writes outside its lines.
- Clients.Client.Receive: does not model a `realloc` that moves the block while `line_start` is in use, beyond telling when it happens.
- Servers.ReceiveRequest: requires one outstanding request, a line that starts with its first token, and exactly four tokens for SET and ADD; where the payload's copy leaves the command's memory it promises nothing but that it does. The escape of the command for the log is not a step of it; `Bounds.TextEndsIff` says when that read stays inside.
- Sessions.Session.Put: promises nothing about the session where the server's copy leaves the command's memory, which no safe payload causes.
- Runs.PerformAll: stops at a call whose copy leaves the command's memory; bodies fit the client's `int` sizes.
- Tables.HashTable.Bump: slots hold values instead of pointers to cells, so aliasing of a returned cell is not captured.
- Tables.CountersAdd: is stated for whole offsets within 2^53; fractional INC and DEC depend on rounding.
- Commands.DecodeValue: excludes reals, whose six printed decimals do not read back exactly.
- Vectors.Vector.Remove: excludes an uninitialised cell that is not NULL while `count` is zero, where the C code wraps `count` around and writes outside its array.
- Vectors.Vector.At: promises nothing between `count` and the allocated size, where cells are uninitialised.
- CStrings.StrEscape: stops at the first write that would leave the buffer.
- Sockets, accept, bind, listen, signals, thread creation, lock timing and logging; a locked section is one step.
- Receive errors and, in the server's loops, a peer that disconnects in the middle of a payload.
- Concurrent access to the hash table, which has no lock.
- Allocation failure, and lengths beyond the C types' ranges.
- The client's INC and DEC calls with their default sentinels, and the version, connect and disconnect calls.
- The key pointer stored in an entry, which is never read.
