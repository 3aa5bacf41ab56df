# A verified model of a small Redis-compatible server

This project models the core of a Redis-compatible server written in Rust.
The repository holds several snapshots of the server, and the model keeps
them apart:

- **RESP codec.** The streaming RESP2 parser (`src/resp/parse.rs`). Its older copy (`redis/src/resp/mod.rs`) differs only in that it skips the UTF-8 check on simple strings. Both are the module `RespParse`, with a `Dialect` parameter for the one difference. The serialiser (`src/value.rs`) becomes `RespValue`.
- **Legacy parser.** The non-streaming, `&str`-based parser of `src/parser.rs` becomes `LegacyParse`.
- **Command decoding.** The argument cursor (`src/parser/values.rs`, `Cursor`) and the command decoder (`src/parser/mod.rs`, `Commands`).
- **Store.** The expiring key-value store (`src/database/mod.rs`, `Database`) and its value type (`src/database/value.rs`, `StoreValue`).
- **Connection handlers.** The newer per-connection handler (`src/server/handler.rs`, `Server`). The older one (`redis/src/parser.rs` and `redis/src/server/handler.rs`, `OlderServer`).

Parsers and serialisers are pure functions over byte strings (`seq<byte>`).
Object state that the source updates in place becomes classes:

- the cursor `Cursor.Values` with its index field;
- the store `Database.Database` with its entries map;
- the output stream and read buffer `Buffers.ByteBuffer`;
- the two handlers.

Each method is proved against a specification function: `Decode`, `Lookup`, `Step`/`Serve` and `Encode`.

The main results are the following.

**RESP codec**
- For every encodable value, the parser reads back what the serialiser writes and leaves what follows untouched. It holds for both dialects (`RespRoundTrip.RoundTrip`). A value is encodable when no text or payload holds a CR, error texts (and, in the newer dialect, simple strings) are UTF-8, and every length and count is below 512 MiB.
- The serialiser's output for other values does not parse back: `BulkString("a\rb")` is written as `$3\r\na\rb\r\n`, whose payload the parser cuts at the first CR.
- For every encodable value, every proper prefix of its encoding is `Incomplete`, never a parse error (`RespPrefix.TruncatedIsIncomplete`).
- A trailing byte is a parse error (`RespRoundTrip.TrailingBytes`).
- Lengths outside [-1, 512 MiB) are errors, and -1 means null.

**Legacy parser**
- It reads back the serialiser's form of every value it can represent (`LegacyFacts.RoundTrip`).
- Arrays cannot nest, and the declared count is ignored.

**Commands**
- The decoder's exact outcome is fixed for every request shape: keywords are case-insensitive, extra arguments are ignored, the `SET` modifiers follow the source's rules, and negative expirations wrap as `u64`.
- The cursor class refines `Decode`.

**Store**
- `Get` serves an entry strictly before its deadline.
- `Clean` removes exactly the entries overdue at its scan when the clock moves forward.
- A key written again between the two phases of `Clean` is judged by its new entry. It is removed only when the scan listed it and the new entry is itself overdue at the removal time. Every other key fares as in `Clean`.
- The store's own clean-up test is replayed as `Database.CleanTimeline`.

**Handlers**
- `Run` equals the pure session function `Serve` over any sequence of reads.
- A request split across reads is answered just like the whole request.
- An incomplete request writes nothing.
- An unknown command is answered and the connection waits, but its bytes stay in the never-cleared buffer. The next request therefore fails as trailing bytes and closes the connection (`ServerFacts.UnknownCommandStays`).
- The older loop answers one request per read with `+PONG`. Two requests in one read end the loop with a parse error.

Times are milliseconds, passed in by the caller instead of read from a
clock. Durations are milliseconds. A socket read is "append these bytes to
the buffer", and a socket write is "append to the output stream".

## Behaviour as written

Where the intended design and the code differ, the model follows the code:

- **Declared length ignored.** A bulk string's payload runs up to the first CR, whatever its declared length says (`RespExamples.DeclaredLengthIgnored`). So a payload holding a CR cannot round-trip, and `Encodable` excludes it.
- **Error kinds collapsed.** Out-of-range lengths and invalid UTF-8 reach the caller of `parse` as a generic parse error. The source wraps them with `map_res`, so the distinct error kinds are lost (`RespParse.ParseWith`).
- **Accepted request shapes.** The newer decoder accepts only arrays as requests. A bare simple string `PING` is `InvalidInput` (`CommandFacts.NonArrayRequest`).
- **Which errors keep the connection open.** Only `NotExists` keeps the newer connection open. Every other decoding error, such as a wrong type, a missing argument or a bad number, writes an error reply and closes it (`ServerFacts.AnswerClasses`).
- **Buffer never cleared.** The newer handler never clears its read buffer after a served request. `run` ends after the first served command, because it loops only while `handle` fails. The connection does not end there: `src/server/tcp.rs:46-54` calls `run` again after every `Ok`, and each call takes a new buffer from the pool. The model covers a single `run`.
- **Older replies never flushed.** The older `handle_command` writes `+PONG` into a `BufWriter` and never flushes it; the loop then waits in `read_buf`. The model's output stream is the writer's buffer, so "answered with `+PONG`" means the reply is buffered, not that it was sent. The newer handler flushes after every write.
- **Spinning at end of input.** When the client closes the connection mid-request, `read_buf` returns zero bytes, the unchanged buffer parses as `Incomplete` again, and both loops go round forever. In the model, `Serve` over empty reads stays waiting. The same holds after a request names an unknown command: the newer loop answers `command does not exist` and goes on, and each zero-byte read parses the same buffer again and writes the same reply again. `Serve` over empty reads models this too.
- **Extra arguments ignored.** `ECHO`, `GET`, `PING` and `COMMAND` ignore extra arguments. Arity is not checked.
- **Failed `SET` conversion.** A `SET` whose value the store cannot hold unwraps a failed conversion in `insert`. The model keeps this as the `Panicked` outcome.

## Model

| member | source | states |
|---|---|---|
| RespParse.CheckLength | src/resp/parse.rs:120-123 | a declared length or count is accepted exactly when it lies in [-1, 512 MiB) and is kept as it is; otherwise it is an out-of-range error naming its kind and value |
| RespParse.CheckUtf8 | src/resp/parse.rs:57-66 | text passes exactly when it is valid UTF-8, unchanged; otherwise a UTF-8 error |
| RespParse.ParseSimple | src/resp/parse.rs:42-53 | a simple line consumes its indicator, its payload and its line ending, so at least three bytes beyond the payload |
| RespParse.ParseSimpleString | src/resp/parse.rs:57-66 | a parsed simple-string frame is a simple string and consumes input |
| RespParse.ParseSimpleError | src/resp/parse.rs:70-75 | a parsed error frame is an error and consumes input |
| RespParse.ParseNumberLine | src/resp/parse.rs:101-106 | a number line consumes its indicator, at least one digit and its line ending |
| RespParse.ParseInteger | src/resp/parse.rs:101-106 | a parsed integer frame is an integer and consumes input |
| RespParse.ParseAny | src/resp/parse.rs:131-143 | every frame `parse_any` parses consumes input, so the recursion through arrays ends |
| RespParse.ParseElements | src/resp/parse.rs:154-163 | parsing `n` elements yields exactly `n` values and never grows the input |
| RespParse.ParseFrame | src/resp/parse.rs:170-183 | the newer `parse` fails only with the parse error or `Incomplete` |
| RespParse.ParseFrameOlder | redis/src/resp/mod.rs:158-171 | the older `parse` fails only with the parse error or `Incomplete` |
| RespParse.ParseWith | src/resp/parse.rs:170-183 | `parse` succeeds exactly when one frame is parsed with nothing left over; `Incomplete` exactly when the frame parser needs more input; every other failure is `Parse` |
| RespParse.ParseLength | src/resp/parse.rs:110-127 | a parsed length is within [-1, 512 MiB) and consumes input |
| RespParse.ParseBulkString | src/resp/parse.rs:82-97 | a parsed bulk frame is a null or a bulk string and consumes input |
| RespParse.ParseArray | src/resp/parse.rs:147-166 | a parsed array frame is a null array or an array and consumes input |
| RespFrames.ParseAnyDispatch | src/resp/parse.rs:131-143 | `parse_any` on empty input needs more; otherwise it behaves as the one frame parser whose indicator byte starts the input |
| RespFrames.WrongIndicator | src/resp/parse.rs:131-143 | each frame parser fails (rather than asking for more) on input that starts with another indicator |
| RespFrames.SimpleStringFrame | src/resp/parse.rs:57-66 | `+text CRLF` followed by anything parses to the simple string, leaving what follows |
| RespFrames.SimpleStringNotUtf8 | redis/src/resp/mod.rs:55-57 | a simple string that is not UTF-8 fails in the newer parser and is accepted as raw bytes by the older one |
| RespFrames.ErrorFrame | src/resp/parse.rs:70-75 | `-text CRLF` parses to the error when the text is UTF-8 and fails otherwise (in both parsers) |
| RespFrames.IntegerFrame | src/resp/parse.rs:101-106 | `:n CRLF` written in minimal decimal parses to the integer `n`, leaving what follows |
| RespFrames.LengthFrame | src/resp/parse.rs:110-127 | a length line parses to its value when in range and fails otherwise |
| RespFrames.OutOfRangeFrames | src/resp/parse.rs:120-123 | a bulk or array header with a length outside [-1, 512 MiB) fails whatever follows |
| RespFrames.NullFrames | src/resp/parse.rs:85-87 | `$-1` is the null bulk string and `*-1` the null array |
| RespFrames.EmptyBulkFrame | src/resp/parse.rs:89-91 | `$0 CRLF CRLF` is the empty (not null) bulk string |
| RespFrames.BulkFrame | src/resp/parse.rs:93-96 | a bulk header of positive length followed by a CR-free payload and CRLF parses to that payload |
| RespFrames.ArrayFrame | src/resp/parse.rs:147-166 | an array header of count `n` parses to an array exactly as the `n` following frames parse |
| RespRoundTrip.RoundTrip | src/resp/parse.rs:131-166 | every encodable value's encoding, followed by any bytes, parses back to the value and leaves those bytes (both dialects) |
| RespRoundTrip.ElementsRoundTrip | src/resp/parse.rs:154-163 | the concatenated encodings of encodable items parse back to exactly those items |
| RespRoundTrip.ParseEncode | src/resp/parse.rs:170-183 | `parse` of exactly one encoding returns the value |
| RespRoundTrip.TrailingBytes | src/resp/parse.rs:172-176 | any byte after a complete value makes `parse` a parse error |
| RespPrefix.PrefixNeedMore | src/resp/parse.rs:131-166 | every proper prefix of an encodable value's encoding makes the frame parser ask for more input |
| RespPrefix.TruncatedIsIncomplete | src/resp/parse.rs:177 | `parse` of a truncated encoding is `Incomplete`, never a parse error |
| RespPrefix.UnknownIndicator | src/resp/parse.rs:131-143 | a first byte other than `+ - : $ *` is a parse error |
| RespPrefix.LengthOutOfRange | src/resp/parse.rs:120-123 | `parse` of a bulk or array header out of range is a parse error |
| RespExamples.NullAndEmptyExamples | src/resp/parse.rs:205-231 | `$-1`, `*-1`, `*0` and `$0` parse to null, null array, empty array and empty bulk string |
| RespExamples.SimpleStringExample | src/resp/parse.rs:235-237 | `+OK` parses to the simple string OK |
| RespExamples.BulkStringExample | src/resp/parse.rs:239-241 | `$3 foo` parses to the bulk string foo |
| RespExamples.ErrorExample | src/resp/parse.rs:243-245 | `-ERROR` parses to the error ERROR |
| RespExamples.IntegerExamples | src/resp/parse.rs:247-253 | `:123` and `:-123` parse to 123 and -123 |
| RespExamples.SingletonArrayExample | src/resp/parse.rs:255-257 | `*1 :523` parses to a one-integer array |
| RespExamples.NotEnoughData | src/resp/parse.rs:276-280 | `:123` without its line ending is `Incomplete` |
| RespExamples.DeclaredLengthIgnored | src/resp/parse.rs:93-96 | a bulk string declaring 5 bytes but holding 2 parses to the 2 bytes |
| RespExamples.RawSimpleString | redis/src/resp/mod.rs:55-57 | the byte 0x80 as a simple string is a parse error in the newer parser and accepted by the older one |
| RespValue.TypeNameIdentifiesVariant | src/value.rs:56-66 | two values have the same type name exactly when they are the same variant |
| RespValue.TypeName | src/value.rs:56-66 | every variant has a non-empty type name |
| RespValue.WriteLine | src/value.rs:75-86 | writes the indicator, then the payload, then CR LF, after what was already written |
| RespValue.EncodeAllCons | src/value.rs:112-115 | `EncodeAll`, the body of an array's encoding, is the first item's encoding followed by the rest's |
| RespValue.EncodeAllSnoc | src/value.rs:112-115 | appending an item to an array appends its encoding to `EncodeAll` |
| RespValue.Serialize | src/value.rs:69-118 | `serialize` appends exactly the value's wire form to the output |
| RespValue.SerializeItems | src/value.rs:112-115 | serialising the items one after another appends their encodings in order |
| RespValue.EncodeStart | src/value.rs:69-118 | `Encode`, the wire form `serialize` writes: every encoding is at least three bytes and starts with the variant's indicator |
| RespValue.NullEncodings | src/value.rs:73-74 | the null forms are `$-1` and `*-1`, distinct from the empty bulk string `$0` and the empty array `*0` |
| RespValue.MixedArrayEncoding | src/value.rs:126-145 | the six-element test array serialises to the exact bytes of the test |
| Decimal.FormatParses | src/resp/parse.rs:101-106 | every `i64` written in minimal decimal parses back to itself, leaving what follows a non-digit |
| Decimal.FormatShape | src/value.rs:87-93 | `Format`, the decimal text `itoa` writes, is non-empty, starts with `-` exactly for negatives, and is otherwise the digits of the magnitude |
| Decimal.ParseI64 | src/resp/parse.rs:101-106 | a parsed number consumes input and stops before a non-digit or at the end; it asks for more only when streaming |
| Decimal.ParseInt | src/parser/values.rs:39-41 | text `str::parse` accepts is non-empty and is an optional sign followed by digits |
| Decimal.FormatPrefixNeedMore | src/resp/parse.rs:101-106 | a streaming number parse of a proper prefix of a formatted number asks for more input |
| Decimal.ParseIntFormat | src/parser/values.rs:39-41 | `str::parse` reads back every formatted `i64` |
| Decimal.ParseI64AllDigits | src/parser/values.rs:39-41 | whatever `str::parse` accepts is an optional sign followed by digits only |
| Decimal.ParseI64EndExamples | src/resp/parse.rs:101-106 | digits running to the end of input ask for more when streaming and are complete otherwise; a lone sign asks for more; a non-digit fails |
| Scan.LineEnding | src/resp/parse.rs:48 | a line ending is `LF` or `CR LF`; when streaming, empty input or a lone CR asks for more |
| Scan.TakeUntilCR | src/resp/parse.rs:48 | the bytes before the first CR, which stays in the rest; with no CR it asks for more |
| LegacyParse.TakeUntilCRLF | src/parser.rs:21 | the bytes before the first CR LF pair, which stays in the rest; with none, it fails |
| LegacyParse.ParseSimpleString | src/parser.rs:19-25 | a parsed simple string consumes input and never asks for more |
| LegacyParse.ParseLine | src/parser.rs:19-33 | a `+` or `-` line never asks for more and consumes its indicator, its text and CR LF |
| LegacyParse.ParseSimpleError | src/parser.rs:27-33 | a parsed error consumes input and never asks for more |
| LegacyParse.ParseInteger | src/parser.rs:55-60 | a parsed integer consumes input and never asks for more |
| LegacyParse.ParseElement | src/parser.rs:75-80 | an array element is never itself an array, consumes input and never asks for more |
| LegacyParse.ParseTop | src/parser.rs:92-98 | the top-level alternative never asks for more and consumes input |
| LegacyParse.ParseBulkString | src/parser.rs:35-53 | a parsed bulk string consumes input and never asks for more |
| LegacyParse.Many0 | src/parser.rs:75-80 | `many0` stops exactly where no element parses, collecting only non-array elements |
| LegacyParse.ParseArray | src/parser.rs:62-89 | a parsed array holds only non-array elements |
| LegacyParse.Parse | src/parser.rs:91-111 | `parse` succeeds exactly when a value spans the whole input; leftover input is reported, and a failure is reported as invalid |
| LegacyFacts.LineFrame | src/parser.rs:19-33 | a line with its indicator runs to the first CR LF pair |
| LegacyFacts.IntegerFrame | src/parser.rs:55-60 | a formatted integer line parses to the integer |
| LegacyFacts.BulkFrame | src/parser.rs:35-53 | the header is skipped up to its CR, and the payload runs up to the next CR, whatever the declared length |
| LegacyFacts.ArrayFrame | src/parser.rs:62-89 | an array reads a count line and then the frames that follow, in order |
| LegacyFacts.ShortInputFails | src/parser.rs:191-200 | `:123` without a line ending fails, since the parser is not streaming |
| LegacyFacts.ElementRoundTrip | src/parser.rs:75-80 | any non-array element's serialised form is read back as one array element |
| LegacyFacts.RoundTrip | src/parser.rs:91-111 | `parse` reads back the serialiser's form of every flat value: texts without CR LF, bulk payloads without CR, arrays of non-arrays |
| LegacyFacts.NestedArrayTrailing | src/parser.rs:62-89 | an array as first element ends the outer array empty, and its bytes are left over |
| LegacyFacts.CountIgnored | src/parser.rs:66-73 | the count line is read and ignored: any count followed by one integer is a one-element array |
| LegacyFacts.NestedArrayExample | src/parser.rs:75-80 | `*1 *0` is rejected with `*0` left over |
| LegacyFacts.CountIgnoredExample | src/parser.rs:66-73 | `*5 :1` is a one-element array |
| Cursor.TextOf | src/parser/values.rs:65-80 | a simple or bulk string yields its bytes; any other value is `InvalidType` |
| Cursor.UncasedOf | src/parser/values.rs:84-99 | a simple or bulk string yields its case-folded form; any other value is `InvalidType` |
| Cursor.NumberOf | src/parser/values.rs:37-55 | an integer as it is; text through `str::parse`, with failure as `InvalidNumber`; any other value is `InvalidType` |
| Cursor.NumberOfFormat | src/parser/values.rs:37-55 | a number written as text, simple or bulk, reads back |
| Cursor.Values.constructor | src/parser/values.rs:31-33 | the cursor starts before the first element, with all of them remaining |
| Cursor.Values.CheckBounds | src/parser/values.rs:111-117 | out of bounds exactly when the index is past the last element |
| Cursor.Values.Next | src/parser/values.rs:104-108 | advances by one; yields the element there, or `OutOfBounds` past the end and then stays exhausted |
| Cursor.Values.GetString | src/parser/values.rs:65-80 | takes one element and yields what `TextOf` says of it, or `OutOfBounds` when none remain |
| Cursor.Values.GetUncasedString | src/parser/values.rs:84-99 | takes one element and yields what `UncasedOf` says of it, or `OutOfBounds` |
| Cursor.Values.GetNumber | src/parser/values.rs:37-55 | takes one element and yields what `NumberOf` says of it, or `OutOfBounds` |
| Cursor.Values.GetArray | src/parser/values.rs:59-61 | yields the empty slice and takes nothing |
| Commands.AsU64 | src/parser/mod.rs:74-75 | `as u64`: a non-negative `i64` is unchanged and a negative one wraps by 2^64 |
| Commands.Expiration | src/parser/mod.rs:74-75 | `EX n` is `n as u64` seconds in milliseconds, and `PX n` is `n as u64` milliseconds |
| Commands.ParseRequest | src/parser/mod.rs:45-52 | a request parses exactly when the frame parser yields an array, whose items are the arguments; a parse error is wrapped; a non-array is `InvalidInput` |
| Commands.Decode | src/parser/mod.rs:55-90 | decoding takes between one and five cursor steps, at most one past the request's length |
| Commands.DecodeSet | src/parser/mod.rs:65-88 | the `SET` arm takes between one and four cursor steps, at most one past what remains |
| Commands.TextArgument | src/parser/mod.rs:63-64 | an argument is `OutOfBounds` when none remain, and otherwise what `TextOf` says of the next element |
| Commands.ReadCommand | src/parser/mod.rs:55-90 | `command` consumes the cursor exactly as `Decode` of the remaining elements says and returns its result |
| Commands.ReadSet | src/parser/mod.rs:65-88 | the `SET` arm consumes and returns exactly what `DecodeSet` says |
| CommandFacts.EmptyRequest | src/parser/mod.rs:56-58 | an empty request is `OutOfBounds` |
| CommandFacts.KeywordNotText | src/parser/mod.rs:56-58 | a keyword that is not a string is `InvalidType` |
| CommandFacts.UnknownKeyword | src/parser/mod.rs:56-58 | a string outside the keyword table is `NotExists` |
| CommandFacts.KeywordCaseInsensitive | src/parser/mod.rs:56-58 | keywords that agree up to ASCII case decode identically |
| CommandFacts.KeywordTable | build.rs:35-39 | the table holds exactly ping, echo, command, get and set, mapped to their commands |
| CommandFacts.PingIgnoresArguments | src/parser/mod.rs:61 | `PING` with any arguments is `Ping`, taking only the keyword |
| CommandFacts.CommandIgnoresArguments | src/parser/mod.rs:62 | `COMMAND` with any arguments is `Command` |
| CommandFacts.EchoArgument | src/parser/mod.rs:63 | `ECHO` takes one string argument, and a non-string is `InvalidType` |
| CommandFacts.GetArgument | src/parser/mod.rs:64 | `GET` takes one string key, and a non-string is `InvalidType` |
| CommandFacts.ArgumentMissing | src/parser/mod.rs:63-64 | `ECHO`/`GET` without an argument is `OutOfBounds` |
| CommandFacts.SetWithoutExpiration | src/parser/mod.rs:78 | `SET key value` with nothing after is a set without expiration |
| CommandFacts.SetWithExpiration | src/parser/mod.rs:69-76 | `SET key value EX/PX n` (any case) sets with the converted expiration |
| CommandFacts.SetUnknownModifier | src/parser/mod.rs:71 | a string modifier other than EX/PX is `InvalidCommandArgument` |
| CommandFacts.SetModifierNotText | src/parser/mod.rs:80 | a modifier that is not a string is `InvalidType` and is not treated as absent |
| CommandFacts.SetNumberMissing | src/parser/mod.rs:74-75 | a modifier without its number is `OutOfBounds` |
| CommandFacts.SetBadNumber | src/parser/mod.rs:74-75 | a number that does not parse gives the number error |
| CommandFacts.SetShort | src/parser/mod.rs:66-67 | `SET` without a key, or without a value, is `OutOfBounds`; a non-string key is `InvalidType` |
| CommandFacts.ParamTable | build.rs:49-50 | the modifier table holds exactly ex and px |
| CommandFacts.NegativeSecondsWrap | src/parser/mod.rs:74-75 | `EX -1` and `PX -1` wrap to 2^64-1 seconds and milliseconds |
| CommandFacts.PingTest | src/parser/mod.rs:99-109 | the single element `PING` decodes to `Ping` |
| CommandFacts.ArrayRequest | src/parser/mod.rs:45-52 | an encoded array request yields its items |
| CommandFacts.NonArrayRequest | src/parser/mod.rs:48 | an encoded non-array is `InvalidInput` |
| CommandFacts.TruncatedRequest | src/parser/mod.rs:46 | a truncated request is the incomplete parse error |
| CommandFacts.TrailingRequest | src/parser/mod.rs:46 | a request followed by more bytes is a parse error |
| StoreValue.FromResp | src/database/value.rs:9-21 | conversion succeeds exactly for null, simple, integer and bulk values; the others are "invalid value" |
| StoreValue.FromStr | src/database/value.rs:23-29 | text converts to a string value |
| StoreValue.FromBytes | src/database/value.rs:31-37 | bytes convert to a bytes value |
| StoreValue.FromInt | src/database/value.rs:39-44 | an integer converts to an integer value |
| StoreValue.ServeStored | src/server/handler.rs:87-102 | a storable value, stored and then served, is written back as itself |
| StoreValue.ToResp | src/server/handler.rs:87-102 | the RESP form `GET` serves a stored value in is always one the store can hold |
| StoreValue.StoreServed | src/server/handler.rs:87-102 | every stored value, served and then converted, is itself again |
| StoreValue.FromRespInjective | src/database/value.rs:9-21 | distinct storable values stay distinct in the store |
| StoreValue.FromRespKind | src/database/value.rs:14-17 | null, simple, integer and bulk map to null, string, integer and bytes, one to one |
| StoreValue.TextIsNotBytes | src/database/value.rs:15-17 | the same bytes sent as a simple string and as a bulk string are stored as different values |
| Database.NewEntry | src/database/mod.rs:63-72 | an entry built with a duration expires, created now; one built without never expires |
| Database.LiveOrOverdue | src/database/mod.rs:109 | an entry is never both served and due for removal; it is neither exactly at its deadline |
| Database.Monotone | src/database/mod.rs:105-115 | once an entry stops being served it is never served again, and once overdue it stays overdue |
| Database.FreshEntryLifetime | src/database/mod.rs:105-115 | an entry written for `d` ms is served strictly less than `d` ms after and overdue strictly more than `d` ms after |
| Database.Lookup | src/database/mod.rs:76-119 | `get` and `get_by_string` (`Database.Get`, `Database.GetByString`): a lookup finds a value exactly when the key is present and its entry is live, and returns that entry's value |
| Database.LookupAfterInsert | src/database/mod.rs:54-74 | after an insert, the key's value is served until its deadline, and every other key's lookup is unchanged |
| Database.Database.constructor | src/database/mod.rs:40-52 | the store starts empty |
| Database.Database.Insert | src/database/mod.rs:54-74 | the key holds the new entry, whatever it held before, and no other key changes |
| Database.Database.Scan | src/database/mod.rs:125-135 | the scan lists each key whose entry is overdue at the scan time, exactly once |
| Database.Database.Sweep | src/database/mod.rs:138-151 | exactly the listed keys whose current entry is overdue at removal time go; every other entry stays unchanged |
| Database.Database.Clean | src/database/mod.rs:121-152 | an entry goes exactly when it is overdue at both phases; with the clock moving forward, exactly those overdue at the scan go |
| Database.Database.CleanAcrossOverwrite | src/database/mod.rs:140-150 | a key written again at any time between the scan and the removal is gone exactly when the scan listed it and its new entry is overdue at the removal; if kept, it holds its new entry; every other key goes exactly when it was overdue at the scan, and otherwise keeps its entry |
| Database.CleanTimeline | src/database/mod.rs:225-261 | keys that live 10 and 100 ms: a clean at 11 ms leaves only the second, and a clean at 111 ms leaves none |
| Server.Message | src/server/handler.rs:21-25 | every error reply carries a non-empty message; the texts are the handler's own, the parser's (src/parser/mod.rs:24-42) and the argument errors' (src/parser/values.rs:7-20) |
| Server.Respond | src/server/handler.rs:67-120 | the reply and store each command leaves: PONG, OK, the echoed simple string, the served value or `KeyNotExists`, and for SET the insert and OK, or a panic when the value cannot be stored |
| Server.Answer | src/server/handler.rs:128-146 | a request after which `handle` asks to be called again leaves the store as it was |
| Server.Requested | src/server/handler.rs:125-128 | the command a buffer holds: a command only when the buffer parses; a parse error exactly when parsing failed with one; `InvalidInput` when the buffer holds a non-array |
| Server.Step | src/server/handler.rs:122-149 | a `handle` that asks to be called again leaves the store as it was |
| Server.Serve | src/server/handler.rs:151-164 | the loop uses at most the reads it is given; while waiting it has changed nothing; it stops only on an outcome other than `Again` |
| Server.Advance | src/server/handler.rs:156-161 | one turn of `run` either goes on with the grown buffer or ends `run` with that turn's outcome |
| Server.Handler.WriteError | src/server/handler.rs:55-65 | writes exactly the error's RESP form |
| Server.Handler.HandleCommand | src/server/handler.rs:67-120 | writes, stores and panics exactly as `Respond` says |
| Server.Handler.HandleGet | src/server/handler.rs:79-108 | writes the served value or the key error, as `Respond` says |
| Server.Handler.HandleSet | src/server/handler.rs:109-116 | inserts and writes OK, or panics, as `Respond` says |
| Server.Handler.Handle | src/server/handler.rs:122-149 | appends the read to the buffer, then writes, stores and ends as `Step` says of the whole buffer |
| Server.Handler.Reply | src/server/handler.rs:127-148 | answers a decoded request as `Answer` says |
| Server.Handler.Run | src/server/handler.rs:151-164 | over any sequence of reads, `run` writes, stores and ends exactly as `Serve` says, starting from a fresh empty buffer |
| ServerFacts.CommandErrors | src/parser/mod.rs:24-42 | decoding errors are value errors, `NotExists` or `InvalidCommandArgument`, never a parse error |
| ServerFacts.AnswerClasses | src/server/handler.rs:128-146 | `Again` exactly for incomplete or unknown-command requests; `Closed` exactly for every other error; `Served` or `Panicked` exactly for commands |
| ServerFacts.StepClasses | src/server/handler.rs:125-133 | an incomplete buffer waits silently; any other parse failure writes its error and closes |
| ServerFacts.TruncatedWaits | src/server/handler.rs:129 | a proper prefix of any encodable request waits and writes nothing |
| ServerFacts.SplitRequest | src/server/handler.rs:151-164 | a request split across two reads is answered exactly as the whole request in one read |
| ServerFacts.UnknownCommandStays | src/server/handler.rs:138-141 | after an unknown command, its bytes stay in the buffer, so the next read's request fails as a parse error and the connection closes |
| ServerFacts.MessagePrintable | src/server/handler.rs:55-65 | every error message is printable ASCII, so the error reply is a well-formed RESP error |
| ServerFacts.ErrorReplyParses | src/server/handler.rs:55-65 | `ErrorReply`, what `write_error` writes: every error reply parses back to the RESP error carrying its message |
| ServerFacts.SetThenGet | src/server/handler.rs:79-116 | `SET` then `GET` of the same key serves the value until its deadline and the key error after |
| ServerFacts.PingServed | src/server/handler.rs:69 | the request `*1 $4 PING` is served with `+PONG` and changes nothing |
| ServerFacts.PingSession | src/server/handler.rs:156-161 | a connection whose first read is a `PING` request writes `+PONG` and `run` returns after that one read |
| OlderServer.Parse | redis/src/parser.rs:13-17 | the older parse wraps the older RESP parser's result, and its errors, as they are |
| OlderServer.CommandOf | redis/src/parser.rs:19-25 | a simple string or an array, whatever it holds, is `PING`; anything else is an invalid command |
| OlderServer.Reply | redis/src/server/handler.rs:31-43 | `PING` writes `+PONG`, and `ECHO` fails with "Invalid command" |
| OlderServer.Step | redis/src/server/handler.rs:47-56 | a parsed buffer is cleared and answered with `+PONG` exactly when the loop goes on; an unparsed one is kept and nothing is written; an ending pass writes nothing |
| OlderServer.Serve | redis/src/server/handler.rs:45-59 | the loop uses at most the reads it is given and stops only on an error |
| OlderServer.Advance | redis/src/server/handler.rs:46-57 | one pass of the loop either goes on with its buffer or ends the loop with that pass's error |
| OlderServer.Handler.HandleCommand | redis/src/server/handler.rs:31-43 | writes `+PONG` for `PING`; `ECHO` writes nothing and fails |
| OlderServer.Handler.Turn | redis/src/server/handler.rs:47-56 | one pass appends the read and then clears, answers, waits or stops exactly as `Step` says |
| OlderServer.Handler.Run | redis/src/server/handler.rs:45-59 | over any sequence of reads, the loop writes, leaves its buffer and ends exactly as `Serve` says |
| OlderServerFacts.StepCases | redis/src/server/handler.rs:50-56 | a pass either writes `+PONG` and clears the buffer, or writes nothing and keeps it, or ends on an invalid command or a parse error |
| OlderServerFacts.EndsOnError | redis/src/server/handler.rs:53-56 | whenever the loop ends it ends on an invalid command or a non-incomplete parse error, never on a failed command |
| OlderServerFacts.RequestServed | redis/src/server/handler.rs:51-53 | a whole request is answered with `+PONG` and empties the buffer |
| OlderServerFacts.NonCommandFails | redis/src/parser.rs:23 | a whole value that is not a simple string or array ends the loop |
| OlderServerFacts.OneRequestPerRead | redis/src/server/handler.rs:45-59 | requests sent one per read are each answered with `+PONG`, and the loop then waits with an empty buffer |
| OlderServerFacts.SplitRequest | redis/src/server/handler.rs:55 | a request split across two reads waits silently at the first and is answered at the second |
| OlderServerFacts.PipelinedRequests | redis/src/server/handler.rs:48-56 | two requests in one read are a parse error: nothing is written and both stay in the buffer |
| OlderServerFacts.PrefixWaits | redis/src/server/handler.rs:55 | a proper prefix of a request waits for more and keeps the buffer |
| Buffers.ByteBuffer.Extend | redis/src/server/handler.rs:47 | reading appends the bytes to the buffer |
| Buffers.ByteBuffer.Push | src/value.rs:77 | pushing appends one byte |
| Buffers.ByteBuffer.Clear | redis/src/server/handler.rs:52 | clearing empties the buffer |
| ByteStrings.AsciiLowerIdempotent | src/parser/values.rs:84-99 | case folding twice is case folding once |
| ByteStrings.Utf8Examples | src/resp/parse.rs:57-66 | a lone continuation byte, a truncated sequence and an encoded surrogate are rejected; a two-byte sequence is accepted |

## Left out

- Sockets, `tokio` tasks, `RwLock` locking, `BufWriter` flushing and the buffer pools are not modelled. A read is an appended chunk and a write an appended output; failures to acquire a pool item and I/O errors are not modelled, so `Server.Handler.Run` starts from a fresh empty buffer.
- The background task that runs `clean` every ten seconds, and `Drop`, are not modelled. `Clean` is called with explicit scan and removal times.
- `Instant` is milliseconds as `nat`. The panic `Instant + Duration` raises on a huge `EX` value is not modelled, since the sum is unbounded here.
- Server.Message: only the top-level text of each error is modelled. The detail a wrapped error appends after a colon, such as a nom `VerboseError` rendering, is left out because it comes from library formatting.
- The newer handler imports its `Value`, `OK` and `PONG` from `src/resp/value.rs`, which is not part of this model. Its `serialize` writes the `ECHO` and `GET` replies and the error replies. The model assumes that encoder writes the same wire form as the serialiser in `src/value.rs`, and uses `RespValue.Encode` for every reply. An error becomes a RESP error carrying the error's message.
- The `isize` overflow of the cursor index after 2^63 takes is not modelled.
- A few methods are called in the newer parser snapshot but not defined in it. `get_bytes` is modelled as a string argument taken as bytes. `Set` is built as a record with key, value and expiration.
- The older crate's `ServerError` variant comes from the listener and is not modelled. The older handler's `Read` and `Write` errors are its own socket errors, at `redis/src/server/handler.rs:10-15`. They are not modelled, because socket failures are not modelled.
- Tracing (`#[instrument]`, `error!`) and the `Debug`/`Display` implementations do not affect the protocol and are left out.
- `parse_array` preallocates `Vec::with_capacity(n)` for a declared count `n`, so a 12-byte header such as `*536870911\r\n` reserves room for up to 512 Mi values before any element arrives. The model has no memory and answers `NeedMore`.
- `build.rs` generates the keyword tables at build time. Only the tables it generates are modelled.
- `src/handler.rs` is not part of this model.
- Cursor.TextOf, Cursor.UncasedOf, Cursor.NumberOf, StoreValue.FromResp: payloads are taken as bytes with no UTF-8 check. The snapshot casts a byte payload straight to `&str` or parses it as one (src/parser/values.rs:40, 68 and 87), and converts a simple string with `to_string` (src/database/value.rs:15). Neither form type-checks on `Rc<[u8]>`. The error kind `ValueError::Utf8` (src/parser/values.rs:16) shows that a UTF-8 conversion was meant. In the model that error, and its `Invalid UTF8 Input` reply, can never occur, and an `ECHO` or `GET` with a non-UTF-8 bulk argument is served.
- Strings in the legacy parser are `&str`. Every token it looks for is ASCII, so the model works on their UTF-8 bytes and does not model `String` validity.
- The serialiser's `Value::Error` holds bytes in the model. `String::as_bytes` is the identity on those bytes.
