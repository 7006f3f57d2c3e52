# A verified model of a minimal Redis server core

This project models the core of a small Redis-compatible server written in
Rust. A connection appends whatever it reads to a text buffer. The frame
decoder pulls one array of bulk strings (`*<N>\r\n` then `N` times
`$<len>\r\n<arg>\r\n`) out of the front of that buffer, and command selection
turns it into a request: PING, ECHO, SET or GET. A dispatcher answers the
request from a shared key/value store. The reply is written back as a simple
string (`+OK`, `+PONG`, `+<message>`), a bulk string, or the null bulk string
`$-1`. The SET command has its own argument parser with the optional
`EX seconds` and `PX milliseconds` expiry flags.

The modules follow the source files:

- `Text` holds the helpers the codecs rely on. It reproduces Rust's
  `str::find`, `str::lines`, ASCII case mapping, decimal formatting and
  `u64::from_str`.
- `RequestCodec` (`src/protocol/request.rs`):
  - the `Request` and `Array` types, `Array::serialize` as a pure function, and `Request::try_from`;
  - `Decode`, the meaning of `Array::deserialize`: the result, and the buffer it leaves;
  - `Buffer`, a class whose `text` field is the connection buffer. Its method `DeserializeArray` runs the source's `0..2N` loop over the lines and is proved equal to `Decode`.
- `DecoderProperties`, `RequestProperties` and `RequestExamples` prove what
  the decoder and command selection promise, including the source's unit tests.
- `SetParser` (`src/protocol/set.rs`):
  - `ScanExpiry` specifies the scan of the tail after key and value;
  - `TryFrom` is the source's loop, proved equal to it.

  `SetProperties` and `SetExamples` hold the parser's properties and its unit tests.
- `Storage` (`src/storage.rs`): a `Store` class whose `entries` map is read
  by `Get` and replaced by `Set`.
- `Responses` (`src/protocol/response.rs`): the reply type and its encoding,
  with a reference client reader that reads every encoding back.
- `Dispatch` states what serving a request means: the reply, and the entries
  afterwards. Two modules implement it:
  - `Processor` (`src/processor.rs`), free functions over a store;
  - `RequestProcessing` (`src/request_processor.rs`), a class holding its store.
- `EndToEnd` ties decoding, dispatch and reply encoding together.

The source's own comments and tests promise more than the code delivers in
two places. The model follows the code, and lemmas exhibit each case:

- The unit test at `src/protocol/request.rs:174-198` states, in its comments at
  lines 176 and 188, that an incomplete message leaves the buffer intact. The
  decoder takes an unterminated last piece of the buffer for a whole line.
  So a frame cut inside its last element, before that element's `\r\n`,
  already decodes, with the element cut short, and the buffer is emptied.
  A cut between the last element's `\r` and `\n` decodes with a stray `\r`
  at the end of that element. The rest of the element then arrives as junk
  (`DecoderProperties.LastArgumentCut`, `DecoderProperties.TruncatedEcho`,
  `DecoderProperties.StrayReturn`). A cut at any line boundary, or inside
  any other line, the count line included, keeps the partial frame intact and
  decodes correctly once the rest arrives (`DecoderProperties.SplitDelivery`).
- The comment at `src/protocol/request.rs:124` says the remainder of the
  buffer may contain more messages, and the one at lines 225-226 says the
  part that was not parsed is left. The code rebuilds the remainder from its
  lines and appends `\r\n` to each line, so a trailing partial line gains a
  terminator it never received (`DecoderProperties.PartialTailTerminated`).
  The start of a next frame that stops inside a line is therefore misread
  after the rest arrives (`RequestExamples.SplitEchoMisread`).
- A buffer whose first `*` is followed by a character that is not a digit
  fails and is kept from that `*` on (`DecoderProperties.MissingCount`).
  Whatever text arrives after it, every later decode fails the same way and
  keeps the whole buffer, so the connection never gets past that `*`
  (`DecoderProperties.StuckWithoutCount`).

## Model

| member | source | states |
|---|---|---|
| Text.Find | src/protocol/request.rs:76 | The position reported holds the character with none before it, and there is none exactly when the text lacks the character |
| Text.FindIsFirst | src/protocol/request.rs:76-77 | The first occurrence of a character is the position `find` reports |
| Text.Lines | src/protocol/request.rs:86 | Text has lines exactly when it is not empty; what splitting means is stated by `Text.LinesConsLF`, `Text.LinesOfTerminated` and `Text.UnterminatedLine` |
| Text.LinesConsLF | src/protocol/request.rs:86 | A text is cut at its first `\n`, bare or after a `\r`: the first line is what precedes it, without a `\r` only when one sits directly before the `\n`, and the lines of the rest follow |
| Text.Terminated | src/protocol/request.rs:125-127 | The rebuild of lines; `Text.TerminatedLines` proves it gives back a text of terminated lines, and `Text.TerminatedAppend` that it distributes over concatenation |
| Text.LinesOfTerminated | src/protocol/request.rs:86 | `lines` splits re-terminated lines back into those lines, whatever text follows |
| Text.UnterminatedLine | src/protocol/request.rs:86 | A final piece without `\n` is still one line, unchanged |
| Text.TerminatedLines | src/protocol/request.rs:125-127 | Rebuilding the lines of a text made of terminated lines gives the text back |
| Text.TerminatedAppend | src/protocol/request.rs:125-127 | The rebuild of two runs of lines is the concatenation of their rebuilds |
| Text.DigitRun | src/protocol/request.rs:96-98 | The digit run is a prefix of the text, all ASCII digits, and stops at the first non-digit |
| Text.DigitRunStops | src/protocol/request.rs:96-98 | Digits followed by a non-digit or nothing give exactly those digits |
| Text.Decimal | src/protocol/request.rs:65 | Decimal formatting gives a non-empty run of digits whose value is the number |
| Text.DecimalInjective | src/protocol/request.rs:67 | Distinct lengths format to distinct decimal strings |
| Text.ParseU64 | src/protocol/set.rs:41 | After an optional leading `+`, a parse succeeds exactly when the rest is a non-empty run of ASCII digits whose value fits in a `u64`, and it then gives that value |
| Text.ParseDecimal | src/protocol/request.rs:100 | Parsing the decimal form of any `u64` gives it back |
| Text.LowerAscii | src/protocol/request.rs:25 | Lowering keeps the length, maps every upper-case ASCII letter to its lower-case letter, and keeps every other character |
| Text.UpperAscii | src/protocol/set.rs:28 | Upper-casing keeps the length, maps every lower-case ASCII letter to its upper-case letter, and keeps every other character |
| RequestCodec.Serialize | src/protocol/request.rs:60-70 | Requires a positive size, as the source asserts; `DecoderProperties.SerializeAsLines` proves it is the header line and the bulk lines, each terminated, and `DecoderProperties.RoundTrip` that the decoder reads it back |
| RequestCodec.IsComplete | src/protocol/request.rs:56-58 | An array is complete when it holds as many elements as it declares; `RequestCodec.Decode` succeeds only with complete arrays |
| RequestCodec.Arguments | src/protocol/request.rs:109-115 | Never more arguments than lines; `DecoderProperties.ArgumentsAppend` and `DecoderProperties.ArgumentsOfBulkLines` state which lines are kept |
| RequestCodec.DecodeRequest | src/protocol/request.rs:16-18 | Decoding then command selection; `RequestCodec.Buffer.DeserializeRequest` is proved to follow it, and `RequestProperties.RequestRoundTrip` to read back every request sent as a frame |
| RequestCodec.AddElement | src/protocol/request.rs:52-54 | Adding an element appends it to the arguments and keeps the declared size |
| RequestCodec.CountHeader | src/protocol/request.rs:89-105 | A count exists exactly when the digit run after the first character is non-empty and within `usize`, and it is that run's value |
| RequestCodec.Decode | src/protocol/request.rs:72-137 | Without `*` the decode fails and the buffer becomes empty; a success is always a complete array whose doubled size fits in `usize` |
| RequestCodec.Buffer.DeserializeArray | src/protocol/request.rs:72-137 | The loop over `2N` lines returns the result of `Decode` on the old buffer and leaves the buffer `Decode` describes |
| RequestCodec.Buffer.DeserializeRequest | src/protocol/request.rs:16-18 | Decoding then selecting a command gives the request and the buffer of `DecodeRequest` |
| RequestCodec.Buffer.Append | src/main.rs:30 | The received text is appended to the end of the buffer |
| RequestCodec.FromArray | src/protocol/request.rs:24-35 | A selected request's command name matches the first element in any letter case, and its operands are the next elements verbatim |
| DecoderProperties.CountOfHeader | src/protocol/request.rs:65 | The header line written for `N` is read back as `N` and holds no line break |
| DecoderProperties.SkipJunk | src/protocol/request.rs:76-77 | Text before the first `*` plays no part in decoding |
| DecoderProperties.NoMarker | src/protocol/request.rs:76-84 | Without `*` the decode fails and the buffer is cleared |
| DecoderProperties.MissingCount | src/protocol/request.rs:89-105 | A header with no digit after `*` fails and keeps the buffer from the `*` on |
| DecoderProperties.StuckWithoutCount | src/protocol/request.rs:89-105 | A `*` followed by a non-digit fails and keeps the whole buffer whatever text is appended after it |
| DecoderProperties.Incomplete | src/protocol/request.rs:109-121 | Fewer than `2N` lines after the header fail; the text before `*` is dropped and the rest is kept exactly |
| DecoderProperties.DecodeFrameConsumes | src/protocol/request.rs:107-136 | With `2N` lines after the header, exactly those lines are consumed and the rest are rebuilt as the new buffer |
| DecoderProperties.DecodeConsumesFrame | src/protocol/request.rs:72-137 | A frame behind junk and before any text decodes from its `2N` lines alone and leaves the lines of the following text |
| DecoderProperties.ArgumentsAppend | src/protocol/request.rs:109-115 | The arguments collected from two runs of lines are those of the first run, then those of the second |
| DecoderProperties.ArgumentsOfBulkLines | src/protocol/request.rs:109-115 | Skipping the `$` lines of serialized arguments gives the arguments back, in order and verbatim |
| DecoderProperties.BulkStringsAsLines | src/protocol/request.rs:66-68 | The bulk strings of the arguments are their length and value lines, each terminated |
| DecoderProperties.SerializeAsLines | src/protocol/request.rs:60-70 | A serialized array is its header line and its bulk lines, each terminated |
| DecoderProperties.DecodeSerialized | src/protocol/request.rs:72-137 | A serialized array behind junk without `*` decodes to the same array and leaves the lines of what follows |
| DecoderProperties.RoundTrip | src/protocol/request.rs:60-137 | Deserializing a serialized array returns it and empties the buffer |
| DecoderProperties.Pipelined | src/protocol/request.rs:124-127 | Two serialized arrays in one buffer come out in order from two decodes, and the buffer is then empty |
| DecoderProperties.PipelinedAfterJunk | src/protocol/request.rs:124-127 | Junk between two frames is left in the buffer by the first decode and dropped by the second, which returns the second frame |
| DecoderProperties.RebuiltBeforeFrame | src/protocol/request.rs:125-127 | Complete junk lines and a partial line in front of a frame are rebuilt unchanged |
| DecoderProperties.PartialFrameKept | src/protocol/request.rs:109-121 | A frame cut at a line boundary, or inside any line but the last, fails and is kept whole |
| DecoderProperties.HeaderCutKept | src/protocol/request.rs:89-121 | A chunk that stops inside the count line fails and is kept whole, because any count read from it is at least one |
| DecoderProperties.FirstChunkIsPrefix | src/protocol/request.rs:60-70 | Such a first chunk is a prefix of the serialized frame |
| DecoderProperties.SplitDelivery | src/protocol/request.rs:72-137 | Delivery in two chunks split at any line boundary, or inside any line but the last, the count line included, keeps the first chunk and then decodes the frame as if it had come at once |
| DecoderProperties.DecodeWholeText | src/protocol/request.rs:72-137 | A text holding exactly one frame's lines, the last one terminated or not, is consumed whole |
| DecoderProperties.LastArgumentCut | src/protocol/request.rs:86-136 | A frame cut inside its last element, or between that element's `\r` and `\n`, decodes with the element cut short or ending in a stray `\r`, and empties the buffer |
| DecoderProperties.TruncatedEcho | src/protocol/request.rs:86-136 | `ECHO hello` cut after `hel` decodes as `ECHO hel` |
| DecoderProperties.StrayReturn | src/protocol/request.rs:86-136 | A one-element frame `x` cut just before its final `\n` decodes as the element `x\r` |
| DecoderProperties.RebuiltWithTerminator | src/protocol/request.rs:125-127 | Rebuilding complete lines and a trailing partial line adds a `\r\n` to the partial one |
| DecoderProperties.PartialTailTerminated | src/protocol/request.rs:124-127 | A partial line after a frame is left in the buffer with a `\r\n` appended |
| RequestProperties.SelectsMatchingCommand | src/protocol/request.rs:24-35 | Conversely, a frame that spells a command in any letter case followed by its operands is read as that request, whatever follows |
| RequestProperties.CommandRoundTrip | src/protocol/request.rs:24-35 | Every request is selected from its own command |
| RequestProperties.DecodeRequestSerialized | src/protocol/request.rs:16-18 | A decoded frame is handed to command selection as it is |
| RequestProperties.RequestRoundTrip | src/protocol/request.rs:16-18 | A request sent as a frame is read back, and the buffer keeps the lines of what follows |
| RequestExamples.EmptyBuffer | src/protocol/request.rs:154-162 | An empty buffer fails and stays empty |
| RequestExamples.Junk | src/protocol/request.rs:164-172 | `junk` fails and clears the buffer |
| RequestExamples.EmptyArray | src/protocol/request.rs:25 | `*0\r\n` decodes as an array with no elements, and command selection then fails, where the source indexes a missing first element |
| RequestExamples.IncompleteRequest | src/protocol/request.rs:174-184 | `*1\r\n$4\r\n` fails and leaves the buffer intact |
| RequestExamples.IncompleteRequestWithPrefix | src/protocol/request.rs:186-198 | The same behind a prefix fails and keeps the text from `*` on |
| RequestExamples.PingExample | src/protocol/request.rs:200-205 | The PING frame gives Ping and empties the buffer |
| RequestExamples.PingUpperCase | src/protocol/request.rs:207-210 | `PING` gives Ping |
| RequestExamples.PingMixedCase | src/protocol/request.rs:211-212 | `piNG` gives Ping |
| RequestExamples.PingWithPrefix | src/protocol/request.rs:215-221 | A PING frame behind junk gives Ping and empties the buffer |
| RequestExamples.PingWithPrefixAndPostfix | src/protocol/request.rs:223-230 | Trailing `$4\r\n` after a PING frame is left in the buffer |
| RequestExamples.PingAndThenEcho | src/protocol/request.rs:232-240 | Two pipelined frames give Ping, then Echo, from two decodes |
| RequestExamples.EchoExample | src/protocol/request.rs:242-250 | The ECHO frame gives its message and empties the buffer |
| RequestExamples.SetExample | src/protocol/request.rs:252-261 | `set a b` gives Set(a, b) and empties the buffer |
| RequestExamples.SetCaseSensitiveArgs | src/protocol/request.rs:263-273 | The case of the SET key is kept |
| RequestExamples.GetExample | src/protocol/request.rs:275-284 | `get a` gives Get(a) and empties the buffer |
| RequestExamples.PartialAfterPing | src/protocol/request.rs:124-127 | A partial ECHO after a PING frame is left in the buffer with its last line terminated |
| RequestExamples.ResplitEcho | src/protocol/request.rs:109-136 | The completed text now has the ECHO command split over two lines, fails, and leaves `hello\r\n` |
| RequestExamples.SplitEchoMisread | src/protocol/request.rs:124-127 | PING followed by an ECHO split inside its command name gives Ping, then a failure, and not the ECHO |
| RequestExamples.MisreadSelectsNothing | src/protocol/request.rs:30-33 | A frame whose first element is `ec` names no command |
| SetParser.FlagUnit | src/protocol/set.rs:28-68 | `EX` in any case stands for 1000 ms, `PX` in any case for 1 ms, and nothing else is a flag |
| SetParser.ScanExpiry | src/protocol/set.rs:27-69 | An expiry once set is never changed by a successful scan, and one found from none fits in a `u64` |
| SetParser.SetFromArgs | src/protocol/set.rs:15-76 | Fewer than three elements fail; a parsed SET has the second and third elements as key and value, and its expiry fits in a `u64` |
| SetParser.TryFrom | src/protocol/set.rs:15-76 | The source's loop over the tail gives exactly the result of `SetFromArgs` |
| SetProperties.FlagIsNotNumber | src/protocol/set.rs:41 | A flag never parses as a `u64` |
| SetProperties.SkipOthers | src/protocol/set.rs:27-69 | Tokens that are not flags are passed over without effect |
| SetProperties.NoFlagsScan | src/protocol/set.rs:27-69 | A tail without flags leaves the expiry as it was |
| SetProperties.ValueConsumed | src/protocol/set.rs:35-47 | A flag takes the next token as its value, and the scan resumes after that token |
| SetProperties.NoFlagNoExpiry | src/protocol/set.rs:71-75 | Without `EX` or `PX` the SET has no expiry |
| SetProperties.SingleFlag | src/protocol/set.rs:28-68 | One flag among other tokens: `EX n` gives `n * 1000` ms and `PX n` gives `n` ms |
| SetProperties.SecondFlagFails | src/protocol/set.rs:29-55 | A second flag fails, whichever the two flags are |
| SetProperties.MissingValueFails | src/protocol/set.rs:36-40 | A flag with nothing after it fails |
| SetProperties.BadValueFails | src/protocol/set.rs:41-45 | A flag whose value is not a `u64` fails |
| SetProperties.SecondsOverflowFails | src/protocol/set.rs:46 | `EX n` whose milliseconds overflow a `u64` fails |
| SetProperties.CommandNameIgnored | src/protocol/set.rs:22-25 | The first element is never examined |
| SetProperties.ScanFindsFlag | src/protocol/set.rs:26-69 | A successful scan from no expiry ends with one exactly when the tail holds a flag |
| SetProperties.ExpiryIffFlag | src/protocol/set.rs:26-75 | A parsed SET has an expiry exactly when its tail names `EX` or `PX` |
| SetProperties.AgreesWithRequest | src/protocol/request.rs:28 | An array named `set` that the SET parser accepts selects the SET request with the same key and value |
| SetExamples.Simple | src/protocol/set.rs:84-96 | `set a b` has no expiry |
| SetExamples.PxArg | src/protocol/set.rs:98-116 | `px 1000` gives 1000 ms |
| SetExamples.ExArg | src/protocol/set.rs:118-136 | `ex 2` gives 2000 ms |
| SetExamples.VariadicCase | src/protocol/set.rs:138-157 | Key and value keep their case; `SeT` and `Ex` are accepted |
| SetExamples.ValueIsMissing | src/protocol/set.rs:159-167 | `SET a` fails |
| SetExamples.PxIsSetTwice | src/protocol/set.rs:169-185 | `PX` twice fails |
| SetExamples.ExIsSetTwice | src/protocol/set.rs:187-203 | `EX` twice fails |
| SetExamples.ExAndPx | src/protocol/set.rs:205-221 | `EX` then `PX` fails |
| Storage.Store.constructor | src/storage.rs:7-9 | The store starts empty |
| Storage.Store.Get | src/storage.rs:22-24 | A value is returned exactly when the key is present, and it is the stored one; the map is not changed |
| Storage.Store.Set | src/storage.rs:27-29 | The key now maps to the value, replacing any earlier one, and every other key keeps its entry |
| Storage.Store.SetFrom | src/storage.rs:27-29 | A parsed SET stores its key and value; its expiry is dropped |
| Storage.SetAndGet | src/storage.rs:36-46 | A value stored is read back under its key |
| Storage.GetAbsentKey | src/storage.rs:48-52 | A key never stored reads as absent |
| Storage.Overwrite | src/storage.rs:28 | For any keys and values, a second SET of a key replaces the first, and a different key keeps its value |
| Storage.ExpiryDiscarded | src/storage.rs:27-29 | For any key, value and expiry, the stored entries are those of the same SET without an expiry |
| Responses.Serialize | src/protocol/response.rs:11-19 | Every encoding ends with `\r\n` and starts with `$` for GET replies and `+` otherwise |
| Responses.ReadSerialized | src/protocol/response.rs:11-19 | A client reads every encoded reply back, except that an echoed `OK` or `PONG` reads as the SET or PING reply |
| Responses.ReadEcho | src/protocol/response.rs:15 | An echoed message is read back from its simple string |
| Responses.ReadBulk | src/protocol/response.rs:16 | A stored value is read back from its bulk string, whose count is its character count |
| Responses.SerializeInjective | src/protocol/response.rs:11-19 | Distinct replies have distinct encodings, apart from those two collisions |
| Responses.EchoOkReadsAsOk | src/protocol/response.rs:13-15 | An echoed `OK` is the SET reply on the wire |
| Responses.SerializeExamples | src/protocol/response.rs:26-39 | The five encodings of the unit test |
| Dispatch.Reply | src/processor.rs:10-17 | PING, SET, ECHO and GET requests get, exactly, the PONG, OK, echo and GET replies |
| Dispatch.After | src/processor.rs:28-31 | Only SET changes the entries: its key maps to its value and every other key is unchanged |
| Dispatch.ReplyCarries | src/processor.rs:20-25 | An echo answers with its message; a GET answers with the stored value exactly when the key is present |
| Dispatch.FinalAppend | src/processor.rs:10-17 | Serving one more request extends the entries of the shorter run |
| Dispatch.FinalHoldsLastSet | src/processor.rs:28-31 | After any run of requests a key holds the value of its last SET, or its earlier entry if the run never set it |
| Dispatch.GetAfterRun | src/processor.rs:20-25 | A GET after a run answers with the key's last SET, or as it would have before the run |
| Processor.ProcessRequest | src/processor.rs:10-17 | Never fails; replies as `Reply` and leaves the store as `After` says |
| Processor.ProcessRequestGet | src/processor.rs:20-25 | Returns the stored value when the key is present and the nil reply otherwise; the store is not changed |
| Processor.ProcessRequestSet | src/processor.rs:28-31 | Stores the pair and answers OK |
| RequestProcessing.RequestProcessor.constructor | src/request_processor.rs:14-18 | A processor works on the store it is given |
| RequestProcessing.RequestProcessor.ProcessRequest | src/request_processor.rs:21-28 | Never fails; replies as `Reply` and leaves its store as `After` says |
| RequestProcessing.RequestProcessor.ProcessRequestGet | src/request_processor.rs:31-36 | Returns the stored value when the key is present and the nil reply otherwise; the store is not changed |
| RequestProcessing.RequestProcessor.ProcessRequestSet | src/request_processor.rs:39-46 | Stores the pair in its store and answers OK |
| EndToEnd.PipelinedArrays | src/protocol/request.rs:16-18 | Two serialized arrays in one buffer are decoded and handed to command selection in order |
| EndToEnd.PipelinedRequests | src/protocol/request.rs:232-240 | Two requests sent back to back are read in order, and the buffer is then empty |
| EndToEnd.SetThenGetReplies | src/processor.rs:14-15 | SET replies `+OK`, and a GET of its key then replies with the value as a bulk string |

## Left out

- `src/main.rs` is not modelled beyond the buffer append: the listener, the per-connection tasks, byte reads and their lossy UTF-8 conversion, and logging. Its loop decodes once per read, so it does not drain pipelined frames; the model states what repeated decodes give instead.
- Concurrency is not modelled: the `RwLock`, the `lazy_static` global and `async`. The store is one `Store` object. `RequestProcessor::new` takes the global store as a constructor parameter.
- Error values are not modelled: every error is one `Failure`, without its diagnostic text. `Display for Array` and `src/protocol/mod.rs` are left out too.
- Rust panics are modelled as `Failure`. These are `args[0]` out of bounds in `Request::try_from` on a frame that declares no elements (`*0\r\n`), `args[1]` or `args[2]` out of bounds there, `number_of_args * 2` overflowing a `usize`, and `* 1000` overflowing a `u64` in the SET parser. The two multiplications panic in a debug build and wrap in a release build. A release build with a wrapped `number_of_args * 2` would run the line loop fewer times and then replace the buffer with the rebuilt remainder; the model keeps the `*`-suffix, as for the debug-build panic. `Array::serialize`'s `size > 0` assertion is a precondition of `Serialize`.
- `usize` is taken to be 64 bits wide. The `u64` parser accepts an optional leading `+`, as Rust's does.
- `to_lowercase` on the command name is modelled as ASCII lowering. The two agree on which names select a command.
- Expiry enforcement is not modelled: the source parses the expiry but never applies it, and `Store.SetFrom` drops it.
- The files come from different revisions and do not agree on the store's interface. `processor.rs` calls free functions `storage::get` and `storage::set(key, value)`. `storage.rs` has methods, and `set` takes a parsed SET. The model has one `Store` with `Get`, `Set(key, value)` and `SetFrom`, shared by both dispatchers. The SET parser works on the argument list, because its tests use an `Array` constructor and `args_count` that the shown `Array` lacks.
- `DecoderProperties.SplitDelivery` covers splits at a line boundary and inside any line except the last one. A split inside the last line, or between its `\r` and `\n`, does not deliver the frame intact; `DecoderProperties.LastArgumentCut` states what it gives.
