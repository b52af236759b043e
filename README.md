# godis: the request decoder, the typed store and the command dispatcher

godis is a small Redis-like server. A client sends requests in the Redis
serialization protocol (RESP2). Each request is an array of bulk strings:
a command name and its arguments. The server decodes each request, runs
one of six commands (SET, GET, LPUSH, LPOP, PING, QUIT) against an
in-memory key space, and writes a RESP reply.

This project models the three parts that carry the logic:

- `resp.dfy` models the decoder (`parser.go`).
  - The functions `LineAt`, `IntegerAt`, `ValueAt`, `ArrayAt`, `ElementsAt`, `BulkAt` and `TextAt` each decode one construct at a position of the input. Each returns the value and the position just after it, or the reason decoding stopped.
  - The class `Reader` is the source's reader: a cursor over the input that advances as bytes are consumed. `ParseArray` fills an array that it allocates up front. Every method is proved to return what the corresponding function returns and to leave the cursor where that function says.
  - The encoders `EncodeBulk` and `EncodeCommand` write the canonical frames. The round-trip lemmas prove that the decoder reads them back.
- `store.dfy` models the key space (`store/store.go`).
  - The map from key to `Str(bytes)` or `List(items)` is the field of the class `Store`.
  - The functions `Lookup`, `Pushed` and `Popped` model each operation as one step on the map. `Set`, `Get`, `LPush` and `LPop` update the map in place and are proved to agree with them. `LPush` pushes its values one at a time, in a loop.
- `server.dfy` models the per-request body of `handleConnection` (`main.go`).
  - `Respond` is one request as a step on the store's map: the request checks, the upper-cased command name, the arity table, the store call and the reply bytes.
  - `Dispatch` does the same on the store object, including the loop that collects LPUSH's values. It is proved to agree with `Respond`.
- `decimal.dfy` models base-10 integers. It covers the `%d` formatting the replies and frames use, and the 64-bit signed `ParseInt` that length lines go through.
- `ascii.dfy` holds the byte type and ASCII upper- and lower-casing.

## Model

| member | source | states |
|---|---|---|
| `Resp.LineAtSpec` | parser.go:33-42 | A line ends at the first LF. It is the bytes before that LF less one more byte; the CR is assumed, never checked. With no LF left the input has ended. An LF right at the start is a line too short to drop two bytes from. Nothing else fails. |
| `Resp.Reader.ReadLine` | parser.go:33-42 | The cursor method returns `LineAt`'s line and moves the cursor past the LF. |
| `Resp.IntegerLine` | parser.go:44-58 | A length line written as `%d` of a 64-bit integer reads back as that integer and is consumed up to and including its CRLF. |
| `Resp.Reader.ReadInteger` | parser.go:44-58 | The cursor method returns `IntegerAt`'s value: the line parsed as a base-10, 64-bit signed integer. |
| `Decimal.Parse` | parser.go:52-55 | A parsed line is always a 64-bit signed integer; anything outside that range is refused. |
| `Decimal.ParsePlus` | parser.go:52 | A `+` sign in front of digits parses like the digits alone. |
| `Decimal.ParseEmpty` | parser.go:52-55 | An empty line, and a sign with no digits after it, are refused. |
| `Decimal.ParseFormat` | parser.go:52-57 | Parsing the `%d` spelling of any 64-bit integer gives the integer back. |
| `Decimal.ParseFormatOutOfRange` | parser.go:52-55 | A number outside 64 signed bits is refused even when it is spelled canonically. |
| `Decimal.ParseRejectsNonDigit` | parser.go:52-55 | A line holding any byte that is not a digit is refused. The one exception is a single leading sign followed by at least one more byte. |
| `Resp.ValueAt` | parser.go:60-78 | A decoded value ends after its start and within the input. Its type is the tag byte it starts with, and that tag is one of `*`, `$`, `+`, `-`. |
| `Resp.UnsupportedTag` | parser.go:66-77 | Any other tag byte, including the declared `:` INTEGER, fails with that byte as an unsupported type. |
| `Resp.Reader.ReadValue` | parser.go:60-78 | The cursor method returns `ValueAt`'s result and leaves the cursor where `ValueAt` ends. |
| `Resp.ArrayCases` | parser.go:80-101 | An array whose length line reads as n has no elements for n = 0 and fails for a negative n. Otherwise its elements are the n values that follow, or the first failure among them fails the whole array. |
| `Resp.ElementsOfConsecutive` | parser.go:90-97 | Values that decode one after another are an array's elements, in input order, ending where the last one ends. |
| `Resp.ConsecutiveOfElements` | parser.go:90-97 | Conversely, an array's elements are values decoded one after another from the end of its length line. |
| `Resp.Reader.ReadElements` | parser.go:88-97 | The loop fills each slot of the preallocated array with one `ReadValue`, in order. It succeeds exactly when `ElementsAt` does, with the same elements and end. |
| `Resp.Reader.ParseArray` | parser.go:80-101 | Allocating the array and then filling it returns `ArrayAt`'s result. |
| `Decimal.AddInt64` | parser.go:111 | Go's `len+2` on a 64-bit int: the true sum when it fits, and otherwise the sum wrapped by 2^64, which is negative on overflow past the top. |
| `Resp.BulkCases` | parser.go:104-118 | A bulk string whose length line reads as n with 0 ≤ n ≤ MaxInt64 − 2 is the n bytes after the line when n + 2 bytes are left, and consumes exactly those n + 2. With fewer bytes left it fails as truncated. n below −2, and n above MaxInt64 − 2 (where n + 2 wraps to a negative size), fail at the allocation. Every negative n fails. |
| `Resp.BulkIgnoresTrailer` | parser.go:111-117 | The two bytes after a bulk-string payload are consumed whatever they are. |
| `Resp.BulkFrame` | parser.go:104-118 | A bulk string decodes to exactly the bytes its length announces, CR and LF included. |
| `Resp.Reader.ParseBulkString` | parser.go:104-118 | The cursor method returns `BulkAt`'s result. |
| `Resp.TextRoundTrip` | parser.go:121-139 | `+text\r\n` and `-text\r\n` decode to `text` in `str`, under tag `+` or `-`, when the text holds no LF. The frame is consumed exactly. |
| `Resp.Reader.ParseSimpleString` | parser.go:121-131 | The cursor method returns `TextAt`'s result under tag `+`. |
| `Resp.Reader.ParseError` | parser.go:133-139 | The cursor method returns `TextAt`'s result under tag `-`. |
| `Resp.BulkRoundTrip` | parser.go:104-118 | A bulk-string frame whose payload is at most MaxInt64 − 2 bytes decodes to its payload and is consumed exactly, whatever follows it. |
| `Resp.CommandRoundTrip` | parser.go:80-118 | `*n\r\n` followed by n bulk-string frames, each payload at most MaxInt64 − 2 bytes, decodes to the array of those bulk strings and is consumed exactly. |
| `Store.Store.constructor` | store/store.go:13-17 | A new store is the empty map. |
| `Store.Store.Set` | store/store.go:19-23 | The key now holds the bytes, replacing a string or a list. No other key changes. |
| `Store.Store.Get` | store/store.go:25-36 | Returns (v, true) exactly when the key holds the byte string v. An absent key or a list key gives (empty, false). |
| `Store.LookupFinds` | store/store.go:25-36 | `Lookup` finds v exactly when the key holds `Str(v)`. |
| `Store.Store.LPush` | store/store.go:38-61 | The loop pushes each value to the front in turn; the new map and the count are `Pushed`'s. |
| `Store.PushedList` | store/store.go:42-50 | On an absent key or a list key, the key then holds the reversed values in front of the old list (none for an absent key). The count is the new length, and every other key keeps its entry. |
| `Store.PushedString` | store/store.go:52-55 | On a key holding a byte string, LPush changes nothing and returns 0. |
| `Store.PushedInTurn` | store/store.go:45-47 | Pushing values in two calls builds the same list as pushing them in one call. |
| `Store.ReversedConcat` | store/store.go:57-59 | Pushing a + b to the front puts the reversal of b before the reversal of a. |
| `Store.Store.LPop` | store/store.go:63-84 | The new map and the result are `Popped`'s. |
| `Store.PoppedFront` | store/store.go:77-83 | On a non-empty list, LPop returns the front element and leaves the key mapped to the rest, possibly empty. Other keys keep their entries. |
| `Store.PoppedNothing` | store/store.go:67-79 | LPop finds nothing exactly when there is no non-empty list under the key, and then changes nothing. |
| `Store.PushPushPopPop` | store/store.go:57-60 | Pushing a, then b, then popping twice gives b, then a, and restores the list. |
| `Store.PushThenPop` | store/store.go:81-83 | The first pop after a push returns the last value pushed. |
| `Ascii.Upper` | main.go:38 | The upper-cased name has the same length, differs from the original only in the case of its letters, and holds no lower-case letter. |
| `Decimal.Format` | main.go:63-91 | The `%d` spelling of a number is non-empty and holds no CR or LF, so it fits on one line of a frame. |
| `Server.Respond` | main.go:32-118 | Every reply is at least 3 bytes, starts with one of the four reply tags (`-`, `+`, `:`, `$`) and ends with CRLF. An error reply comes with the store unchanged and the session going on. |
| `Server.Execute` | main.go:41-118 | The same two facts for the switch on the command name. |
| `Server.Dispatch` | main.go:32-118 | On the store object, with LPUSH's values collected in a loop: the new map, the reply and the end of the session are `Respond`'s. |
| `Server.InvalidRequest` | main.go:32-36 | A non-array or empty request gets `-ERR invalid command\r\n`. The store is unchanged and the session goes on. |
| `Server.CaseInsensitive` | main.go:38 | Names that differ only in letter case get the same reply and the same new map. |
| `Server.ArityErrors` | main.go:43-110 | A known command gets its arity error exactly when its argument count is wrong: SET 2, GET 1, LPUSH at least 2, LPOP 1, PING at most 1, QUIT 0. Then nothing changes. |
| `Server.LowerNames` | main.go:44-108 | The arity errors quote the command names in lower case. |
| `Server.SetThenGet` | main.go:42-65 | SET, in any case, replies `+OK\r\n` and stores the value. A following GET on that key replies with the value's bulk-string frame. |
| `Server.GetReply` | main.go:52-65 | GET changes nothing. It replies with the frame of the byte string the key holds, or `$-1\r\n` for an absent key or a list key. |
| `Server.LPopReply` | main.go:80-92 | LPOP replies with the frame of the list's front element and removes it. Without a non-empty list under the key it replies `$-1\r\n` and changes nothing. |
| `Server.BulkReplyDecodes` | main.go:63-64 | A GET or LPOP hit reply decodes, with the server's own decoder, back to the bytes found. |
| `Server.LPushReply` | main.go:67-79 | LPUSH pushes its values in argument order and replies `:n\r\n`, where n is the new length of the list. |
| `Server.LPushOnString` | main.go:67-79 | LPUSH on a key holding a byte string replies `:0\r\n` and changes nothing. |
| `Server.PushPushPopPop` | main.go:67-92 | Through the dispatcher, LPUSH k a, LPUSH k b, LPOP k, LPOP k reply with the frames of b and then a, and restore the list. |
| `Server.PingReply` | main.go:93-104 | PING replies `+PONG\r\n` with no argument and `+arg\r\n` with one, and never touches the store. |
| `Server.PingEchoDecodes` | main.go:100-103 | An echoed argument without LF decodes back as that simple string. |
| `Server.PingEchoCut` | main.go:100-103 | The echo is not escaped: an argument holding CRLF ends the reply frame early. |
| `Server.QuitEndsSession` | main.go:106-113 | The session ends exactly on QUIT, in any case, with no arguments; it then replies `+OK\r\n` and leaves the store unchanged. |
| `Server.UnknownCommandReply` | main.go:115-117 | Any other name gets ``-ERR unknown command `NAME`\r\n``, quoting the upper-cased name. The store is unchanged. |

## Left out

- The TCP listener, the accept loop, the goroutine per connection, `conn.Close`, the ignored results of `conn.Write`, and logging. They are I/O plumbing. The model of one request takes the decoded request and returns the reply bytes and whether the session ends.
- The store's `sync.RWMutex`. Each store operation is modelled as one atomic sequential step.
- `bufio` buffering and the difference between `io.EOF` and an unexpected EOF. The input is a byte sequence, and any decode error ends the session in the source. Where the cursor stands after an error is therefore left unspecified.
- Runtime panics are modelled as decode errors rather than excluded by preconditions. In the source a panic stops the whole server, not one session. The model reports these as `ShortLine` or `NegativeLength`:
  - a line of one byte (`ShortLine`);
  - a negative array length (`NegativeLength`);
  - a bulk length below -2, where the allocation of length + 2 bytes fails before any read (`NegativeLength`);
  - a bulk length of MaxInt64 - 1 or MaxInt64, where length + 2 wraps around to a negative 64-bit integer and the allocation fails the same way (`NegativeLength`);
  - a bulk length of -1 or -2, once the read of its 1 or 0 bytes has succeeded (`NegativeLength`). With too few bytes left for that read, the model reports `Truncated`.
- The allocation limit of the Go runtime is not modelled. `make` panics before any byte is read when the bulk buffer (length + 2 bytes) or the array (length values) exceeds it. On 64-bit Linux that limit is 2^48 bytes, far below MaxInt64. The model has no such limit. For those lengths it reports `Truncated` when the input is shorter than the declared length, and otherwise decodes the value.
- Respond: does not promise that a reply is exactly one RESP frame, only its tag byte and closing CRLF. PING echoes its argument unescaped, so an argument holding CRLF yields more than one frame (`Server.PingEchoCut`).
- Execute: the same gap as Respond, for the switch on the command name.
- `strings.ToUpper` maps Unicode; the model upper-cases ASCII letters only. Keys and payloads are byte sequences.
- Go's distinction between a nil and an empty byte slice. `Get` and `LPop` return the empty sequence where the source returns nil.
- The session loop around one request (main.go:19-31, 119) is not modelled as a function. Its only logic is to stop on a decode error or on QUIT, which `Respond`'s `quit` flag and the decode errors expose.
- Null-bulk (`$-1`) decoding. The decoder has none, so the server's own `$-1\r\n` reply does not decode as a value with its own parser.
