# SSDP discovery helpers of go2tv's `devices` package, in Dafny

go2tv finds media renderers with SSDP, the discovery protocol of UPnP Device
Architecture 1.1 (section 1). Besides an external SSDP client, the `devices`
package runs its own listener. It joins the multicast group
239.255.255.250:1900, reads every advertisement and search reply, and files
each one in a registry keyed by unique service name (USN). This project
models the sequential logic of that workaround and proves properties of it:

- **Query serialiser** (`Ssdp.BuildSearch`). It builds the M-SEARCH request
  from the group address, the port, the `"ssdp:discover"` directive, the
  caller's MX wait and the search target. `Ssdp.BuildSearchExact` spells out
  its output.
- **Datagram parser** (`Ssdp.ParseService`). It works in four steps:
  - `Ssdp.ReplaceFirstLine` splits the datagram on CRLF, overwrites the first
    line with `HTTP/1.1 200 OK` and rejoins the lines.
  - It checks for the `HTTP` prefix.
  - `Ssdp.Terminate` appends CRLF CRLF when the text does not already end
    with it.
  - It reads the header block and copies NT, USN, LOCATION and SERVER into a
    `Services.Service` record.
- **Registry**. `Registry.Upsert` is the listener's last-write-wins upsert and
  `Registry.ListenerStep` one turn of its loop. `Discovery.AnotherSearch`
  returns a snapshot of the registry. `Discovery.Search` puts the external
  client's results in front of that snapshot.
- **Max-age extraction**. `MaxAgeRegex.ExtractMaxAge` models the pattern
  `\bmax-age\s*=\s*(\d+)\b` as a hand-written scanner, with a 32-bit
  `ParseInt` and a default. `Services.MaxAgeOf` is the memoised `MaxAge`
  accessor. The `Services.ServiceRef` class holds a record by reference, as
  Go's pointer receivers do.

Bytes are `char`s below 256 (`ByteStrings.byte`), so Go strings and byte
slices are both `ByteStrings.Bytes`. Errors are `Result` values, never
preconditions.

The sockets, the sends and the external discovery client are parameters:
- whether a socket exists;
- whether the send succeeded;
- what the external client returned.

`http.ReadResponse` and `http.Header.Get` belong to Go's standard library.
They are modelled by `HttpHeader.ReadResponse` and `HttpHeader.Get`, under
these stated assumptions:
- the text is cut into lines at CRLF, and the first line must start with
  `HTTP/`;
- every line up to the first empty line is `Name: value`:
  - the name is non-empty, with no blank, colon or line break;
  - the value has its surrounding blanks removed;
- any other line is a failure, and so is a missing empty line;
- `Get` matches names without regard to ASCII case and returns the first
  value, or "" when the name is absent.

Two behaviours worth stating plainly:
- The `Type` field is documented as "a property of ST" (devices/service.go:16).
  The parser fills it from NT only (devices/ssdp.go:190). The model follows
  the code. `Registry.OwnQueryIgnored` shows one consequence: the listener
  hears its own M-SEARCH queries, which carry ST but no NT, so they never
  enter the registry, as long as the search type is a single-line value.
- The max-age pattern (devices/service.go:32) has no `(?i)` flag, so the
  keyword matches only in lower case. `MAX-AGE=5` gives the default, as
  `MaxAgeRegex.UpperCaseKeywordIgnored` shows.

## Model

| member | source | states |
|---|---|---|
| `ByteStrings.Split` | devices/ssdp.go:166 | `bytes.Split` on CRLF returns at least one piece, and no piece contains a CRLF |
| `ByteStrings.Join` | devices/ssdp.go:172 | `bytes.Join` with CRLF starts with the first line; `ByteStrings.JoinSplit` and `ByteStrings.SplitJoin` make it the inverse of `ByteStrings.Split` |
| `ByteStrings.JoinSplit` | devices/ssdp.go:166-172 | joining the CRLF pieces of any text with CRLF gives the text back |
| `ByteStrings.SplitJoin` | devices/ssdp.go:166-172 | splitting the CRLF-join of line-break-free lines gives the same lines back |
| `ByteStrings.FormatInt` | devices/ssdp.go:153 | `%d` writes digits whose value is the number, after a minus sign when it is negative, with no leading zero (0 is written `0`) |
| `ByteStrings.DecimalRoundTrip` | devices/ssdp.go:153 | reading back the decimal digits of a natural number gives the number |
| `HttpHeader.Get` | devices/ssdp.go:190-193 | a header lookup gives "" when no name matches and otherwise the value of the first field whose name matches |
| `HttpHeader.GetFirstWins` | devices/ssdp.go:190-193 | fields after a matching one never change what a lookup returns |
| `HttpHeader.GetIgnoresCase` | devices/ssdp.go:190-193 | names that differ only in ASCII case look up the same value |
| `HttpHeader.ParseFieldLine` | devices/ssdp.go:183 | a well-formed field written as `Name: value` parses back to the same field |
| `HttpHeader.ReadFields` | devices/ssdp.go:183-186 | a header block that reads stops at an empty line; without an empty line, reading fails |
| `HttpHeader.ReadFieldsLines` | devices/ssdp.go:183-186 | when a header block reads, every line before the empty line that ends it is non-empty and parses to the field at the same position, so that empty line is the first one |
| `HttpHeader.ReadFieldsRejects` | devices/ssdp.go:183-186 | a line that is not `Name: value`, before any empty line, makes the read fail |
| `HttpHeader.ReadFieldsRendered` | devices/ssdp.go:183-186 | the written lines of a well-formed header, then an empty line, read back as that header whatever follows |
| `HttpHeader.ReadResponse` | devices/ssdp.go:183-186 | a response reads only when its first line starts with `HTTP/` |
| `Ssdp.PortDecimal` | devices/ssdp.go:151 | port 1900 is written as the four digits 1900 |
| `Ssdp.HostLineExact` | devices/ssdp.go:151 | the HOST line is `HOST: 239.255.255.250:1900` |
| `Ssdp.ManLineExact` | devices/ssdp.go:152 | the MAN line is `MAN: "ssdp:discover"`, with the quotes that `%q` adds |
| `Ssdp.BuildSearch` | devices/ssdp.go:148-157 | the query starts with the request line and CRLF and ends with an empty line; `Ssdp.BuildSearchExact` gives every byte |
| `Ssdp.SearchFieldLinesExact` | devices/ssdp.go:151-154 | the four field lines of a query are HOST, MAN, `MX: ` plus the decimal wait, and `ST: ` plus the target, in that order |
| `Ssdp.BuildSearchExact` | devices/ssdp.go:148-157 | the query is the request line, the HOST, MAN, MX and ST lines, each ending in CRLF, then a final CRLF |
| `Ssdp.BuildSearchIsRendered` | devices/ssdp.go:148-157 | the query is a datagram whose first line is the request line and whose header is the four query fields, closed by an empty line |
| `Ssdp.SearchFieldsWellFormed` | devices/ssdp.go:148-157 | for a search type that is a single-line value with no leading or trailing blank (`ValidValue`), every field of a query is a valid header field, whatever the wait value |
| `Ssdp.ReplaceFirstLine` | devices/ssdp.go:166-172 | input without CRLF becomes exactly `HTTP/1.1 200 OK`; otherwise every byte from the first CRLF on is kept, in order, after the status line |
| `Ssdp.ReplaceJoined` | devices/ssdp.go:166-172 | rewriting the first of several CRLF-joined lines replaces that line alone |
| `Ssdp.ReplacedHasHTTPPrefix` | devices/ssdp.go:174-176 | the rewritten text always starts with `HTTP`, so the prefix check never fails |
| `Ssdp.Terminate` | devices/ssdp.go:178-182 | the result ends in CRLF CRLF; text already ending so is unchanged, and other text gets CRLF CRLF appended |
| `Ssdp.TerminateIdempotent` | devices/ssdp.go:178-182 | applying the terminator shim twice is the same as applying it once |
| `Ssdp.ParseService` | devices/ssdp.go:165-196 | the only possible error is a failed header read; a parsed record holds the sender, the NT, USN, LOCATION and SERVER values ("" when absent) and no cached max-age |
| `Ssdp.DatagramNormalises` | devices/ssdp.go:166-182 | with or without its closing empty line, a datagram normalises to the status line, its field lines and CRLF CRLF |
| `Ssdp.NormalisedReads` | devices/ssdp.go:183-186 | that normalised text reads back as exactly the datagram's header |
| `Ssdp.ParseRendered` | devices/ssdp.go:165-196 | a datagram with any first line and a well-formed header parses into the record built from that header's values |
| `Ssdp.ParseIgnoresMissingTerminator` | devices/ssdp.go:165-186 | any payload that does not end with CRLF CRLF parses exactly as it does with CRLF CRLF appended |
| `Ssdp.TerminatedAfterRewrite` | devices/ssdp.go:166-182 | appending CRLF CRLF before or after the first-line rewrite leads to the same normalised text |
| `MaxAgeRegex.MatchAt` | devices/service.go:32 | a match of the pattern at a position captures a non-empty run of digits |
| `MaxAgeRegex.MatchAtSound` | devices/service.go:32 | every scanner match is a match of the pattern: a word boundary, the keyword, spaces, `=`, spaces, digits, then a word boundary |
| `MaxAgeRegex.MatchAtComplete` | devices/service.go:32 | every placement of the pattern is found by the scanner, with the same capture |
| `MaxAgeRegex.FirstMatch` | devices/service.go:36 | the leftmost position where the pattern matches, or none when it matches nowhere |
| `MaxAgeRegex.FindSubmatch` | devices/service.go:36 | there is no capture exactly when the pattern matches nowhere; otherwise the capture is that of a match with no match before it |
| `MaxAgeRegex.ParseInt32` | devices/service.go:37-40 | a digit string parses exactly when its value is at most 2147483647, and then to that value |
| `MaxAgeRegex.ExtractMaxAge` | devices/service.go:34-43 | the result is the default or a number in [0, 2147483647]; with no match anywhere it is the default |
| `MaxAgeRegex.ExtractFirstMatch` | devices/service.go:36-40 | the first match alone decides: its number if it fits in 32 bits, otherwise the default, whatever follows |
| `MaxAgeRegex.ExtractLeadingToken` | devices/service.go:34-43 | text that opens with a max-age token gives that token's number, or the default on overflow, whatever comes after it |
| `MaxAgeRegex.ExtractDecimal` | devices/service.go:36-40 | a token carrying the decimal form of n, with n at most 2147483647, gives n |
| `MaxAgeRegex.ExtractOverflow` | devices/service.go:37-40 | a leading token whose number exceeds 2147483647 gives the default, even when a valid token follows |
| `MaxAgeRegex.UpperCaseKeywordIgnored` | devices/service.go:32 | `MAX-AGE=5` does not match, so the result is the default |
| `MaxAgeRegex.Extract1800` | devices/service.go:34-43 | `max-age=1800` gives 1800 |
| `Services.MaxAgeOf` | devices/service.go:46-52 | the call leaves its result in the memo slot and changes nothing else; a filled slot is returned as is; an empty slot gets the max-age extracted from the CACHE-CONTROL value with default -1; a memo holding -1 or a 32-bit value still does so after the call |
| `Services.FirstCallReadsToken` | devices/service.go:34-52 | on a fresh record, the first max-age token of the CACHE-CONTROL value decides: its number when at most 2147483647, otherwise -1, whatever follows |
| `Services.FirstCallWithoutToken` | devices/service.go:34-52 | on a fresh record whose CACHE-CONTROL value holds no max-age token, the call reports -1 |
| `Services.MaxAgeMemoised` | devices/service.go:46-52 | after one call, calling again or replacing the header set does not change the value returned |
| `Services.MaxAgeWithoutCacheControl` | devices/service.go:49 | a fresh record without a CACHE-CONTROL header reports -1 |
| `Services.HeaderOf` | devices/service.go:55-57 | the header set returned is the record's own, and computing the max-age does not change it |
| `Registry.Upsert` | devices/ssdp.go:55-57 | a record with an empty type leaves the registry alone; otherwise it is filed under its USN, and every other entry is unchanged |
| `Registry.UpsertIdempotent` | devices/ssdp.go:55-57 | filing the same record twice is the same as filing it once |
| `Registry.UpsertLastWriteWins` | devices/ssdp.go:55-57 | a typed record hides any earlier record filed under the same USN |
| `Registry.UpsertReplacesWholesale` | devices/ssdp.go:55-57 | after a typed record is filed, no other value in the registry has its USN, so no field of an older version survives |
| `Registry.ListenerStep` | devices/ssdp.go:46-57 | a receive error or an unparseable datagram leaves the registry as it was |
| `Registry.StepFiles` | devices/ssdp.go:51-57 | a datagram that parses into a typed record files that record under its USN |
| `Registry.Listen` | devices/ssdp.go:44-59 | feeding the listener any stream of receipts keeps every entry filed under its own USN |
| `Registry.ListenAppend` | devices/ssdp.go:44-59 | feeding two batches of datagrams one after the other is the same as feeding them together |
| `Registry.BadReceiptIsSkipped` | devices/ssdp.go:46-57 | a bad receipt anywhere in the stream changes nothing that comes after it |
| `Registry.OwnQueryIgnored` | devices/ssdp.go:55-57 | for a search type that is a single-line value with no leading or trailing blank (`ValidValue`), the listener's own M-SEARCH query parses but has no NT field, so it never enters the registry |
| `Registry.ParseRejectsLineWithoutColon` | devices/ssdp.go:165-186 | a datagram whose second line is non-empty and has no colon fails to parse, whatever lines follow it and whether or not it ends with an empty line |
| `Registry.ListenerStepAsWritten` | devices/ssdp.go:46-57 | as written, the loop panics exactly on a receive error or a parse failure, and otherwise agrees with the intended step |
| `Registry.MalformedDatagramPanics` | devices/ssdp.go:51-56 | a NOTIFY whose second line is `garbage` panics the loop as written, while the intended step leaves the registry alone |
| `Registry.ReceiveErrorPanics` | devices/ssdp.go:46-53 | a failed receive panics the loop as written, while the intended step ignores it |
| `AdvertisementExample.NotifyParses` | devices/ssdp.go:165-196 | a sample NOTIFY with any sender and first line parses into the expected record |
| `AdvertisementExample.NotifyIsRegistered` | devices/ssdp.go:51-57 | that NOTIFY becomes the only entry of an empty registry, filed under its USN, and its max-age reads as 1800 |
| `Discovery.AnotherSearch` | devices/ssdp.go:64-82 | the built query is sent exactly when a socket exists; without a socket or after a failed send the result is empty; otherwise it has one element per entry and holds exactly the registry's values, each element being the value of a distinct key |
| `Discovery.Snapshot` | devices/ssdp.go:77-81 | the copy has one element per registry entry, each the value of a distinct key, and every value of the registry appears in it |
| `Discovery.TagExternal` | devices/ssdp.go:91-94 | the external devices are copied in order, one element each |
| `Discovery.AppendLocal` | devices/ssdp.go:96-99 | the snapshot is appended in order after what is already there, which stays unchanged |
| `Discovery.Search` | devices/ssdp.go:84-101 | an external failure is returned with nothing sent; otherwise the external list comes first, in order, then the snapshot, with no deduplication |

## Left out

- `joinMulticastGroup` and `sendMulticastMessage` (devices/ssdp.go:104-144):
  - these are OS networking: binding the port, listing interfaces, joining
    the group, and writing the datagram;
  - their outcomes are the `socketOpen` and `sendOk` parameters.
- The `init` goroutine (devices/ssdp.go:29-61):
  - the blocking `ReadFrom` loop, its 1024-byte buffer, its reallocation and
    its logging are I/O;
  - a datagram longer than the buffer is cut by the receive call, which is
    outside the model;
  - one turn of the loop is `Registry.ListenerStep`, and a stream of turns is
    `Registry.Listen`.
- Concurrency: the listener and the search entry points share `deviceMap`
  without a lock. The model treats every registry read as one sequential
  snapshot.
- `ssdp.Search` from the external SSDP library (devices/ssdp.go:86): its
  result or error is the `external` parameter of `Discovery.Search`. Its
  devices are a type parameter.
- The internals of `http.ReadResponse` and of `http.Header` are replaced by
  the assumed header parser described above. The model does not cover these
  parts of it:
  - key canonicalisation;
  - continuation lines;
  - status-code parsing;
  - the response body.
  It also departs from Go's `net/textproto` and `net/http` in these ways,
  each of which can change which datagrams are filed and with which values:
  - Go also ends a line at a bare LF, while the model ends lines only at CRLF.
    So `NT: a` LF `USN: b` reads in Go as two fields, and here as one NT value
    that holds the LF, with USN empty.
  - Recent Go releases reject field names with bytes outside the HTTP token
    set, and values holding control bytes such as a lone CR or NUL. The model
    accepts both.
  - Go accepts a blank between the field name and the colon (`USN : x`). The
    model rejects such a line.
  - Go's transfer handling fails on a malformed Content-Length or an
    unsupported Transfer-Encoding. The model never fails there.
  - `ReadResponse` edits the header set it returns. It adds
    `Cache-Control: no-cache` when `Pragma: no-cache` is present and
    Cache-Control is absent. It deletes `Transfer-Encoding`, deletes
    Content-Length when a Transfer-Encoding is present, and collapses
    repeated equal Content-Length values into one. The model keeps the
    fields as read. Only `Header()` sees the difference; the filed
    NT, USN, LOCATION and SERVER values and `MaxAge` do not.
- `Registry.OwnQueryIgnored` and `Ssdp.SearchFieldsWellFormed` require a
  single-line search type with no leading or trailing blank (`ValidValue`),
  because `buildSearch` (devices/ssdp.go:154) writes the search type into the
  ST line without escaping it. A search type holding CRLF adds header lines to
  the query: `ssdp:all` CRLF `NT: x` makes the listener's own query parse
  with Type `x` and an empty USN, and that record is filed.
- `Discovery.AnotherSearch`: the order of the snapshot is Go's map iteration
  order, which is unspecified. The contract fixes only that each entry appears
  exactly once, through the ghost `order` output.
- `Discovery.Search`: it returns Go's `[]interface{}`. The model uses a tagged
  `Found` list that records whether each element came from the external
  client or from the registry.
- `ByteStrings.FormatInt`: `waitSec` is an unbounded integer, not Go's 64-bit
  `int`. Every 64-bit value is written the same way in both.
- `Services.Service`: in Go, `rawHeader` is an `http.Header` map
  (devices/service.go:28). The struct copies made when a record is filed
  (devices/ssdp.go:56) and when it is snapshotted (devices/ssdp.go:79) all
  share that one map, while each copy has its own `maxAge` memo, and
  `Header()` (devices/service.go:55-57) hands out the map itself. A caller
  who edits the header of a snapshot element therefore edits the registry's
  entry too, and a later snapshot's first `MaxAge()` reads the edited
  CACHE-CONTROL value. The model gives each record its own header value, so
  no such edit reaches the registry.
- `Services.ServiceRef`: the class methods `MaxAge` and `Header` wrap
  `Services.MaxAgeOf` and `Services.HeaderOf`. Their contracts speak of the
  object's state before and after the call.
- devices/ssdp_test.go: network smoke tests that only log. They have no
  assertions to carry over.

## Findings

| source | as written | input that shows it | evidently intended | confidence | as-written member | corrected member |
|---|---|---|---|---|---|---|
| devices/ssdp.go:51-56 | after a parse error `srv` is nil, and `srv.Type` dereferences it | the datagram `NOTIFY * HTTP/1.1` CRLF `garbage` CRLF CRLF | log the error and leave the registry unchanged | not executed | `Registry.MalformedDatagramPanics` | `Registry.BadReceiptIsSkipped` |
| devices/ssdp.go:46-53 | after a `ReadFrom` error the loop goes on with a nil `addr`. `parseService` calls `addr.String()` on a successful parse (devices/ssdp.go:189), and the log line calls it on a failed one (devices/ssdp.go:53) | any receive error | skip the turn and leave the registry unchanged | not executed | `Registry.ReceiveErrorPanics` | `Registry.BadReceiptIsSkipped` |
