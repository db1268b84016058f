# A verified model of a minimal HTTP responder

`server.c` accepts TCP connections and spawns one detached thread per
connection. Each thread reads one request and routes it by prefix to one of
four writers: the statistics page, a static file, an integer sum, or a fixed
404. Three global counters, guarded by one mutex, record requests served,
bytes received and bytes sent.

This project models that request path in Dafny:

- `bytes.dfy` (module `Bytes`): bytes, C strings (the bytes before the first
  NUL) and what `snprintf` keeps of a string.
- `decimal.dfy` (module `Decimal`): what `%d` prints (`IntToString`) and what
  one `%d` conversion of `sscanf` reads (`ScanDecimal`). The two are proved to
  round-trip.
- `router.dfy` (module `Router`): the first-match-wins prefix router of
  `handle_client`.
- `query.dfy` (module `CalcQuery`): `sscanf(query, "a=%d&b=%d", &a, &b)`,
  including its partial matches.
- `staticpath.dfy` (module `StaticPath`): the file path `send_file` builds, as
  written and as evidently intended.
- `responses.dfy` (module `Responses`): the headers and HTML bodies the
  writers send, and the Content-Length a client reads from a header.
- `server.dfy` (module `Server`): the counters as the class `StatsRegistry`,
  one socket's output as the class `Connection`, and the writers and
  `handle_client` as methods.

Each region the server runs under `stats_lock` is one method of
`StatsRegistry`, treated as one atomic step. A `recv` result becomes the
parameters `received` and `data`. Each `send` appends one entry to
`Connection.sends`. The files `open` can reach are a map from path to `File`.
A `File` is the size `fstat` reports plus the successive results of `read`.

## Model

| member | source | states |
|---|---|---|
| `Decimal.IntToString` | server.c:133-137 | `%d` output is non-empty, holds no NUL, does not start with white space, and starts with `-` exactly for negative values |
| `Decimal.NatToString` | server.c:88 | the digits printed for a non-negative value are all decimal digits, with no leading zero except for 0 itself |
| `Decimal.ScanDecimal` | server.c:129 | a successful `%d` conversion consumes at least one byte, ends on a digit, and stops before any further digit |
| `Decimal.ScanField` | server.c:129 | any field of white space, an optional `+` or `-`, a digit run and then a non-digit or nothing is read as the signed value of the digits, consuming all but the trailing bytes |
| `Decimal.ScanDecimalFails` | server.c:129 | a `%d` conversion fails exactly when no digit follows the leading white space and the optional sign |
| `Decimal.IntToStringInt32` | server.c:88 | `%d` of any value that fits a 32-bit C `int` prints at most 11 bytes |
| `Decimal.ScanIntToString` | server.c:129 | reading `%d` output back yields the printed value and consumes exactly the printed bytes, when no digit follows |
| `Router.PrefixesDisjoint` | server.c:49-58 | no request starts with two of `GET /stats`, `GET /static/` and `GET /calc?` |
| `Router.Dispatch` | server.c:49-61 | stats iff the request starts with `GET /stats`; static iff `GET /static/`; calc iff `GET /calc?`; 404 otherwise. The static writer gets the request minus `GET /` (so its path starts `static/`). The calc writer gets everything after `GET /calc?` |
| `CalcQuery.ScanQuery` | server.c:128-129 | when the query starts with `a=` and an integer, `a` is that integer; a nonzero `b` is only read after such an `a` |
| `CalcQuery.ScanQueryBoth` | server.c:128-129 | a query `a=<x>&b=<y>` followed by a non-digit or nothing gives operands `(x, y)` |
| `CalcQuery.ScanQueryOnlyA` | server.c:128-129 | `a=<x>` not followed by `&b=` gives `(x, 0)` |
| `CalcQuery.ScanQueryMalformedB` | server.c:128-129 | `a=<x>&b=` followed by no integer gives `(x, 0)` |
| `CalcQuery.ScanQueryNoA` | server.c:128-129 | a query that does not start with `a=` and an integer gives `(0, 0)` |
| `CalcQuery.ScanFirst` | server.c:129 | after `a=`, a field that `%d` reads in full sets `a`, and the scan continues on the bytes after it |
| `CalcQuery.ScanSecondOf` | server.c:129 | after `&b=`, a field that `%d` reads in full sets `b` |
| `Server.CalcOperandsOfQuery` | server.c:57 | the NUL-terminated query at `buffer + 10` of `GET /calc?a=<x>&b=<y>...` yields operands `(x, y)` |
| `Server.CalcOperandsOnlyA` | server.c:128-130 | the query `a=<x>` without `&b=` yields `(x, 0)`, so the reported sum is `x` |
| `StaticPath.FilePath` | server.c:100 | the path has at most 4095 bytes and starts with `./static`. The rest is copied from offset 7 of the path argument (offset 12 of the request), NUL-free. Unless truncated, it runs to the terminator or the end of the data |
| `StaticPath.FilePathOfRequest` | server.c:100 | for a request `GET /static/<name> <rest>` the path is `./static<name> <rest>`: no separator, and the request line is not trimmed |
| `StaticPath.FilePathMissesSeparator` | server.c:100 | for any file name not starting with `/`, the built path differs from the intended `./static/<name>` |
| `StaticPath.FixedFilePathOfRequest` | server.c:100 | the corrected path of `GET /static/<name> <rest>` is exactly `./static/<name>` |
| `Responses.HeaderDeclares` | server.c:88 | a header built with `Content-Length: %d` of n declares n, whatever follows it |
| `Responses.HeaderFits` | server.c:87-88 | a header for a length that fits a C `int` starts with its lead and is at most 15 bytes longer, far below the 4096-byte header buffer |
| `Responses.StatsBodyFits` | server.c:77-84 | with counters that fit a C `int`, the stats page is shorter than 4096 bytes, so `snprintf` writes it whole and returns its length |
| `Responses.CalcBodyFits` | server.c:132-136 | with operands and sum that fit a C `int`, the result page is shorter than 4096 bytes, so `snprintf` writes it whole and returns its length |
| `Responses.HtmlReply` | server.c:88-91 | a text/html writer sends header then body. The header declares the body's byte count. The two sends total header length plus body length |
| `Responses.NotFoundMisdeclared` | server.c:65-68 | the fixed 404 declares `Content-Length: 58` but its body is 93 bytes |
| `Responses.NotFoundDeclaresBody` | server.c:65-69 | the corrected 404 declares exactly its body's length |
| `Server.StatsRegistry.constructor` | server.c:15-17 | all three counters start at 0 |
| `Server.StatsRegistry.RecordRequest` | server.c:41-44 | requests grows by exactly 1 and received bytes by exactly n; sent unchanged |
| `Server.StatsRegistry.AddSent` | server.c:93-95 | sent bytes grows by exactly n; the other counters unchanged |
| `Server.StatsRegistry.Snapshot` | server.c:76-85 | the three counters are read together, as one consistent snapshot |
| `Server.Connection.Send` | server.c:69 | a send appends its bytes to the socket's output |
| `Server.Connection.Close` | server.c:30 | closing leaves the output as it is and marks the socket closed |
| `Server.Streamed` | server.c:117-122 | the chunks the loop sends are a prefix of the file's reads, none of them empty, and the read after them, if any, returned nothing |
| `Server.StreamedChunks` | server.c:117-122 | every streamed chunk is non-empty and at most 4096 bytes, so the total is at most 4096 per pass. A file whose reads all succeed is streamed whole |
| `Server.StreamedUpTo` | server.c:117-122 | the loop stops at read k exactly when all earlier reads returned bytes and read k returned none or was never made; then the first k reads are what it streams |
| `Server.Open` | server.c:100-103 | `open` succeeds exactly when a file exists at the path `snprintf` builds from the argument, and then yields that file |
| `Server.Exchange` | server.c:48-61 | every routed request gets at least one send, and the sent counter never moves backwards |
| `Server.ExchangeAccounted` | server.c:64-147 | the bytes a writer adds to the sent counter never exceed what it sends, and equal it exactly for the stats and calc pages; `send_file` leaves out its header and `send_404` its whole response |
| `Server.FileAccounting` | server.c:98-125 | a failed `open` gives the 404 that declares 58 bytes and counts nothing. Otherwise the header declares the size `fstat` reported, the chunks follow it, and everything but the header is counted as sent |
| `Server.Send404` | server.c:64-70 | sends the fixed 404 response, which declares `Content-Length: 58`, and touches no counter |
| `Server.SendStats` | server.c:72-96 | the page shows one snapshot taken before the call. Header and body are sent, and sent bytes grows by their total length |
| `Server.HandleCalc` | server.c:127-148 | the page shows the scanned operands and their sum. Header and body are sent, and sent bytes grows by their total length |
| `Server.SendFile` | server.c:98-125 | sends what `FileReply` gives for the outcome of `open` on the path built from the request, and grows sent bytes by what it accounts. The path is the one `FilePath` builds, with no separator after `./static` (see Findings) |
| `Server.SendOpenFile` | server.c:108-124 | after a successful `open`: the size header, then the streamed chunks. Sent bytes grows by the chunks' total only |
| `Server.Stream` | server.c:116-122 | sends the reads up to the first empty one, in order. Sent bytes grows by their total length |
| `Server.Respond` | server.c:48-61 | the writer that `Dispatch` selects answers, and the counters move as `Exchange` says; requests and received bytes stay |
| `Server.Terminate` | server.c:35-46 | after `recv` fills the buffer and the terminator is written behind the data, the bytes before the terminator are exactly the data received. The write needs the terminator to fit |
| `Server.HandleClient` | server.c:34-47 | a receive of 0 or fewer bytes sends nothing and leaves all counters unchanged. A receive of n > 0 bytes adds 1 request and n received bytes before routing. Requires the terminator at `buffer[received]` to fit |
| `Server.FullReceiveOverflows` | server.c:36-46 | `recv` with capacity 4096 may return 4096, and then the terminator does not fit |
| `Server.ClientThread` | server.c:26-32 | with `recv` capacity 4096 as written, and provided the terminator fits, the exchange is as in `HandleClient` and the socket is closed afterwards |
| `Server.FixedClientThread` | server.c:26-32 | with a receive capacity of 4095 the terminator always fits, with no further requirement. The exchange is as in `HandleClient`, and the socket is closed afterwards |

## Left out

- Socket setup, `bind`, `listen`, the accept loop and `-p` port parsing with `atoi` (server.c:150-177) are I/O plumbing. `recv` is the parameters `received` and `data`. `send` is `Connection.Send`. Partial or failed sends are not modelled.
- Threads, `pthread_detach` and the mutex are left out. Each locked region is one atomic method of `StatsRegistry`, so interleavings between threads, and a snapshot going stale before it is sent, are not modelled.
- `open`, `fstat` and `read` are replaced by a map from path to `File`. `fstat`'s size is a free value, unrelated to what the reads return.
- Integers are mathematical. C `int` overflow in the counters and in `a + b` is undefined behaviour, and so is out-of-range input to `%d`; neither is modelled.
- `Server.SendStats`: the body is never truncated at 4096 bytes. `StatsBodyFits` shows no truncation happens while the counters fit a C `int`; beyond that the C program is already undefined.
- `Server.HandleCalc`: the same holds for the calc page, by `CalcBodyFits`.
- A C `char` is modelled by a Dafny `char`. Only equality, digits and white space matter here, so the value range is not constrained.
- Routing hands `buffer + 5` to `send_file`, so its argument begins with `static/`. The 404 literal declares `Content-Length: 58` over a 93-byte body. The model keeps both as the code has them.

## Findings

| source | as written | input that shows it | evidently intended | confidence | as-written member | corrected member |
|---|---|---|---|---|---|---|
| server.c:36-46 | `recv` may fill all 4096 bytes of `buffer`, then `buffer[received] = '\0'` writes one past its end | a request of 4096 bytes or more | receive at most 4095 bytes so the terminator fits | high (not executed) | `Server.FullReceiveOverflows` | `Server.FixedClientThread` |
| server.c:100 | the path is `./static` glued to everything after `GET /static/`: no `/` between, and the blank and HTTP version are kept | `GET /static/index.html HTTP/1.1` opens `./staticindex.html HTTP/1.1` | `./static/index.html` | high (not executed) | `StaticPath.FilePathMissesSeparator` | `StaticPath.FixedFilePathOfRequest` |
| server.c:65-68 | the 404 declares `Content-Length: 58` for a 93-byte body | any unmatched request, e.g. `GET / HTTP/1.1` | declare the body's real length, 93 | high (not executed) | `Responses.NotFoundMisdeclared` | `Responses.NotFoundDeclaresBody` |

The server methods follow the code as written: `Send404` sends
`NotFoundAsWritten`, `SendFile` opens the path `FilePath` builds, and
`ClientThread` receives with capacity 4096, so it needs the terminator to
fit, which nothing before it ensures. The corrected forms stand beside them:
`NotFoundResponse`, `FixedFilePath` and `FixedClientThread`, which receives
with capacity 4095.
