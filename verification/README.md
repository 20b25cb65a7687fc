# c-web connection pipeline in Dafny

A model of the per-connection request pipeline of c-web, a minimal static-file
HTTP server written in C. For one client connection, `connection` reads the
request line with `receive_new`, cuts it at the first `" HTTP/"`, accepts only
`GET `, turns the target into a path by putting `./` in front of it (after
appending `index.html` to a target ending in `/`; `..` is not normalised away),
classifies the target by the text after
its first `.` against a six-row extension table, and sends one of three
replies: 200, 404 or 415.

The model works on `string` (`seq<char>`). Each operation is a pure function,
and the two loops (`receive_new` and the table scan) are also written as
methods that follow the C loops step by step:

| module | file | models |
|---|---|---|
| `Wrappers` | wrappers.dfy | `Option`, for C's NULL / not-found results |
| `CStrings` | cstrings.dfy | the NUL-terminated view of a buffer, `strchr`, `strstr` |
| `Framing` | framing.dfy | `receive_new`: byte-by-byte line framing and its return value |
| `RequestLine` | request_line.dfy | the `" HTTP/"` cut and the `"GET "` prefix test |
| `Resource` | resource.dfy | default document, `"./"` prefix, first-dot extension |
| `MediaTypes` | media_types.dfy | the `extensions` table and first-match lookup |
| `Response` | response.dfy | the three replies, their fixed texts, the table scan with its `size - 2` sentinel |
| `Connection` | connection.dfy | the whole of `connection` as `Handle(input, canOpen)` |
| `Scenarios` | scenarios.dfy | concrete requests and their outcomes |

The bytes the client sends are the parameter `input`; the client is taken to
close the connection after them. Whether `open` of the resolved path succeeds is
the parameter `canOpen`, so the choice between 200 and 404 is a pure function.

Inputs on which the C code has undefined behaviour get the distinct outcome
`Undefined(...)` and no invented behaviour:

- `UnterminatedRequest`: the client closes before any CR LF and sent no NUL byte.
  `receive_new` returns 0 without writing a terminator, `connection` only logs
  "Receive failed" and goes on to read the buffer (c-web.c:119-123). If a NUL
  byte was among the bytes read, the buffer is terminated there and the C code
  is well defined, so the model carries on with the text before that NUL.
- `EmptyTarget`: `GET  HTTP/...` leaves an empty target and
  `ptr[strlen(ptr) - 1]` indexes with `(size_t)-1` (c-web.c:141).
- `NoExtension`: a target with no `.` makes `strchr` return NULL, and
  `s + 1` is then passed to `strcmp` (c-web.c:148-151).

The C functions stop at the first NUL byte, so a line that contains a NUL is
handled as the text before it (`CStrings.CString`).

Behaviour of the code worth noting:

- The extension is the text after the first `.`, found with `strchr`
  (c-web.c:148), so `/a.tar.gz` has extension `tar.gz` and gets 415.
- A target with no `.` gives `strchr` a NULL result, and `s + 1` is then
  compared (c-web.c:148-151): undefined behaviour, not a 415.
- `receive_new` returning 0 is only logged (c-web.c:119-121); `connection`
  goes on to read the buffer whether or not a line was received.
- The 200 header is `Server: c-web` (c-web.c:160); 404 and 415 send
  `Server : c-web` (c-web.c:103, 111).
- The 415 test `i == size - 2` (c-web.c:185-186) fires on the last real row:
  `size` counts the NULL row, and a match breaks out before the test, so 415
  is sent exactly when no row matched (`Response.SelectReply`).
- The opened path is `./` followed by the target (c-web.c:144-146), so a
  target starting with `/` gives a double slash: `GET /index.html` opens
  `.//index.html`. A target without a leading `/` is opened too:
  `GET a.txt` opens `./a.txt`.
- `receive_new` returns `i - 2` (c-web.c:76), one less than the line length,
  although its comment speaks of the length: `a\r\n` returns 0 and `\r\n`
  returns -1. The value only decides whether "Receive failed" is logged.

## Model

| member | source | states |
|---|---|---|
| Framing.FindLineEnd | c-web.c:69-79 | the scan finds the first index `i > 0` whose byte is `\n` and whose previous byte is `\r`, and none before it; None when there is none |
| Framing.Receive | c-web.c:67-83 | the reader ends with a line exactly when a CR LF occurs; the line is the bytes before the `\r` of the first CR LF; otherwise every byte is read and nothing is terminated |
| Framing.ReceiveNew | c-web.c:67-83 | the byte-by-byte loop as written computes `Receive`, and returns `i - 2` (the line length minus one) on a line and 0 at EOF |
| Framing.StopsAtFirstLineEnd | c-web.c:69-79 | a line without CR LF of its own, followed by CR LF, is received as that line whatever bytes follow |
| Framing.BareLineFeedContinues | c-web.c:71-79 | a `\n` at index 0 or after a byte other than `\r` does not end the line: reading continues and a later line contains it |
| Framing.OneByteLineReturnsZero | c-web.c:71-82 | any one-character line, `a\r\n` or `\r\r\n` alike, returns 0, the same value as EOF |
| Framing.EmptyLineReturnsMinusOne | c-web.c:73-76 | the empty line `\r\n` returns -1 and an empty request |
| CStrings.CString | c-web.c:75 | the text C functions see is the buffer up to its first NUL; it holds no NUL and is a prefix of the buffer |
| CStrings.IndexOf | c-web.c:148 | `strchr`: None exactly when the character is absent; otherwise the index of its first occurrence |
| CStrings.Find | c-web.c:123 | `strstr`: None exactly when the pattern occurs nowhere; otherwise its first occurrence |
| RequestLine.Parse | c-web.c:123-138 | "not an HTTP request" exactly when `" HTTP/"` does not occur; GET exactly when the text before the first occurrence starts with `GET `, and then the target is that text minus its four-character tag; otherwise "unknown request type" |
| RequestLine.ParseAt | c-web.c:127-135 | once the first `" HTTP/"` is at `k`, the outcome is decided by the `GET ` prefix of the first `k` characters alone |
| RequestLine.TailIgnored | c-web.c:123-129 | replacing everything after the first `" HTTP/"` by any text gives the same parse |
| RequestLine.GetTagIff | c-web.c:132 | `<method> <rest>` passes the four-character `strncmp` exactly when the method is `GET` |
| RequestLine.ShortPrefixUnknown | c-web.c:132-138 | a text before the marker shorter than `GET ` is an unknown request type |
| Resource.WithDefaultDocument | c-web.c:141-143 | the result extends the target, is the target or the target plus `index.html`, and never ends in `/` |
| Resource.DefaultDocumentOnce | c-web.c:141-143 | `index.html` is appended exactly when the target ends in `/`, and applying the rule again changes nothing |
| Resource.ResourcePath | c-web.c:141-146 | the path is `./` plus the target plus `index.html` when the target ends in `/`, and `./` plus the target otherwise |
| Resource.Extension | c-web.c:148-151 | None exactly when the target has no `.`; otherwise the text after the first `.` |
| Resource.ExtensionAfterFirstDot | c-web.c:148-151 | the extension of `name.ext`, with no dot in `name`, is all of `ext`, further dots included |
| MediaTypes.Lookup | c-web.c:150-151 | None exactly when no row's extension equals the text; otherwise the media type of the first equal row |
| MediaTypes.LookupAt | c-web.c:150-151 | a row that matches with no match before it is the one the lookup returns |
| MediaTypes.DistinctLookup | c-web.c:33-41 | in a table with no repeated extension every row's extension selects that row's media type |
| MediaTypes.KnownExtensions | c-web.c:33-41 | gif, txt, htm, html, js and css select image/gif, text/plain, text/html, text/html, text/javascript and text/css |
| MediaTypes.ListedHasNoDot | c-web.c:33-41 | no extension in the table contains a dot |
| MediaTypes.UnlistedExamples | c-web.c:150-151 | lookup is exact and case-sensitive: `GIF`, `Html`, `tar.gz` and the empty text match nothing |
| Response.ChooseReply | c-web.c:150-160 | 415 exactly when no row matches; 404 exactly when a row matches and the open fails; 200 carries the matching row's media type |
| Response.ListedReply | c-web.c:152-160 | a listed extension gets 200 with its media type when the open succeeds and 404 when it fails |
| Response.SelectReply | c-web.c:150-189 | the scan as written, with its `i == size - 2` test, sends exactly one reply, the one `ChooseReply` names, and calls `open` exactly when a row matches, so never on a 415 |
| Response.Opens | c-web.c:150-152 | `open` is reached exactly when some row's extension equals the text, that is, exactly when the reply is not 415 |
| Response.StatusLineParses | c-web.c:102 | a status line is read back by a client as its three-digit code |
| Response.StatusLineOf | c-web.c:100-114 | each reply's status line reads back as its code: 404 (line 102), 415 (line 110), 200 (line 159) |
| Response.Messages | c-web.c:100-114 | the `send_msg` strings of a reply: two for 200 (c-web.c:159-160), four for 404 and 415; the first reads back as the reply's code; the second is `Server: c-web` and a blank line for 200, `Server : c-web` and a blank line for 404 and 415 |
| Response.OkTexts | c-web.c:159-160 | a 200 sends `HTTP/1.1 200 OK` and `Server: c-web`, each with its CR LFs, whatever the media type |
| Response.NotFoundTexts | c-web.c:100-106 | a 404 sends its status line, `Server : c-web`, and the two HTML strings of the "404 Not found" page, byte for byte |
| Response.UnsupportedTexts | c-web.c:108-114 | a 415 sends its status line, `Server : c-web`, and the two HTML strings of the "415 Unsupported media type" page, byte for byte |
| Response.OkTextIgnoresMediaType | c-web.c:157-160 | the media type of a 200 is only logged: every 200 sends the same text |
| Connection.RequestText | c-web.c:119-123 | the request text is undefined exactly when the client closed before CR LF with no NUL read; otherwise it is the received line, or every byte read, cut at the first NUL |
| Connection.Serve | c-web.c:139-188 | an empty target is undefined; otherwise there is a reply exactly when the resolved target has a `.`, and without one the outcome is `NoExtension`; a reply names the path `./` plus the resolved target and is the reply `ChooseReply` gives its extension and the open result, so 415 exactly when no row matches; the path is opened exactly when the reply is not 415 |
| Connection.Handle | c-web.c:116-194 | the outcome is "unterminated" exactly when no CR LF and no NUL arrive; otherwise it is "not an HTTP request" exactly when the request text has no `" HTTP/"`, "unknown request type" exactly when the text before it does not start with `GET `, and for a GET it is `Serve` of the parsed target; a reply always names a path that starts with `./` |
| Connection.OpenMattersOnlyOnMatch | c-web.c:150-188 | the open result never decides whether there is a reply; where it matters the file was opened, and it only turns a 200 into a 404; a 415 never opens the file and is the same whatever the open would give |
| Connection.OpenedPathHasNoParent | c-web.c:144-152 | a path that is opened never contains `..`: the matching extension has no dot, so the target's only dot is its first one (a 415 path may contain `..`) |
| Connection.NoParentStep | c-web.c:144-146 | `./` followed by a name with exactly one dot contains no `..` |
| Connection.ServeNamedFile | c-web.c:141-151 | `name.ext` with no dot in `name` and not ending in `/` opens `./name.ext` and is classified by all of `ext`, which may be empty |
| Connection.ServeDirectoryTarget | c-web.c:141-151 | a directory target ending in `/` with no dot opens `./` plus the target plus `index.html` and is classified as `html` |
| Connection.MarkerAfterTarget | c-web.c:123 | in `<method> <target> HTTP/<version>`, with a target free of spaces that does not itself start with `HTTP/`, the first `" HTTP/"` is the one after the target |
| Connection.ParseRequestLine | c-web.c:123-138 | that line has no CR LF and no NUL and parses as a GET of the target exactly when the method is `GET` |
| Connection.WellFormedRequest | c-web.c:116-146 | `<method> <target> HTTP/<version>\r\n` followed by any bytes is served for the target when the method is GET and is an unknown request type otherwise |
| Connection.RequestWithoutVersion | c-web.c:123-125 | `GET <target>\r\n` is not an HTTP request and gets no reply |
| Scenarios.ServeIndexHtml | c-web.c:141-160 | `/index.html` opens `.//index.html`, text/html with 200 if it opens, else 404 |
| Scenarios.ServeDirectory | c-web.c:141-143 | `/` opens `.//index.html` and is classified as text/html |
| Scenarios.ServeUnknownExtension | c-web.c:150-188 | `/file.unknownext` gets 415 without opening the file, whether or not it exists |
| Scenarios.ServeTarGz | c-web.c:148-151 | `/a.tar.gz` has extension `tar.gz` and gets 415 |
| Scenarios.ServeDottedDirectory | c-web.c:141-151 | `/v1.2/` resolves to `.//v1.2/index.html`, whose extension `2/index.html` gets 415, and nothing is opened |
| Scenarios.ServeUpperCase | c-web.c:151 | `/a.GIF` gets 415: matching is case-sensitive |
| Scenarios.ServeTrailingDot | c-web.c:148-188 | `/a.` has the empty extension, which matches no row, and gets 415 |
| Scenarios.ServeNestedDirectory | c-web.c:141-160 | `/docs/` opens `.//docs/index.html`, text/html with 200 if it opens, else 404 |
| Scenarios.ServeRelativeTarget | c-web.c:144-160 | `a.txt` opens `./a.txt`, text/plain with 200 if it opens, else 404 |
| Scenarios.ServeWithoutDot | c-web.c:148-151 | `/README` is undefined behaviour, not 415 |
| Scenarios.IndexHtmlRequest | c-web.c:116-160 | `GET /index.html HTTP/...` opens `.//index.html` and is 200 text/html when it opens and 404 otherwise, for any version text without CR or NUL and any trailing bytes |
| Scenarios.DirectoryRequest | c-web.c:116-160 | `GET / HTTP/...` serves `.//index.html` |
| Scenarios.UnknownExtensionRequest | c-web.c:116-188 | `GET /file.unknownext HTTP/...` gets 415 without opening the file, for any version text without CR or NUL |
| Scenarios.RelativeTargetRequest | c-web.c:116-160 | `GET a.txt HTTP/...` opens `./a.txt` and is text/plain with 200 or a 404, for any version text without CR or NUL and any trailing bytes |
| Scenarios.EmptyTargetRequest | c-web.c:139-141 | `GET  HTTP/...` is undefined behaviour |
| Scenarios.PostRequest | c-web.c:132-138 | `POST <target> HTTP/...` is an unknown request type and gets no reply |
| Scenarios.BareLineFeedRequest | c-web.c:69-82 | `GET /a.txt HTTP/1.1\n` never completes a line, so the buffer is left unterminated |

## Left out

- `main` (c-web.c:196-240): socket creation, bind, listen, accept, the port argument and fork-per-connection. This is OS plumbing and concurrency; each connection is modelled on its own.
- `webroot` (c-web.c:85-97): configuration-file I/O whose only call is commented out (c-web.c:145); the model uses the `./` prefix the code uses.
- `get_file_size` and the `sendfile` loop with its EINTR/EAGAIN retries (c-web.c:49-56, 162-181): kernel I/O. A 200 is modelled by its status line and header only; the file bytes are not modelled. `get_file_size` returns 1 on error, so the check at c-web.c:165 fires only when the `(int)` cast at c-web.c:54 truncates a file size to -1.
- `send_msg` (c-web.c:59-64), the `printf`/`fprintf` logging, `close` and `shutdown` (c-web.c:190, 193): side-effecting calls. A reply is modelled as the sequence of strings passed to `send_msg`; log lines, including "Receive failed", are not modelled.
- A client that neither sends CR LF nor closes the connection: `recv` at c-web.c:69 has no time-out and blocks forever. The model takes the bytes sent as finite and followed by the client closing.
- `recv` returning -1: the loop at c-web.c:69 treats it like a byte read without writing one; the model reads a byte sequence that ends in EOF.
- The fixed 1024-byte buffers and the overflow of `recv`, `strcat` and `strcpy` beyond them (c-web.c:117, 142, 146): C memory-safety hazards; the model has no length bound.
- `connection`'s return value: it is -1 only after a failed `sendfile` and is otherwise missing; the caller ignores it.
- `open` is a boolean parameter `canOpen` for the resolved path, not a file system.
- `Response.ParseStatusCode` is a client's reading of a status line, used only to state that each reply's status line carries its code.
