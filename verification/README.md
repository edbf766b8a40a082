# coral browser core, modelled in Dafny

coral is a toy web browser. Its pipeline is in `src/browser.rs`:
- it parses a URL given on the command line;
- it sends an HTTP/1.0 `GET` over TCP or TLS;
- it reads until the response ends with `</html>\n`;
- it splits the response into status line, headers and body;
- it strips the tags from the body for display.

This project models that text-processing core. Each part keeps the form it has in the source:

- `urls.dfy`, module `Urls`: `parse_url` and `Scheme::try_from` as pure functions on strings. The `Url` record and the `Scheme` enum are datatypes.
  - The port is parsed as `u16::from_str` parses it (`ParseU16`): an optional `+`, at least one ASCII digit, leading zeros allowed, at most 65535.
- `lexer.dfy`, module `Lexer`: `lex` as a method with the source's loop, flag and output buffer. It is proved equal to a left fold (`Scan`/`Lexed`), and the fold's properties are proved as lemmas.
- `responses.dfy`, module `Responses`: `parse_response` as a method (`ParseResponse`), whose header loop and map are the method `ReadHeaders`.
  - The methods are proved equal to pure definitions (`ParseBytes`, `HeadersAndBody`).
  - The status-line, header and body properties are proved about that definition.
  - Each panic of the source (`unwrap`, out-of-bounds indexing) is an explicit `ParseError`.
- `transport.dfy`, module `Transport`: the request text both transports write, and the two read loops.
  - The socket is a finite sequence of chunks, one per read.
  - The TLS connection is a finite sequence of read attempts.
  - `Accumulated` says what a read loop holds when it stops: the chunks up to the first one after which the bytes end with `</html>\n`. `Fetch` is the parse of those bytes. Both loops are proved to read exactly `Accumulated`, and both request methods to return `Fetch`.
  - `Request` dispatches on the scheme as `request` does.
- `text.dfy` (`Text`) and `utf8.dfy` (`Utf8`): the Rust standard-library operations the core relies on. They follow Rust's definitions:
  - `find`, `split_once`, `split` (leftmost, non-overlapping);
  - `trim` (the Unicode `White_Space` set);
  - `to_lowercase`, for ASCII only;
  - collecting strings (concatenation);
  - `String::from_utf8`: the well-formed sequences of Table 3-7 of the Unicode Standard;
  - `as_bytes`.

Behaviour of the code that the model keeps:
- **Missing path.** A URL without a `/` after the authority gets the empty path.
- **Port split.** The authority is cut at its first `:` (`split_once`). The host loses the text after the `:` even when that text is not a valid port.
- **Empty host.** An empty host is accepted.
- **Header lines.** A header line is split on every `:`. The key is the lower-cased field 0, not trimmed. The value is the trimmed field 1, so a value that itself contains `:` is cut there.
- **End of stream.** The read loops have no end-of-stream or close-notify test. In the model, a stream that runs out without the terminator ends in `StreamEnded` (see Left out).
- **Rendered page.** `lex` keeps the newline after `</html>`, so `<html><body>Hi</body></html>` followed by a newline displays as `Hi` followed by a newline (`Lexer.LexHiPage`).
- **Undecodable bytes.** Invalid UTF-8 panics in the source, and is the error `InvalidUtf8` here.

## Model

| member | source | states |
|---|---|---|
| Urls.SchemeFromStr | src/browser.rs:200-209 | `Ok` only for the exact, case-sensitive names `"http"`/`"https"`, and the scheme's name is the input. Any other text is `UnknownScheme(text)`, and no scheme has that name. |
| Urls.SchemeNameRoundTrip | src/browser.rs:200-209 | Each scheme's name converts back to that scheme. |
| Urls.ParseU16Accepts | src/browser.rs:47 | `ParseU16`, the port parse, gives `n` exactly when `n` is below 65536 and the text is an optional `+`, then any number of `0`s, then `n` in decimal. Every other text is rejected. |
| Urls.DigitsSplit | src/browser.rs:47 | Every non-empty digit string is some leading zeros followed by the decimal rendering of its value. |
| Urls.ZerosValue | src/browser.rs:47 | Leading zeros do not change the value of a digit string. |
| Urls.ParseU16Decimal | src/browser.rs:47 | Every 16-bit number written in decimal parses back to itself, with or without a leading `+`. |
| Urls.AuthorityAndPath | src/browser.rs:42-44 | Authority and path concatenate back to the text after `://`. The authority holds no `/`. The path is empty or starts with `/`. |
| Urls.AuthorityAndPathUnique | src/browser.rs:42-44 | Any `/`-free authority followed by an empty or `/`-led path is split back into exactly those two parts. |
| Urls.HostAndPort | src/browser.rs:46-51 | The host holds no `:`. Without a `:` the host is the whole authority and there is no port. With one, the host is the text before the first `:` and the port is `ParseU16` of the text after it. |
| Urls.HostAndPortWithColon | src/browser.rs:46-51 | `host + ":" + text` gives `host`, and `text`'s parse as the port, even when it fails to parse. |
| Urls.ParseUrl | src/browser.rs:38-59 | `MissingSchemeSeparator` exactly when `://` does not occur. An unknown scheme is reported with the text before the first `://`. On success, the scheme's name is the text before the first `://`, and path, host and port come from the two splits of the text after it. |
| Urls.ParsedIsWellFormed | src/browser.rs:42-51 | A parsed URL has a host without `:` or `/`, and a path that is empty or starts with `/`. |
| Urls.ParseUrlAfterScheme | src/browser.rs:41-58 | For a `:`-free scheme text, the parse of `name://rest` is the scheme conversion of `name` combined with the two splits of `rest`. |
| Urls.ParseFormatUrl | src/browser.rs:38-59 | Round trip: a well-formed URL, written out, parses back to itself. |
| Urls.ParseUrlWithColon | src/browser.rs:41-51 | `name://host:port/path`, with no `:` in name or host, gives the scheme of `name`, that host, the port text's parse (possibly none) and that path; an unknown name gives its error. |
| Urls.ParseUrlWithoutColon | src/browser.rs:41-51 | `name://authority/path` with no `:` in the authority gives the whole authority as host and no port. |
| Urls.ParseUrlWithPort | src/browser.rs:38-59 | `http://example.org:8080/index.html` gives host `example.org`, port 8080 and path `/index.html`. |
| Urls.ParseUrlWithoutPath | src/browser.rs:42-44 | `https://example.org` gives the empty path. |
| Urls.ParseUrlBadPort | src/browser.rs:46-51 | `http://h:x/` gives host `h` and no port. |
| Urls.ParseUrlUnknownScheme | src/browser.rs:200-209 | `ftp://x/y` fails with `UnknownScheme("ftp")`. |
| Urls.ParseUrlNoSeparator | src/browser.rs:41 | Text without `://` fails with `MissingSchemeSeparator`. |
| Lexer.Lex | src/browser.rs:61-74 | The loop returns `Lexed(body)`, the fold that defines `lex`, which contains no `<` or `>` and is no longer than the body. |
| Lexer.LexedNoAngles | src/browser.rs:65-71 | The output contains no `<` and no `>`. |
| Lexer.LexedSubsequence | src/browser.rs:64-72 | The output is a subsequence of the input: characters are only dropped, never reordered or added. |
| Lexer.LexedLength | src/browser.rs:61-74 | The output is never longer than the input. |
| Lexer.LexedPlain | src/browser.rs:69-71 | Text without angle brackets is returned unchanged. |
| Lexer.LexedIdempotent | src/browser.rs:61-74 | Stripping twice is stripping once. |
| Lexer.ScanAppend | src/browser.rs:64-72 | Scanning `s + t` is scanning `t` from the state `s` left. |
| Lexer.UnclosedTag | src/browser.rs:65-66 | After a `<` that no `>` follows, nothing more is output. |
| Lexer.ClosedTag | src/browser.rs:65-68 | A complete tag outputs nothing and leaves the scan outside a tag, whatever came before. |
| Lexer.PlainAfter | src/browser.rs:69-71 | Bracket-free text read outside a tag is appended to the output as is. |
| Lexer.TwoTags | src/browser.rs:61-74 | Bracket-free text around two tags is returned with the tags removed: `lex(a<t1>b<t2>c) == a + b + c`. |
| Lexer.TagThenText | src/browser.rs:64-72 | A whole tag followed by bracket-free text adds just that text to the output. |
| Lexer.Nested | src/browser.rs:61-74 | Bracket-free text inside two tags, followed by a bracket-free trailer, renders as the text and the trailer. |
| Lexer.LexHiPage | src/browser.rs:61-74 | `lex("<html><body>Hi</body></html>\n") == "Hi\n"`: the newline after the closing tag is kept. |
| Lexer.LexExample | src/browser.rs:61-74 | `lex("a<b>c</b>d") == "acd"`. |
| Lexer.LexMarkupOnly | src/browser.rs:61-74 | `lex("<a><b>") == ""`. |
| Text.Find | src/browser.rs:42 | `find` returns the first occurrence, and `None` exactly when the pattern does not occur. |
| Text.SplitOnce | src/browser.rs:41 | `split_once` returns `None` exactly when the pattern does not occur. Otherwise the input is `before + pattern + after`, at the first occurrence. |
| Text.SplitJoinsBack | src/browser.rs:79 | The pieces of `split` joined with the separator give back the input, and no piece contains the separator. |
| Text.SplitJoin | src/browser.rs:79 | For a separator with no border (such as `"\r\n"`), splitting separator-free pieces joined by it gives back the pieces. |
| Text.SplitCount | src/browser.rs:83-84 | Splitting on a character gives one more piece than it has occurrences. |
| Text.SplitInTwo | src/browser.rs:97-98 | Splitting on `c` gives at least two pieces exactly when `c` occurs. |
| Text.Trim | src/browser.rs:93 | `trim` returns a result with no whitespace at either end, no longer than its input. The result is empty exactly when the input is all whitespace. |
| Text.TrimPadded | src/browser.rs:99 | Trimming whitespace padding off a text with non-whitespace ends gives that text. |
| Text.LowerLetters | src/browser.rs:99 | `ToLowerAscii` keeps the length. Each capital `A`-`Z` becomes the small letter at the same place in the alphabet, and every other character is kept. |
| Text.LowerNoCapitals | src/browser.rs:99 | Text without capitals is left as it is. |
| Text.LowerAppend | src/browser.rs:99 | ASCII lower-casing distributes over concatenation. |
| Text.LowerIdempotent | src/browser.rs:99 | A lower-cased key has no capitals, and lower-casing it again changes nothing. |
| Text.ConcatSnoc | src/browser.rs:102 | Concatenating pieces grows piece by piece at the end. |
| Utf8.DecodeEncode | src/browser.rs:77 | Decoding the bytes of any string gives that string back. |
| Utf8.EncodeAppend | src/browser.rs:170 | The bytes of `a + b` are the bytes of `a` followed by those of `b`. |
| Utf8.EncodeDecode | src/browser.rs:77 | Bytes that `Decode` accepts are exactly the encoding of what they decode to. |
| Responses.ParseResponse | src/browser.rs:76-103 | Decoding, splitting into lines, indexing the status line and reading the headers return `ParseBytes(response)`, including each error. |
| Responses.ReadHeaders | src/browser.rs:88-102 | The header loop returns `HeadersAndBody(rest)`: the map of the lines before the first whitespace-only line, or the first header line's error, and the later lines concatenated as the body. |
| Responses.InsertHeader | src/browser.rs:97-99 | One pass of the header loop: the map gains the line's lower-cased key with its trimmed value, or the result is the line's error when it has no `:`. |
| Responses.FirstBlank | src/browser.rs:89-95 | Header reading stops at the first whitespace-only line, or at the end when there is none. |
| Responses.HeaderEntry | src/browser.rs:97-99 | A header line fails exactly when it has no `:`, with `HeaderWithoutColon(line)`. |
| Responses.HeaderEntryText | src/browser.rs:97-99 | For `key:value` optionally followed by `:...`, the key is the lower-cased, untrimmed text before the first `:`. The value is the trimmed text up to the second `:`. |
| Responses.InsertEntriesLastWins | src/browser.rs:89-100 | After inserting in order, every line's key is present. Each key maps to the value of the last line carrying it. |
| Responses.InsertEntriesError | src/browser.rs:89-100 | Insertion fails exactly when some line fails, with the first failing line's error. |
| Responses.HeaderMapLastWins | src/browser.rs:88-100 | For header lines: a later duplicate key overwrites an earlier one, and every line's key is in the map. |
| Responses.HeaderMapError | src/browser.rs:97-98 | The headers fail exactly when some header line has no `:`. The error names the first such line. |
| Responses.HeaderMapPrefixErr | src/browser.rs:97-98 | Once a header line has failed, the lines after it do not change the outcome. |
| Responses.StatusFieldsMissing | src/browser.rs:80-86 | `StatusLine` reports a missing field exactly when it holds fewer than two spaces. |
| Responses.StatusFields | src/browser.rs:80-86 | Version, status and reason hold no space. The status line starts with them joined by single spaces, followed by nothing or by a space, so text after a third space is not part of the reason. |
| Responses.StatusLineText | src/browser.rs:80-86 | Three space-free fields joined by spaces are read back as version, status and reason. |
| Responses.HeadersAndBodyText | src/browser.rs:88-102 | `HeadersAndBody`: header lines, an empty line, then body lines give the map of the header lines and the body lines concatenated with no separator. |
| Responses.ParseResponseText | src/browser.rs:76-103 | Round trip: a response assembled from status fields, header lines and body lines, joined by CRLF, parses back to those fields, that map and the concatenated body. |
| Responses.ParseOneHeader | src/browser.rs:76-103 | A status line, one header line with a `:`, an empty line and one body line parse to those fields, the map of that header and that body line. |
| Responses.ParseEncoded | src/browser.rs:77 | Parsing the bytes of a text is parsing the text. |
| Responses.ParseExampleResponse | src/browser.rs:76-103 | `HTTP/1.0 200 OK`, `Content-Type: text/html`, an empty line and `<html>hi</html>\n` give `{"content-type": "text/html"}` and that body. |
| Transport.TerminatorText | src/browser.rs:179 | The terminator bytes are the encoding of `</html>\n`. |
| Transport.RequestLines | src/browser.rs:170 | Without carriage returns in path and host, `RequestText` is the request line, the Host line and two empty lines. |
| Transport.RequestLineFields | src/browser.rs:170 | A space-free path gives a request line whose three fields are `GET`, the path and `HTTP/1.0`. |
| Transport.HostLine | src/browser.rs:170 | The Host line is read back as key `host` with the host as value. |
| Transport.HostHeader | src/browser.rs:170 | The Host line alone yields the header map `{"host": host}`. |
| Transport.RequestReadBack | src/browser.rs:132 | The request bytes decode to the request text. Read with the response grammar, that text gives back the path and the host. |
| Transport.ConcatPrefix | src/browser.rs:178 | What the loop holds after `k` chunks is a prefix of everything sent. |
| Transport.ConsumedFrom | src/browser.rs:175-182 | Reading on from chunk `k` stops at the first later chunk after which the bytes end with `</html>\n`, or at the end of the input. |
| Transport.ConsumedUnique | src/browser.rs:175-182 | The stopping point is the only one that ends with the terminator (or at the end of the input) with no earlier chunk doing so. |
| Transport.AccumulatedStops | src/browser.rs:179-181 | Once the bytes end with the terminator, chunks sent afterwards change neither where reading stops nor what was read. |
| Transport.AccumulatedAll | src/browser.rs:175-182 | A stream that never completes the terminator is read to its end. |
| Transport.AccumulatedFirstChunk | src/browser.rs:175-182 | A first chunk that is `</html>\n` itself is all that is read; the chunk after it is never read. |
| Transport.ReadPlain | src/browser.rs:175-182 | The loop reads exactly `Accumulated(chunks)`, the chunks up to the first one after which the bytes end with `</html>\n`, or all of them. No earlier chunk completes the terminator. |
| Transport.DeliveredStep | src/browser.rs:143-151 | A failed TLS read adds nothing; a successful one adds its plaintext. |
| Transport.DeliveredAppend | src/browser.rs:143-151 | What two runs of read attempts deliver, one after the other, is what each delivers, in order. |
| Transport.ReadTls | src/browser.rs:136-160 | The loop reads exactly `Accumulated` of the delivered plaintext. The terminator is tested only after a successful read. It stops after the first such read that leaves the bytes ending with `</html>\n`, and otherwise only at the end of the input. |
| Transport.FetchEnded | src/browser.rs:175-184 | `Fetch`, the parse of `Accumulated(stream)` when it ends with the terminator, is `StreamEnded` exactly when no prefix of the stream ends with the terminator. |
| Transport.FetchIgnoresLater | src/browser.rs:179-181 | Chunks sent after the response is complete never change the result. |
| Transport.FetchOneChunk | src/browser.rs:175-184 | A response sent in one chunk ending with the terminator is parsed whole. |
| Transport.EncodedPageComplete | src/browser.rs:179 | Text ending with `</html>\n` encodes to bytes the loops accept as complete. |
| Transport.FetchPage | src/browser.rs:175-184 | A response with one header line and a page ending with `</html>\n`, sent in one chunk, gives its version, status, reason, that header and the page. |
| Transport.FetchHiPage | src/browser.rs:167-185 | A plaintext example: `HTTP/1.0 200 OK`, `Host: x`, an empty line and `<html><body>Hi</body></html>\n` give headers `{"host": "x"}` and that page as body. |
| Transport.HttpRequest | src/browser.rs:167-185 | Writes the request bytes and reads `Accumulated(chunks)`. The result is `Fetch(chunks)`: the parse of those bytes when they end with the terminator, otherwise `StreamEnded`. |
| Transport.HttpsRequest | src/browser.rs:106-165 | Writes the same request bytes as the plain transport and reads `Accumulated` of the delivered plaintext. The result is `Fetch` of that plaintext. |
| Transport.Request | src/browser.rs:187-192 | Both schemes write the same bytes. `http` gives `Fetch` of the socket chunks, `https` gives `Fetch` of the plaintext the TLS reads deliver. |

## Left out

- `Browser::new`, the fltk window and text buffer, and `env::args` (src/browser.rs:15-36) are GUI and process I/O. `src/main.rs` has no logic.
- Sockets are not modelled: `TcpStream::connect`, the writes, and the hard-coded ports 80 and 443. The parsed port is never used by the source. The request's bytes are returned rather than written.
- `fill_buf().unwrap()` panics on a read error. Each chunk of the model is a successful read.
- End of stream: `fill_buf` then returns empty slices and the source loops forever. Sequences here are finite, so the model's loops also stop when the input runs out, and the request then ends in `StreamEnded`. No such state exists in the source.
- rustls is not modelled: the root store, configuration, handshake, and `wants_read`, `wants_write`, `read_tls`, `process_new_packets`, `write_tls`. Each TLS read attempt is reduced to its outcome: plaintext, or a failure whose partial bytes are dropped as the source's `continue` drops them. Passes that read nothing are not represented, since they change nothing.
- Text.LowerLetters: lower-casing is ASCII only; Rust's `to_lowercase` also maps non-ASCII capitals, and keys with such characters are not modelled faithfully.
- Responses.HeaderEntry: the key is lower-cased only in ASCII (see `Text.ToLowerAscii`).
- `HashMap` hashing and iteration order are not modelled; headers are a Dafny `map`.
- The source returns only headers and body. The model's `Response` also keeps version, status and reason, so that what the source indexes can be stated.
- The position and kind of a UTF-8 error are not modelled; the error is the single `InvalidUtf8`.
