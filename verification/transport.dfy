/** The request side of `http_request`, `https_request` and `request`
    (src/browser.rs:106-192): the request text both transports send, and
    the loops that append what the server sends until the accumulated bytes
    end with "</html>\n". The socket is a finite sequence of chunks, one per
    read; the TLS connection is a finite sequence of read attempts. The
    source loops have no end-of-stream test, so running out of chunks is a
    modelling guard: it ends the model's loop with `StreamEnded`, where the
    source would go on reading empty chunks forever. */
module Transport {
  import opened Wrappers
  import opened Text
  import opened Utf8
  import opened Urls
  import opened Responses

  /** The bytes of "</html>\n", the only end-of-response test. */
  const Terminator: seq<byte> := [0x3C, 0x2F, 0x68, 0x74, 0x6D, 0x6C, 0x3E, 0x0A]

  lemma TerminatorText(text: string)
    requires text == "</html>\n"
    ensures Encode(text) == Terminator
  {
    EncodeAscii(text);
    var b := AsciiBytes(text);
    assert |b| == |Terminator|;
    forall i | 0 <= i < |b| ensures b[i] == Terminator[i] {
      assert b[i] as int == text[i] as int;
    }
  }

  predicate EndsWith(s: seq<byte>, suffix: seq<byte>) {
    |suffix| <= |s| && s[|s| - |suffix|..] == suffix
  }

  /** The loops stop once the accumulated bytes end with the terminator. */
  predicate Complete(response: seq<byte>) {
    EndsWith(response, Terminator)
  }

  /** The request both transports write:
      "GET {path} HTTP/1.0\r\nHost: {host}\r\n\r\n". */
  function RequestText(url: Url): string {
    "GET " + url.path + " HTTP/1.0" + CRLF + "Host: " + url.host + CRLF + CRLF
  }

  function RequestBytes(url: Url): seq<byte> {
    Encode(RequestText(url))
  }

  /** The request line, the Host line and two empty lines, when neither
      path nor host holds a carriage return. */
  lemma RequestLines(url: Url)
    requires '\r' !in url.path && '\r' !in url.host
    ensures Split(RequestText(url), CRLF)
            == ["GET " + url.path + " HTTP/1.0", "Host: " + url.host, "", ""]
  {
    var requestLine := "GET " + url.path + " HTTP/1.0";
    var hostLine := "Host: " + url.host;
    var pieces := [requestLine, hostLine, "", ""];
    assert Join(pieces[3..], CRLF) == "";
    assert Join(pieces[2..], CRLF) == "" + CRLF + "";
    assert Join(pieces[1..], CRLF) == hostLine + CRLF + ("" + CRLF + "");
    assert Join(pieces, CRLF) == RequestText(url);
    CrlfUnbordered();
    NoCarriageReturn(requestLine);
    NoCarriageReturn(hostLine);
    NoCarriageReturn("");
    SplitJoin(pieces, CRLF);
  }

  /** Read back with the line grammar of the response parser, the request
      gives back what was sent: "GET", the path and "HTTP/1.0" as the three
      fields of its first line, and the host under the key "host". */
  lemma RequestReadBack(url: Url)
    requires '\r' !in url.path && ' ' !in url.path
    requires '\r' !in url.host && ':' !in url.host
    requires url.host == [] || (!IsWhitespace(url.host[0]) && !IsWhitespace(url.host[|url.host| - 1]))
    ensures Decode(RequestBytes(url)) == Some(RequestText(url))
    ensures var lines := Split(RequestText(url), CRLF);
            |lines| == 4
            && StatusLine(lines[0]) == Ok(("GET", url.path, "HTTP/1.0"))
            && HeaderMap([lines[1]]) == Ok(map["host" := url.host])
            && lines[2] == "" && lines[3] == ""
  {
    DecodeEncode(RequestText(url));
    RequestFields(url);
  }

  lemma RequestFields(url: Url)
    requires '\r' !in url.path && ' ' !in url.path
    requires '\r' !in url.host && ':' !in url.host
    requires url.host == [] || (!IsWhitespace(url.host[0]) && !IsWhitespace(url.host[|url.host| - 1]))
    ensures var lines := Split(RequestText(url), CRLF);
            |lines| == 4
            && StatusLine(lines[0]) == Ok(("GET", url.path, "HTTP/1.0"))
            && HeaderMap([lines[1]]) == Ok(map["host" := url.host])
            && lines[2] == "" && lines[3] == ""
  {
    var lines := Split(RequestText(url), CRLF);
    var requestLine, hostLine := "GET " + url.path + " HTTP/1.0", "Host: " + url.host;
    assert |lines| == 4 && lines[0] == requestLine && lines[1] == hostLine
           && lines[2] == "" && lines[3] == "" by {
      RequestLines(url);
    }
    assert StatusLine(requestLine) == Ok(("GET", url.path, "HTTP/1.0")) by {
      RequestLineFields(url.path);
    }
    assert HeaderMap([hostLine]) == Ok(map["host" := url.host]) by {
      HostHeader(url.host);
    }
  }

  /** The Host line alone makes the header map {"host": host}. */
  lemma HostHeader(host: string)
    requires ':' !in host
    requires host == [] || (!IsWhitespace(host[0]) && !IsWhitespace(host[|host| - 1]))
    ensures HeaderMap(["Host: " + host]) == Ok(map["host" := host])
  {
    HostLine(host);
    HeaderMapOne("Host: " + host);
  }

  /** The request line splits into "GET", the path and "HTTP/1.0". */
  lemma RequestLineFields(path: string)
    requires ' ' !in path
    ensures StatusLine("GET " + path + " HTTP/1.0") == Ok(("GET", path, "HTTP/1.0"))
  {
    assert "GET " + path + " HTTP/1.0" == "GET" + " " + path + " " + "HTTP/1.0";
    StatusLineText("GET", path, "HTTP/1.0");
  }

  /** The Host line gives the key "host" and the host itself. */
  lemma HostLine(host: string)
    requires ':' !in host
    requires host == [] || (!IsWhitespace(host[0]) && !IsWhitespace(host[|host| - 1]))
    ensures HeaderEntry("Host: " + host) == Ok(("host", host))
  {
    var value := " " + host;
    assert "Host: " + host == "Host" + ":" + value + "";
    assert value == " " + host + "";
    TrimPadded(" ", host, "");
    HostEntry("Host", value);
  }

  lemma HostEntry(key: string, value: string)
    requires key == "Host" && ':' !in value
    ensures HeaderEntry(key + ":" + value + "") == Ok(("host", Trim(value)))
  {
    HeaderEntryText(key, value, "");
    LowerHost(key);
  }

  lemma LowerHost(key: string)
    requires key == "Host"
    ensures ToLowerAscii(key) == "host"
  {
    var lower := ToLowerAscii(key);
    forall i | 0 <= i < 4 ensures lower[i] == "host"[i] {
      assert lower[i] == LowerChar(key[i]);
    }
  }

  /** The accumulated bytes only ever grow: what the loop has after `k`
      chunks is a prefix of everything the server sends. */
  lemma {:induction false} ConcatPrefix(chunks: seq<seq<byte>>, k: nat)
    requires k <= |chunks|
    ensures |Concat(chunks[..k])| <= |Concat(chunks)|
    ensures Concat(chunks[..k]) == Concat(chunks)[..|Concat(chunks[..k])|]
    decreases |chunks| - k
  {
    if k == |chunks| {
      assert chunks[..k] == chunks;
    } else {
      ConcatPrefix(chunks, k + 1);
      assert chunks[..k + 1] == chunks[..k] + [chunks[k]];
      ConcatSnoc(chunks[..k], chunks[k]);
    }
  }

  /** The number of chunks read when reading starts after `k` of them: up
      to and including the first chunk after which the bytes end with the
      terminator, or all of them. */
  function ConsumedFrom(chunks: seq<seq<byte>>, k: nat): (n: nat)
    requires k <= |chunks|
    ensures k <= n <= |chunks|
    ensures n == |chunks| || (k < n && Complete(Concat(chunks[..n])))
    ensures forall j :: k < j < n ==> !Complete(Concat(chunks[..j]))
    decreases |chunks| - k
  {
    if k == |chunks| then k
    else if Complete(Concat(chunks[..k + 1])) then k + 1
    else ConsumedFrom(chunks, k + 1)
  }

  function Consumed(chunks: seq<seq<byte>>): nat {
    ConsumedFrom(chunks, 0)
  }

  /** The bytes a read loop holds when it stops: the chunks up to the first
      one that completes the terminator, or all of them. */
  function Accumulated(chunks: seq<seq<byte>>): seq<byte> {
    Concat(chunks[..Consumed(chunks)])
  }

  /** The stopping point is pinned down by its two properties: the bytes end
      with the terminator there (or the chunks run out), and at no earlier
      chunk. */
  lemma ConsumedUnique(chunks: seq<seq<byte>>, n: nat)
    requires n <= |chunks|
    requires Complete(Concat(chunks[..n])) || n == |chunks|
    requires forall k :: 0 < k < n ==> !Complete(Concat(chunks[..k]))
    ensures n == Consumed(chunks)
  {
    assert !Complete(Concat(chunks[..0])) by {
      assert chunks[..0] == [];
    }
  }

  /** Once the bytes end with the terminator, nothing sent afterwards is
      read: appending chunks changes neither what is read nor where
      reading stops. */
  lemma AccumulatedStops(chunks: seq<seq<byte>>, more: seq<seq<byte>>)
    requires Complete(Accumulated(chunks))
    ensures Consumed(chunks + more) == Consumed(chunks)
    ensures Accumulated(chunks + more) == Accumulated(chunks)
  {
    var n := Consumed(chunks);
    var all := chunks + more;
    assert all[..n] == chunks[..n];
    forall k | 0 < k < n ensures !Complete(Concat(all[..k])) {
      assert all[..k] == chunks[..k];
    }
    ConsumedUnique(all, n);
  }

  /** A stream that never ends with the terminator is read to its end. */
  lemma AccumulatedAll(chunks: seq<seq<byte>>)
    requires !Complete(Accumulated(chunks))
    ensures Consumed(chunks) == |chunks| && Accumulated(chunks) == Concat(chunks)
  {
    TakeAll(chunks);
  }

  lemma TakeAll<T>(s: seq<T>)
    ensures s[..|s|] == s
  {
  }

  /** Example: a first chunk that is the terminator itself is all that is
      read; a chunk after it is never read. */
  lemma AccumulatedFirstChunk()
    ensures Accumulated([Terminator, [0x41]]) == Terminator
  {
    var first: seq<seq<byte>> := [Terminator];
    assert first[..1] == first;
    assert Concat(first) == Terminator + Concat(first[1..]);
    assert Terminator + [] == Terminator;
    ConsumedUnique(first, 1);
    AccumulatedStops(first, [[0x41]]);
    assert first + [[0x41]] == [Terminator, [0x41]];
  }

  /** The loop of `http_request`: each read appends the whole chunk
      `fill_buf` returned, then the terminator test runs. It reads exactly
      up to the first chunk after which the bytes end with the terminator,
      or (the modelling guard) to the end of the stream. */
  method ReadPlain(chunks: seq<seq<byte>>) returns (response: seq<byte>, consumed: nat)
    ensures consumed <= |chunks|
    ensures response == Concat(chunks[..consumed])
    ensures Complete(response) || consumed == |chunks|
    ensures forall k :: 0 < k < consumed ==> !Complete(Concat(chunks[..k]))
    ensures consumed == Consumed(chunks) && response == Accumulated(chunks)
  {
    response := [];
    consumed := 0;
    while consumed < |chunks|
      invariant consumed <= |chunks|
      invariant response == Concat(chunks[..consumed])
      invariant forall k :: 0 < k < consumed ==> !Complete(Concat(chunks[..k]))
      invariant !Complete(response)
    {
      var received := chunks[consumed];
      assert chunks[..consumed + 1] == chunks[..consumed] + [received];
      ConcatSnoc(chunks[..consumed], received);
      response := response + received;
      consumed := consumed + 1;
      if Complete(response) {
        break;
      }
    }
    ConsumedUnique(chunks, consumed);
  }

  /** One pass of the `https_request` loop that reads: `read_to_end` either
      succeeds with the plaintext, which is appended, or fails, and then
      whatever it had read is dropped and the terminator test is skipped. */
  datatype TlsRead = Plaintext(bytes: seq<byte>) | ReadFailed(partial: seq<byte>)

  /** The plaintext chunks a sequence of read attempts appends. */
  function Delivered(attempts: seq<TlsRead>): (r: seq<seq<byte>>)
    ensures |r| <= |attempts|
    decreases |attempts|
  {
    if attempts == [] then []
    else
      var init := Delivered(attempts[..|attempts| - 1]);
      match attempts[|attempts| - 1]
      case Plaintext(bytes) => init + [bytes]
      case ReadFailed(_) => init
  }

  lemma DeliveredNext(attempts: seq<TlsRead>, i: nat)
    requires i < |attempts|
    ensures Delivered(attempts[..i + 1])
            == Delivered(attempts[..i]) + (if attempts[i].Plaintext? then [attempts[i].bytes] else [])
  {
    assert attempts[..i + 1][..i] == attempts[..i];
  }

  /** What a run of attempts delivers is what its two parts deliver, in
      order. */
  lemma {:induction false} DeliveredAppend(a: seq<TlsRead>, b: seq<TlsRead>)
    ensures Delivered(a + b) == Delivered(a) + Delivered(b)
    decreases |b|
  {
    if b == [] {
      assert a + b == a;
    } else {
      var n := |b| - 1;
      assert (a + b)[..|a + b| - 1] == a + b[..n];
      assert (a + b)[|a + b| - 1] == b[n];
      DeliveredAppend(a, b[..n]);
    }
  }

  /** The first `k` attempts deliver a prefix of what all of them deliver. */
  lemma DeliveredPrefix(attempts: seq<TlsRead>, k: nat)
    requires k <= |attempts|
    ensures |Delivered(attempts[..k])| <= |Delivered(attempts)|
    ensures Delivered(attempts)[..|Delivered(attempts[..k])|] == Delivered(attempts[..k])
  {
    assert attempts == attempts[..k] + attempts[k..];
    DeliveredAppend(attempts[..k], attempts[k..]);
  }

  /** Where the first `i` attempts stand in everything delivered: one
      more attempt moves one chunk further exactly when it succeeds, and
      that chunk is its plaintext. */
  lemma DeliveredTrack(attempts: seq<TlsRead>, i: nat, d: nat)
    requires i < |attempts| && d <= |Delivered(attempts)|
    requires Delivered(attempts[..i]) == Delivered(attempts)[..d]
    ensures attempts[i].ReadFailed? ==> Delivered(attempts[..i + 1]) == Delivered(attempts)[..d]
    ensures attempts[i].Plaintext? ==>
              d < |Delivered(attempts)| && Delivered(attempts)[d] == attempts[i].bytes
              && Delivered(attempts[..i + 1]) == Delivered(attempts)[..d + 1]
  {
    DeliveredNext(attempts, i);
    DeliveredPrefix(attempts, i + 1);
    if attempts[i].ReadFailed? {
      assert Delivered(attempts[..i]) + [] == Delivered(attempts[..i]);
    }
  }

  /** A failed read adds nothing; a successful one adds its bytes. */
  lemma DeliveredStep(attempts: seq<TlsRead>, i: nat)
    requires i < |attempts|
    ensures Concat(Delivered(attempts[..i + 1]))
            == Concat(Delivered(attempts[..i])) + (if attempts[i].Plaintext? then attempts[i].bytes else [])
  {
    DeliveredNext(attempts, i);
    if attempts[i].Plaintext? {
      ConcatSnoc(Delivered(attempts[..i]), attempts[i].bytes);
    } else {
      assert Delivered(attempts[..i]) + [] == Delivered(attempts[..i]);
      assert Concat(Delivered(attempts[..i])) + [] == Concat(Delivered(attempts[..i]));
    }
  }

  /** What the `https_request` loop knows after `consumed` attempts, of
      which `delivered` succeeded and none completed the terminator before
      the last. */
  ghost predicate TlsLoop(attempts: seq<TlsRead>, consumed: nat, delivered: nat, response: seq<byte>) {
    var all := Delivered(attempts);
    consumed <= |attempts| && delivered <= |all|
    && Delivered(attempts[..consumed]) == all[..delivered]
    && response == Concat(all[..delivered])
    && (forall k :: 0 < k < consumed && attempts[k - 1].Plaintext? ==>
          !Complete(Concat(Delivered(attempts[..k]))))
    && (forall j :: 0 < j < delivered ==> !Complete(Concat(all[..j])))
  }

  /** One more attempt: a failed read keeps the bytes, a successful one
      appends its plaintext. */
  lemma TlsAdvance(attempts: seq<TlsRead>, consumed: nat, delivered: nat, response: seq<byte>)
    requires TlsLoop(attempts, consumed, delivered, response)
    requires consumed < |attempts| && !Complete(response)
    ensures attempts[consumed].ReadFailed? ==> TlsLoop(attempts, consumed + 1, delivered, response)
    ensures attempts[consumed].Plaintext? ==>
              TlsLoop(attempts, consumed + 1, delivered + 1, response + attempts[consumed].bytes)
  {
    var all := Delivered(attempts);
    DeliveredTrack(attempts, consumed, delivered);
    if attempts[consumed].Plaintext? {
      ConcatSnoc(all[..delivered], attempts[consumed].bytes);
      assert all[..delivered + 1] == all[..delivered] + [attempts[consumed].bytes];
    }
  }

  /** Where the loop stops, the bytes are those of the first completing
      successful read, or everything delivered. */
  lemma TlsFinish(attempts: seq<TlsRead>, consumed: nat, delivered: nat, response: seq<byte>)
    requires TlsLoop(attempts, consumed, delivered, response)
    requires Complete(response) || consumed == |attempts|
    ensures response == Concat(Delivered(attempts[..consumed]))
    ensures response == Accumulated(Delivered(attempts))
  {
    if !Complete(response) {
      TakeAll(attempts);
    }
    ConsumedUnique(Delivered(attempts), delivered);
  }

  /** The loop of `https_request`, one read attempt per element: it stops
      after the first successful read that leaves the bytes ending with the
      terminator, or (the modelling guard) at the end of the attempts. */
  method ReadTls(attempts: seq<TlsRead>) returns (response: seq<byte>, consumed: nat)
    ensures consumed <= |attempts|
    ensures response == Concat(Delivered(attempts[..consumed]))
    ensures Complete(response) || consumed == |attempts|
    ensures Complete(response) && consumed > 0 ==> attempts[consumed - 1].Plaintext?
    ensures forall k :: 0 < k < consumed && attempts[k - 1].Plaintext? ==>
              !Complete(Concat(Delivered(attempts[..k])))
    ensures response == Accumulated(Delivered(attempts))
  {
    response := [];
    consumed := 0;
    ghost var delivered := 0;
    while consumed < |attempts|
      invariant TlsLoop(attempts, consumed, delivered, response)
      invariant !Complete(response)
    {
      var attempt := attempts[consumed];
      TlsAdvance(attempts, consumed, delivered, response);
      consumed := consumed + 1;
      if attempt.ReadFailed? {
        continue;
      }
      response := response + attempt.bytes;
      delivered := delivered + 1;
      if Complete(response) {
        break;
      }
    }
    TlsFinish(attempts, consumed, delivered, response);
  }

  datatype FetchError =
    | StreamEnded                   // the modelling guard: no more input
    | BadResponse(error: ParseError) // a panic in `parse_response`

  function Lift(r: Result<Response, ParseError>): (l: Result<Response, FetchError>)
    ensures l.Ok? <==> r.Ok?
    ensures r.Ok? ==> l.value == r.value
    ensures r.Err? ==> l.error == BadResponse(r.error)
  {
    match r
    case Ok(v) => Ok(v)
    case Err(e) => Err(BadResponse(e))
  }

  /** What a request returns once the server's bytes arrive as `stream`:
      the parse of the bytes read up to the first chunk that completes the
      terminator, or `StreamEnded` when no chunk does. */
  function Fetch(stream: seq<seq<byte>>): Result<Response, FetchError> {
    var response := Accumulated(stream);
    if Complete(response) then Lift(ParseBytes(response)) else Err(StreamEnded)
  }

  /** `StreamEnded` exactly when no prefix of the stream ends with the
      terminator. */
  lemma FetchEnded(stream: seq<seq<byte>>)
    ensures Fetch(stream) == Err(StreamEnded)
            <==> forall k :: 0 < k <= |stream| ==> !Complete(Concat(stream[..k]))
  {
    var n := Consumed(stream);
    if Fetch(stream) == Err(StreamEnded) {
      AccumulatedAll(stream);
      forall k | 0 < k <= |stream| ensures !Complete(Concat(stream[..k])) {
        if k == |stream| {
          assert stream[..k] == stream[..n];
        }
      }
    }
    if forall k :: 0 < k <= |stream| ==> !Complete(Concat(stream[..k])) {
      assert !Complete(Concat(stream[..0])) by {
        assert stream[..0] == [];
      }
      assert !Complete(Concat(stream[..n]));
    }
  }

  /** Chunks sent after the response is complete never change the result. */
  lemma FetchIgnoresLater(stream: seq<seq<byte>>, more: seq<seq<byte>>)
    requires Complete(Accumulated(stream))
    ensures Fetch(stream + more) == Fetch(stream)
  {
    AccumulatedStops(stream, more);
  }

  /** A response sent in one chunk that ends with the terminator is parsed
      whole. */
  lemma FetchOneChunk(bytes: seq<byte>)
    requires Complete(bytes)
    ensures Fetch([bytes]) == Lift(ParseBytes(bytes))
  {
    var stream := [bytes];
    assert stream[..1] == stream;
    assert Concat(stream) == bytes + Concat(stream[1..]);
    assert bytes + [] == bytes;
    ConsumedUnique(stream, 1);
  }

  /** A response with one header line whose page ends with "</html>\n",
      sent in one chunk, is read whole and parsed into its parts. */
  lemma FetchPage(version: string, status: string, reason: string, header: string, front: string)
    requires ' ' !in version && ' ' !in status && ' ' !in reason
    requires Free(version + " " + status + " " + reason, CRLF)
    requires ':' in header && !AllWhitespace(header) && Free(header, CRLF)
    requires Free(front + "</html>\n", CRLF)
    ensures HeaderMap([header]).Ok?
    ensures var page := front + "</html>\n";
            Fetch([Encode(ResponseText(version, status, reason, [header], [page]))])
            == Ok(Response(version, status, reason, HeaderMap([header]).value, page))
  {
    var page := front + "</html>\n";
    var statusLine := version + " " + status + " " + reason;
    var text := ResponseText(version, status, reason, [header], [page]);
    var pieces := [statusLine] + ([header] + [""] + [page]);
    assert pieces == [statusLine, header, "", page];
    assert pieces[1..][1..] == pieces[2..] && pieces[2..][1..] == pieces[3..];
    JoinFirst(pieces[3..], CRLF);
    JoinFirst(pieces[2..], CRLF);
    JoinFirst(pieces[1..], CRLF);
    JoinFirst(pieces, CRLF);
    var pre := statusLine + (CRLF + (header + (CRLF + ("" + (CRLF + front)))));
    assert text == pre + "</html>\n";
    EncodedPageComplete(pre);
    FetchOneChunk(Encode(text));
    ParseEncoded(text);
    ParseOneHeader(version, status, reason, header, page);
  }

  /** Text ending with "</html>\n" encodes to bytes the read loops accept
      as complete. */
  lemma EncodedPageComplete(pre: string)
    ensures Complete(Encode(pre + "</html>\n"))
  {
    EncodeAppend(pre, "</html>\n");
    TerminatorText("</html>\n");
    var bytes := Encode(pre + "</html>\n");
    assert bytes[|bytes| - |Terminator|..] == Terminator;
  }

  /** A plaintext example: a server answering
      "HTTP/1.0 200 OK", "Host: x", an empty line and
      "<html><body>Hi</body></html>\n" yields that page as the body and
      "x" as the value of the header "host". */
  lemma FetchHiPage(header: string, page: string)
    requires header == "Host: x" && page == "<html><body>Hi</body></html>\n"
    ensures Fetch([Encode(ResponseText("HTTP/1.0", "200", "OK", [header], [page]))])
            == Ok(Response("HTTP/1.0", "200", "OK", map["host" := "x"], page))
  {
    HiParsed(header, page);
    HostHeader("x");
    assert "Host: " + "x" == header;
  }

  lemma HiParsed(header: string, page: string)
    requires header == "Host: x" && page == "<html><body>Hi</body></html>\n"
    ensures HeaderMap([header]).Ok?
    ensures Fetch([Encode(ResponseText("HTTP/1.0", "200", "OK", [header], [page]))])
            == Ok(Response("HTTP/1.0", "200", "OK", HeaderMap([header]).value, page))
  {
    var front := "<html><body>Hi</body>";
    assert page == front + "</html>\n";
    HiLines(header, page);
    FetchPage("HTTP/1.0", "200", "OK", header, front);
  }

  lemma HiLines(header: string, page: string)
    requires header == "Host: x" && page == "<html><body>Hi</body></html>\n"
    ensures Free("HTTP/1.0" + " " + "200" + " " + "OK", CRLF) && Free(header, CRLF) && Free(page, CRLF)
    ensures ':' in header && !AllWhitespace(header)
  {
    NoCarriageReturn("HTTP/1.0" + " " + "200" + " " + "OK");
    NoCarriageReturn(header);
    NoCarriageReturn(page);
    assert header[4] == ':';
    assert !IsWhitespace(header[0]);
  }

  /** `http_request`: write the request, read until the terminator, parse. */
  method HttpRequest(url: Url, chunks: seq<seq<byte>>)
    returns (sent: seq<byte>, response: seq<byte>, r: Result<Response, FetchError>)
    ensures sent == RequestBytes(url)
    ensures response == Accumulated(chunks)
    ensures r == Fetch(chunks)
  {
    sent := RequestBytes(url);
    var consumed;
    response, consumed := ReadPlain(chunks);
    if !Complete(response) {
      return sent, response, Err(StreamEnded);
    }
    var parsed := ParseResponse(response);
    r := Lift(parsed);
  }

  /** `https_request`: the same request bytes, the TLS read loop, parse. */
  method HttpsRequest(url: Url, attempts: seq<TlsRead>)
    returns (sent: seq<byte>, response: seq<byte>, r: Result<Response, FetchError>)
    ensures sent == RequestBytes(url)
    ensures response == Accumulated(Delivered(attempts))
    ensures r == Fetch(Delivered(attempts))
  {
    sent := RequestBytes(url);
    var consumed;
    response, consumed := ReadTls(attempts);
    if !Complete(response) {
      return sent, response, Err(StreamEnded);
    }
    var parsed := ParseResponse(response);
    r := Lift(parsed);
  }

  /** `request`: the scheme picks the transport; both write the same bytes. */
  method Request(url: Url, chunks: seq<seq<byte>>, attempts: seq<TlsRead>)
    returns (sent: seq<byte>, r: Result<Response, FetchError>)
    ensures sent == RequestBytes(url)
    ensures url.scheme == Http ==> r == Fetch(chunks)
    ensures url.scheme == Https ==> r == Fetch(Delivered(attempts))
  {
    var response;
    match url.scheme {
      case Http => sent, response, r := HttpRequest(url, chunks);
      case Https => sent, response, r := HttpsRequest(url, attempts);
    }
  }
}
