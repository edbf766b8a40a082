/** Response parsing: `parse_response` (src/browser.rs), a simplified
    HTTP/1.0 Status-Line and header parser (sections 6.1 and 4.2 of
    RFC 1945). The bytes are decoded as UTF-8 and split on "\r\n"; the first
    line is split on single spaces and its first three fields are taken;
    the following lines, up to the first whitespace-only line, are headers,
    each split on every ':'; all lines after that are glued together with
    no separator to form the body. Every panic of the source is an error
    here. */
module Responses {
  import opened Wrappers
  import opened Text
  import opened Utf8

  type Headers = map<string, string>

  /** The source binds version, status and reason only to index the status
      line (the caller receives headers and body); they are kept here so
      that what was indexed can be stated. */
  datatype Response = Response(version: string, status: string, reason: string,
                               headers: Headers, body: string)

  datatype ParseError =
    | InvalidUtf8                       // `String::from_utf8(..).unwrap()`
    | MissingStatusFields(line: string)  // `status_line[1]` or `[2]` out of bounds
    | HeaderWithoutColon(line: string)   // `line[1]` out of bounds

  const CRLF: string := "\r\n"

  /** The header a line contributes: `split(":")`, then the lower-cased
      field 0 as key and the trimmed field 1 as value. */
  function HeaderEntry(line: string): (r: Result<(string, string), ParseError>)
    ensures r.Err? <==> ':' !in line
    ensures r.Err? ==> r.error == HeaderWithoutColon(line)
  {
    var fields := Split(line, ":");
    SplitInTwo(line, ':');
    if |fields| < 2 then Err(HeaderWithoutColon(line))
    else Ok((ToLowerAscii(fields[0]), Trim(fields[1])))
  }

  type Entry = Result<(string, string), ParseError>

  /** The map after inserting, in order, the entries `entry` gives for
      `lines`; the first failing line stops the insertion. */
  function InsertEntries(lines: seq<string>, entry: string -> Entry): Result<Headers, ParseError>
    decreases |lines|
  {
    if lines == [] then Ok(map[])
    else match InsertEntries(lines[..|lines| - 1], entry)
      case Err(e) => Err(e)
      case Ok(m) =>
        match entry(lines[|lines| - 1])
        case Err(e) => Err(e)
        case Ok((k, v)) => Ok(m[k := v])
  }

  /** The `headers` map the loop builds from the header lines. */
  function HeaderMap(lines: seq<string>): Result<Headers, ParseError> {
    InsertEntries(lines, HeaderEntry)
  }

  /** Index of the first whitespace-only line, or the number of lines. A
      whitespace-only line is what `line.trim().is_empty()` tests:
      `Text.Trim` is empty exactly for such lines. */
  function FirstBlank(lines: seq<string>): (k: nat)
    ensures k <= |lines|
    ensures forall j :: 0 <= j < k ==> !AllWhitespace(lines[j])
    ensures k < |lines| ==> AllWhitespace(lines[k])
    decreases |lines|
  {
    if lines == [] then 0
    else if AllWhitespace(lines[0]) then 0
    else 1 + FirstBlank(lines[1..])
  }

  /** The status line split on single spaces: its first three fields, or
      an error when there are fewer than three. */
  function StatusLine(line: string): (r: Result<(string, string, string), ParseError>)
    ensures r.Err? ==> r.error == MissingStatusFields(line)
  {
    var fields := Split(line, " ");
    if |fields| < 3 then Err(MissingStatusFields(line))
    else Ok((fields[0], fields[1], fields[2]))
  }

  /** The lines after the status line: headers up to the first
      whitespace-only line, then the rest glued together as the body. */
  function HeadersAndBody(rest: seq<string>): Result<(Headers, string), ParseError> {
    var k := FirstBlank(rest);
    match HeaderMap(rest[..k])
    case Err(e) => Err(e)
    case Ok(m) => Ok((m, if k < |rest| then Concat(rest[k + 1..]) else ""))
  }

  /** `parse_response` once the text has been split into lines. */
  function ParseLines(lines: seq<string>): Result<Response, ParseError>
    requires |lines| > 0
  {
    match StatusLine(lines[0])
    case Err(e) => Err(e)
    case Ok((version, status, reason)) =>
      match HeadersAndBody(lines[1..])
      case Err(e) => Err(e)
      case Ok((m, body)) => Ok(Response(version, status, reason, m, body))
  }

  /** `parse_response` after decoding. */
  function ParseText(text: string): Result<Response, ParseError> {
    ParseLines(Split(text, CRLF))
  }

  /** `parse_response` on the accumulated bytes. */
  function ParseBytes(response: seq<byte>): Result<Response, ParseError> {
    match Decode(response)
    case None => Err(InvalidUtf8)
    case Some(text) => ParseText(text)
  }

  /** `parse_response`: decode, split, index the status line, then read
      the headers and the body from the remaining lines. */
  method ParseResponse(response: seq<byte>) returns (r: Result<Response, ParseError>)
    ensures r == ParseBytes(response)
  {
    var decoded := Decode(response);
    if decoded.None? {
      return Err(InvalidUtf8);
    }
    DecodedLines(response, decoded.value);
    var lines := Split(decoded.value, CRLF);
    var statusLine := Split(lines[0], " ");
    if |statusLine| < 3 {
      return Err(MissingStatusFields(lines[0]));
    }
    var version, status, reason := statusLine[0], statusLine[1], statusLine[2];
    assert StatusLine(lines[0]) == Ok((version, status, reason));
    var rest := ReadHeaders(lines[1..]);
    match rest
    case Err(e) =>
      r := Err(e);
    case Ok((headers, body)) =>
      r := Ok(Response(version, status, reason, headers, body));
  }

  /** The loop of `parse_response` over the lines after the status line:
      header lines go into the map until a whitespace-only line or the
      end, and the lines after that line are collected as the body. */
  method ReadHeaders(rest: seq<string>) returns (r: Result<(Headers, string), ParseError>)
    ensures r == HeadersAndBody(rest)
  {
    var headers: Headers := map[];
    var i := 0;
    while i < |rest| && Trim(rest[i]) != []
      invariant i <= FirstBlank(rest)
      invariant HeaderMap(rest[..i]) == Ok(headers)
    {
      NotBlankBefore(rest, i);
      HeaderMapStep(rest, i);
      var next := InsertHeader(headers, rest[i]);
      match next {
        case Err(e) =>
          HeadersAndBodyError(rest, i);
          return Err(e);
        case Ok(h) =>
          headers := h;
      }
      i := i + 1;
    }
    var body := if i < |rest| then Concat(rest[i + 1..]) else "";
    HeadersAndBodyDone(rest, i, headers);
    r := Ok((headers, body));
  }

  /** One pass of the header loop: split the line on every ':', fail
      without a second field, else insert the lower-cased first field with
      the trimmed second one. */
  method InsertHeader(headers: Headers, line: string) returns (r: Result<Headers, ParseError>)
    ensures r == match HeaderEntry(line)
                 case Err(e) => Err(e)
                 case Ok((k, v)) => Ok(headers[k := v])
  {
    var fields := Split(line, ":");
    if |fields| < 2 {
      return Err(HeaderWithoutColon(line));
    }
    r := Ok(headers[ToLowerAscii(fields[0]) := Trim(fields[1])]);
  }

  lemma NotBlankBefore(rest: seq<string>, i: nat)
    requires i <= FirstBlank(rest) && i < |rest| && Trim(rest[i]) != []
    ensures i < FirstBlank(rest)
  {
    assert !AllWhitespace(rest[i]);
  }

  lemma DecodedLines(response: seq<byte>, text: string)
    requires Decode(response) == Some(text)
    ensures ParseBytes(response) == ParseLines(Split(text, CRLF))
  {
  }

  lemma HeadersAndBodyError(rest: seq<string>, i: nat)
    requires i < FirstBlank(rest)
    requires HeaderMap(rest[..i + 1]).Err?
    ensures HeadersAndBody(rest) == Err(HeaderMap(rest[..i + 1]).error)
  {
    var k := FirstBlank(rest);
    assert rest[..k][..i + 1] == rest[..i + 1];
    HeaderMapPrefixErr(rest[..k], i + 1);
  }

  lemma HeadersAndBodyDone(rest: seq<string>, i: nat, headers: Headers)
    requires i <= FirstBlank(rest)
    requires i == |rest| || Trim(rest[i]) == []
    requires HeaderMap(rest[..i]) == Ok(headers)
    ensures HeadersAndBody(rest) == Ok((headers, if i < |rest| then Concat(rest[i + 1..]) else ""))
  {
    if i < |rest| {
      assert AllWhitespace(rest[i]);
    }
    assert FirstBlank(rest) == i;
  }

  /** An error in the first `n` lines is the error of all of them. */
  lemma {:induction false} HeaderMapPrefixErr(lines: seq<string>, n: nat)
    requires n <= |lines| && HeaderMap(lines[..n]).Err?
    ensures HeaderMap(lines) == HeaderMap(lines[..n])
    decreases |lines| - n
  {
    if n < |lines| {
      assert lines[..n + 1] == lines[..n] + [lines[n]];
      HeaderMapSnoc(lines[..n], lines[n]);
      HeaderMapPrefixErr(lines, n + 1);
    } else {
      assert lines[..n] == lines;
    }
  }

  lemma HeaderMapStep(lines: seq<string>, i: nat)
    requires i < |lines|
    ensures HeaderMap(lines[..i + 1])
            == match HeaderMap(lines[..i])
               case Err(e) => Err(e)
               case Ok(m) =>
                 match HeaderEntry(lines[i])
                 case Err(e) => Err(e)
                 case Ok((k, v)) => Ok(m[k := v])
  {
    assert lines[..i + 1] == lines[..i] + [lines[i]];
    HeaderMapSnoc(lines[..i], lines[i]);
  }

  lemma HeaderMapSnoc(lines: seq<string>, line: string)
    ensures HeaderMap(lines + [line])
            == match HeaderMap(lines)
               case Err(e) => Err(e)
               case Ok(m) =>
                 match HeaderEntry(line)
                 case Err(e) => Err(e)
                 case Ok((k, v)) => Ok(m[k := v])
  {
    assert (lines + [line])[..|lines|] == lines;
  }

  /** A header line is its key, a ':', its value, and optionally a further
      ':' with anything after it: the key is the lower-cased text before the
      first ':' (not trimmed) and the value the trimmed text up to the
      second ':'. */
  lemma HeaderEntryText(key: string, value: string, more: string)
    requires ':' !in key && ':' !in value && (more == [] || more[0] == ':')
    ensures HeaderEntry(key + ":" + value + more) == Ok((ToLowerAscii(key), Trim(value)))
  {
    var line := key + ":" + value + more;
    assert line == key + ":" + (value + more);
    SplitAtFirst(key, value + more);
    SplitValueField(value, more);
    var f := Split(line, ":");
    assert f[0] == key && f[1] == value;
  }

  lemma SplitAtFirst(key: string, rest: string)
    requires ':' !in key
    ensures Split(key + ":" + rest, ":") == [key] + Split(rest, ":")
  {
    var line := key + ":" + rest;
    FreeOfChar(key, ':');
    UnborderedFirst(key, ":", rest);
    assert line[..|key|] == key;
    assert line[|key| + 1..] == rest;
  }

  lemma SplitValueField(value: string, more: string)
    requires ':' !in value && (more == [] || more[0] == ':')
    ensures |Split(value + more, ":")| >= 1 && Split(value + more, ":")[0] == value
  {
    FreeOfChar(value, ':');
    if more == [] {
      assert value + more == value;
      assert Find(value, ":").None?;
    } else {
      UnborderedFirst(value, ":", more[1..]);
      assert value + more == value + ":" + more[1..];
      assert (value + more)[..|value|] == value;
    }
  }

  /** Later entries overwrite earlier ones: every line contributes its key,
      and each key maps to the value of the last line carrying it. */
  lemma {:induction false} InsertEntriesLastWins(lines: seq<string>, entry: string -> Entry)
    requires InsertEntries(lines, entry).Ok?
    ensures forall i :: 0 <= i < |lines| ==> entry(lines[i]).Ok?
    ensures var m := InsertEntries(lines, entry).value;
            forall i :: 0 <= i < |lines| ==> entry(lines[i]).value.0 in m
    ensures var m := InsertEntries(lines, entry).value;
            forall k :: k in m ==> exists i :: LastEntry(lines, entry, i, k, m[k])
    decreases |lines|
  {
    if lines != [] {
      var n := |lines| - 1;
      var init := lines[..n];
      InsertEntriesLastWins(init, entry);
      var m0 := InsertEntries(init, entry).value;
      InsertEntriesStep(lines, entry);
      var (k1, v1) := entry(lines[n]).value;
      var m := InsertEntries(lines, entry).value;
      forall i | 0 <= i < |lines| ensures entry(lines[i]).Ok? && entry(lines[i]).value.0 in m {
        if i < n { assert lines[i] == init[i]; }
      }
      forall k | k in m ensures exists i :: LastEntry(lines, entry, i, k, m[k]) {
        if k == k1 {
          assert LastEntry(lines, entry, n, k, m[k]);
        } else {
          var i :| LastEntry(init, entry, i, k, m0[k]);
          LastEntryExtend(lines, entry, i, k, m0[k]);
        }
      }
    }
  }

  /** A successful fold over non-empty lines is the fold over all but the
      last line, updated with the last line's pair. */
  lemma InsertEntriesStep(lines: seq<string>, entry: string -> Entry)
    requires lines != [] && InsertEntries(lines, entry).Ok?
    ensures InsertEntries(lines[..|lines| - 1], entry).Ok?
    ensures entry(lines[|lines| - 1]).Ok?
    ensures var (k, v) := entry(lines[|lines| - 1]).value;
            InsertEntries(lines, entry).value == InsertEntries(lines[..|lines| - 1], entry).value[k := v]
  {
  }

  /** A last entry of the leading lines stays last when the final line
      carries another key. */
  lemma LastEntryExtend(lines: seq<string>, entry: string -> Entry, i: int, k: string, v: string)
    requires lines != [] && LastEntry(lines[..|lines| - 1], entry, i, k, v)
    requires entry(lines[|lines| - 1]).Ok? && entry(lines[|lines| - 1]).value.0 != k
    ensures LastEntry(lines, entry, i, k, v)
  {
    var init := lines[..|lines| - 1];
    forall j | i < j < |lines| ensures entry(lines[j]).Ok? && entry(lines[j]).value.0 != k {
      if j < |init| { assert lines[j] == init[j]; }
    }
  }

  /** Line `i` gives the pair `(k, v)` and no later line has key `k`. */
  ghost predicate LastEntry(lines: seq<string>, entry: string -> Entry, i: int, k: string, v: string) {
    0 <= i < |lines| && entry(lines[i]) == Ok((k, v))
    && forall j :: i < j < |lines| ==> entry(lines[j]).Ok? && entry(lines[j]).value.0 != k
  }

  /** Insertion fails exactly when some line fails, with the error of the
      first such line. */
  lemma {:induction false} InsertEntriesError(lines: seq<string>, entry: string -> Entry)
    ensures InsertEntries(lines, entry).Err? <==> exists i :: 0 <= i < |lines| && entry(lines[i]).Err?
    ensures InsertEntries(lines, entry).Err? ==>
              exists i :: FirstFailing(lines, entry, i) && InsertEntries(lines, entry).error == entry(lines[i]).error
    decreases |lines|
  {
    if lines != [] {
      var n := |lines| - 1;
      var init := lines[..n];
      InsertEntriesError(init, entry);
      assert forall j :: 0 <= j < n ==> lines[j] == init[j];
      if InsertEntries(init, entry).Err? {
        var i :| FirstFailing(init, entry, i) && InsertEntries(init, entry).error == entry(init[i]).error;
        assert FirstFailing(lines, entry, i);
      } else if entry(lines[n]).Err? {
        assert FirstFailing(lines, entry, n);
      }
    }
  }

  /** Line `i` is the first line whose entry fails. */
  ghost predicate FirstFailing(lines: seq<string>, entry: string -> Entry, i: int) {
    0 <= i < |lines| && entry(lines[i]).Err? && forall j :: 0 <= j < i ==> entry(lines[j]).Ok?
  }

  /** For the header lines: a later duplicate key overwrites an earlier
      one, and every line's key is present. */
  lemma HeaderMapLastWins(lines: seq<string>)
    requires HeaderMap(lines).Ok?
    ensures forall i :: 0 <= i < |lines| ==> ':' in lines[i] && HeaderEntry(lines[i]).value.0 in HeaderMap(lines).value
    ensures var m := HeaderMap(lines).value;
            forall k :: k in m ==> exists i :: LastEntry(lines, HeaderEntry, i, k, m[k])
  {
    InsertEntriesLastWins(lines, HeaderEntry);
  }

  /** For the header lines: a line without ':' is an error, reported for
      the first such line, and it is the only error. */
  lemma HeaderMapError(lines: seq<string>)
    ensures HeaderMap(lines).Err? <==> exists i :: 0 <= i < |lines| && ':' !in lines[i]
    ensures HeaderMap(lines).Err? ==>
              exists i :: 0 <= i < |lines| && ':' !in lines[i]
                && HeaderMap(lines).error == HeaderWithoutColon(lines[i])
                && forall j :: 0 <= j < i ==> ':' in lines[j]
  {
    InsertEntriesError(lines, HeaderEntry);
    if HeaderMap(lines).Err? {
      var i :| FirstFailing(lines, HeaderEntry, i) && HeaderMap(lines).error == HeaderEntry(lines[i]).error;
      assert ':' !in lines[i];
    }
  }

  /** The status line has too few fields exactly when it holds fewer than
      two spaces. */
  lemma StatusFieldsMissing(line: string)
    ensures StatusLine(line).Err? <==> Count(line, ' ') < 2
  {
    SplitCount(line, ' ');
    assert [' '] == " ";
  }

  /** A piece free of a one-character separator does not contain it. */
  lemma FreeNotIn(s: string, c: char)
    requires Free(s, [c])
    ensures c !in s
  {
    CharAbsentBefore(s, c, |s|);
    assert s[..|s|] == s;
  }

  /** A join of at least three pieces starts with the first three. */
  lemma JoinThree(f: seq<string>, sep: string)
    requires |f| >= 3
    ensures Join(f, sep) == f[0] + sep + f[1] + sep + f[2]
                            + (if |f| == 3 then "" else sep + Join(f[3..], sep))
  {
    var tail := if |f| == 3 then "" else sep + Join(f[3..], sep);
    JoinFirst(f[2..], sep);
    assert f[2..][1..] == f[3..];
    JoinFirst(f[1..], sep);
    assert f[1..][1..] == f[2..];
    JoinFirst(f, sep);
    Regroup(f[0], sep, f[1], f[2], tail);
  }

  lemma JoinFirst(f: seq<string>, sep: string)
    requires |f| > 0
    ensures Join(f, sep) == f[0] + (if |f| == 1 then "" else sep + Join(f[1..], sep))
  {
  }

  lemma Regroup(a: string, sep: string, b: string, c: string, tail: string)
    ensures a + (sep + (b + (sep + (c + tail)))) == a + sep + b + sep + c + tail
  {
  }

  /** Version, status and reason are the first three space-separated
      fields of the status line: none holds a space, and the line starts
      with them, joined by single spaces, followed by nothing or a space. */
  lemma StatusFields(line: string)
    requires StatusLine(line).Ok?
    ensures var (version, status, reason) := StatusLine(line).value;
            var n := |version| + |status| + |reason| + 2;
            ' ' !in version && ' ' !in status && ' ' !in reason
            && n <= |line|
            && line[..n] == version + " " + status + " " + reason
            && (n == |line| || line[n] == ' ')
  {
    var f := Split(line, " ");
    SplitJoinsBack(line, " ");
    assert " " == [' '];
    FreeNotIn(f[0], ' ');
    FreeNotIn(f[1], ' ');
    FreeNotIn(f[2], ' ');
    JoinThree(f, " ");
    var head := f[0] + " " + f[1] + " " + f[2];
    var tail := if |f| == 3 then "" else " " + Join(f[3..], " ");
    assert line == head + tail;
    assert line[..|head|] == head;
  }

  /** A line without '\r' contains no "\r\n". */
  lemma NoCarriageReturn(s: string)
    requires '\r' !in s
    ensures Free(s, CRLF)
  {
    forall j: nat | j <= |s| ensures !OccursAt(s, CRLF, j) {
      if j + 2 <= |s| { assert s[j..j + 2][0] == s[j]; }
    }
  }

  /** The text of a response assembled from its parts: the status line,
      the header lines, an empty line, then the body lines, joined by CRLF. */
  function ResponseText(version: string, status: string, reason: string,
                        headerLines: seq<string>, bodyLines: seq<string>): string
  {
    Join([version + " " + status + " " + reason] + (headerLines + [""] + bodyLines), CRLF)
  }

  /** The status line written from its three space-free fields yields them. */
  lemma StatusLineText(version: string, status: string, reason: string)
    requires ' ' !in version && ' ' !in status && ' ' !in reason
    ensures StatusLine(version + " " + status + " " + reason) == Ok((version, status, reason))
  {
    assert " " == [' '];
    FreeOfChar(version, ' ');
    FreeOfChar(status, ' ');
    FreeOfChar(reason, ' ');
    var f := [version, status, reason];
    JoinThree(f, " ");
    assert Join(f, " ") == version + " " + status + " " + reason;
    assert forall k :: 0 <= k < |f| ==> Free(f[k], " ");
    SplitJoin(f, " ");
  }

  /** Header lines, an empty line, then body lines: the headers are those
      lines' map and the body the rest glued together. */
  lemma HeadersAndBodyText(headerLines: seq<string>, bodyLines: seq<string>)
    requires forall i :: 0 <= i < |headerLines| ==> ':' in headerLines[i] && !AllWhitespace(headerLines[i])
    ensures HeaderMap(headerLines).Ok?
    ensures HeadersAndBody(headerLines + [""] + bodyLines)
            == Ok((HeaderMap(headerLines).value, Concat(bodyLines)))
  {
    var rest := headerLines + [""] + bodyLines;
    FirstBlankAfter(headerLines, bodyLines);
    assert rest[..|headerLines|] == headerLines;
    assert rest[|headerLines| + 1..] == bodyLines;
    HeaderMapError(headerLines);
  }

  /** "\r\n" has no proper prefix that is also a suffix. */
  lemma CrlfUnbordered()
    ensures Unbordered(CRLF)
  {
    assert CRLF[1..] == "\n" && CRLF[..1] == "\r";
  }

  /** Every line of an assembled response is free of CRLF. */
  lemma LinesFree(statusLine: string, headerLines: seq<string>, bodyLines: seq<string>)
    requires Free(statusLine, CRLF)
    requires forall i :: 0 <= i < |headerLines| ==> Free(headerLines[i], CRLF)
    requires forall i :: 0 <= i < |bodyLines| ==> Free(bodyLines[i], CRLF)
    ensures var pieces := [statusLine] + (headerLines + [""] + bodyLines);
            forall k :: 0 <= k < |pieces| ==> Free(pieces[k], CRLF)
  {
    var pieces := [statusLine] + (headerLines + [""] + bodyLines);
    forall k | 0 <= k < |pieces| ensures Free(pieces[k], CRLF) {
      if k == 1 + |headerLines| { NoCarriageReturn(pieces[k]); }
      else if k > 1 + |headerLines| { assert pieces[k] == bodyLines[k - 2 - |headerLines|]; }
      else if k > 0 { assert pieces[k] == headerLines[k - 1]; }
    }
  }

  /** Parsing a response assembled from its parts recovers them: the
      first three fields of the status line, the map of the header lines,
      and the body lines glued together (without their CRLFs). */
  lemma ParseResponseText(version: string, status: string, reason: string,
                          headerLines: seq<string>, bodyLines: seq<string>)
    requires ' ' !in version && ' ' !in status && ' ' !in reason
    requires Free(version + " " + status + " " + reason, CRLF)
    requires forall i :: 0 <= i < |headerLines| ==> ':' in headerLines[i] && !AllWhitespace(headerLines[i])
    requires forall i :: 0 <= i < |headerLines| ==> Free(headerLines[i], CRLF)
    requires forall i :: 0 <= i < |bodyLines| ==> Free(bodyLines[i], CRLF)
    ensures HeaderMap(headerLines).Ok?
    ensures ParseText(ResponseText(version, status, reason, headerLines, bodyLines))
            == Ok(Response(version, status, reason, HeaderMap(headerLines).value, Concat(bodyLines)))
  {
    var statusLine := version + " " + status + " " + reason;
    var rest := headerLines + [""] + bodyLines;
    var pieces := [statusLine] + rest;
    CrlfUnbordered();
    LinesFree(statusLine, headerLines, bodyLines);
    SplitJoin(pieces, CRLF);
    var text := ResponseText(version, status, reason, headerLines, bodyLines);
    assert ParseText(text) == ParseLines(pieces);
    StatusLineText(version, status, reason);
    assert pieces[1..] == rest;
    HeadersAndBodyText(headerLines, bodyLines);
  }

  /** The first blank line of `headerLines + [""] + more`, when no header
      line is blank, is the empty line after the headers. */
  lemma {:induction false} FirstBlankAfter(headerLines: seq<string>, more: seq<string>)
    requires forall i :: 0 <= i < |headerLines| ==> !AllWhitespace(headerLines[i])
    ensures FirstBlank(headerLines + [""] + more) == |headerLines|
    decreases |headerLines|
  {
    if headerLines != [] {
      assert (headerLines + [""] + more)[1..] == headerLines[1..] + [""] + more;
      FirstBlankAfter(headerLines[1..], more);
    }
  }

  /** Parsing the bytes of a text is parsing the text. */
  lemma ParseEncoded(text: string)
    ensures ParseBytes(Encode(text)) == ParseText(text)
  {
    DecodeEncode(text);
  }

  /** The response of the example page: one header, whose key is
      lower-cased and whose value is trimmed, and the page as body. */
  lemma ParseExampleResponse(text: string)
    requires text == "HTTP/1.0 200 OK" + CRLF + "Content-Type: text/html" + CRLF + CRLF + "<html>hi</html>\n"
    ensures ParseText(text)
            == Ok(Response("HTTP/1.0", "200", "OK", map["content-type" := "text/html"], "<html>hi</html>\n"))
  {
    var statusLine := "HTTP/1.0 200 OK";
    var header := "Content-Type: text/html";
    var page := "<html>hi</html>\n";
    ExampleLines(statusLine, header, page);
    ExampleText(statusLine, header, page);
    ParseOneHeader("HTTP/1.0", "200", "OK", header, page);
    ExampleHeader(header);
  }

  /** `ParseResponseText` for one header line and one body line. */
  lemma ParseOneHeader(version: string, status: string, reason: string, header: string, page: string)
    requires ' ' !in version && ' ' !in status && ' ' !in reason
    requires Free(version + " " + status + " " + reason, CRLF)
    requires ':' in header && !AllWhitespace(header) && Free(header, CRLF) && Free(page, CRLF)
    ensures HeaderMap([header]).Ok?
    ensures ParseText(ResponseText(version, status, reason, [header], [page]))
            == Ok(Response(version, status, reason, HeaderMap([header]).value, page))
  {
    ParseResponseText(version, status, reason, [header], [page]);
    assert Concat([page]) == page + Concat([page][1..]);
    assert page + [] == page;
  }

  lemma ExampleLines(statusLine: string, header: string, page: string)
    requires statusLine == "HTTP/1.0 200 OK"
    requires header == "Content-Type: text/html" && page == "<html>hi</html>\n"
    ensures statusLine == "HTTP/1.0" + " " + "200" + " " + "OK"
    ensures Free(statusLine, CRLF) && Free(header, CRLF) && Free(page, CRLF)
    ensures ':' in header && !AllWhitespace(header)
  {
    NoCarriageReturn(statusLine);
    NoCarriageReturn(header);
    NoCarriageReturn(page);
    assert !IsWhitespace(header[0]);
  }

  lemma ExampleText(statusLine: string, header: string, page: string)
    requires statusLine == "HTTP/1.0 200 OK"
    requires header == "Content-Type: text/html" && page == "<html>hi</html>\n"
    ensures ResponseText("HTTP/1.0", "200", "OK", [header], [page])
            == "HTTP/1.0 200 OK" + CRLF + "Content-Type: text/html" + CRLF + CRLF + "<html>hi</html>\n"
  {
    var pieces := [statusLine] + ([header] + [""] + [page]);
    assert pieces == [statusLine, header, "", page];
    assert Join(pieces[3..], CRLF) == page;
    assert Join(pieces[2..], CRLF) == "" + CRLF + page;
    assert Join(pieces[1..], CRLF) == header + CRLF + ("" + CRLF + page);
    assert Join(pieces, CRLF) == statusLine + CRLF + (header + CRLF + ("" + CRLF + page));
    assert statusLine == "HTTP/1.0" + " " + "200" + " " + "OK";
    assert "" + CRLF + page == CRLF + page;
  }

  lemma ExampleHeader(header: string)
    requires header == "Content-Type: text/html"
    ensures HeaderMap([header]) == Ok(map["content-type" := "text/html"])
  {
    assert header == "Content-Type" + ":" + " text/html" + "";
    ExampleEntry("Content-Type", " text/html");
    HeaderMapOne(header);
  }

  lemma ExampleEntry(key: string, value: string)
    requires key == "Content-Type" && value == " text/html"
    ensures HeaderEntry(key + ":" + value + "") == Ok(("content-type", "text/html"))
  {
    ExampleNoColon(key, value);
    TrimExample(value, "text/html");
    LowerExample();
    HeaderEntryText(key, value, "");
  }

  lemma ExampleNoColon(key: string, value: string)
    requires key == "Content-Type" && value == " text/html"
    ensures ':' !in key && ':' !in value
  {
  }

  lemma TrimExample(value: string, w: string)
    requires w == "text/html" && value == " " + w
    ensures Trim(value) == w
  {
    TrimPadded(" ", w, "");
    assert " " + w + "" == value;
  }

  lemma LowerExample()
    ensures ToLowerAscii("Content-Type") == "content-type"
  {
    var key := "Content-Type";
    var r := ToLowerAscii(key);
    forall i | 0 <= i < |key| ensures r[i] == "content-type"[i] {
      assert r[i] == LowerChar(key[i]);
    }
  }

  /** The map of a single header line. */
  lemma HeaderMapOne(line: string)
    ensures HeaderMap([line]) == match HeaderEntry(line)
                                 case Err(e) => Err(e)
                                 case Ok((k, v)) => Ok(map[k := v])
  {
    assert [line][..0] == [];
    assert InsertEntries([line][..0], HeaderEntry) == Ok(map[]);
    assert [line][|[line]| - 1] == line;
  }
}
