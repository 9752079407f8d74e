/**
  `preview/browser/server.rs`: the single-threaded HTTP server of the browser preview.
  Modelled here:
  - the response texts it writes;
  - the `check_req` state machine, which accepts only `GET /`;
  - the `handler` loop, which reads a request into a 1024-byte buffer and answers it.

  The `httparse` request parser is a foreign call and enters as a parameter. It maps
  the bytes read so far to a parse error, or to a method, a path and a completeness
  flag. The socket is a finite script of read results. Writes to the socket always
  succeed. The accept loop (`server`) and `run_until` are not part of this model.
*/
module BrowserServer {
  import opened Wrappers
  import Text
  import Utf8

  type byte = Utf8.byte

  /** `TRY_PARSE_SIZE`: the size of the request buffer. */
  const TryParseSize: nat := 1024

  // ------------------------------------------------------------------ responses

  /** `response_status_line`: `HTTP/1.1 {code} {reason}` and CRLF. */
  function StatusLine(code: nat, reason: string): string
  {
    "HTTP/1.1 " + Text.Dec(code) + " " + reason + "\r\n"
  }

  /** `response_common`: the status line, then the headers in order, then the
      `Connection: close` header and the blank line that ends the head. */
  function ResponseCommon(code: nat, reason: string, headers: seq<string>): string
  {
    StatusLine(code, reason) + Text.Concat(headers) + ConnectionClose + "\r\n" + "\r\n"
  }

  const ConnectionClose := "Connection: close"
  const ContentTypeHtml := "Content-Type: text/html"
  const ContentEncodingUtf8 := "Content-Encoding: utf-8"

  /** The `Content-Length` header: the byte length (`str::len`) of the body. */
  function ContentLengthHeader(content: string): string
  {
    "Content-Length: " + Text.Dec(Utf8.Len(content)) + "\r\n"
  }

  function Headers200(content: string): seq<string>
  {
    [ContentTypeHtml + "\r\n", ContentEncodingUtf8 + "\r\n", ContentLengthHeader(content)]
  }

  /** `response_200`: the head of the answer that carries the page. */
  function Response200(content: string): string
  {
    ResponseCommon(200, "OK", Headers200(content))
  }

  function Response400(): string { ResponseCommon(400, "Bad Request", []) }

  function Response404(): string { ResponseCommon(404, "Not Found", []) }

  function Response405(): string { ResponseCommon(405, "Method Not Allowed", []) }

  /** A three-digit code can be read back from a status line: the line is the
      protocol, a space, the code's digits, a space, the reason and CRLF. */
  lemma StatusLineReadsBack(code: nat, reason: string)
    requires 100 <= code < 1000
    ensures var line := StatusLine(code, reason);
      |line| == |reason| + 15 &&
      line[..9] == "HTTP/1.1 " &&
      Text.DigitsValue(line[9..12], 10) == Some(code) &&
      line[12] == ' ' &&
      line[13..|line| - 2] == reason &&
      line[|line| - 2..] == "\r\n"
  {
    assert Text.Pow(10, 3) == 1000 && Text.Pow(10, 2) == 100;
    Text.ToBaseLength(code, 10, false, 3);
    Text.ToBaseLengthAtLeast(code, 10, false, 3);
    Text.DigitsValueToBase(code, 10, false);
    var line := StatusLine(code, reason);
    assert line[9..12] == Text.Dec(code);
    assert line[13..|line| - 2] == reason;
  }

  /** The `Content-Length` value reads back as the body's byte length. */
  lemma ContentLengthReadsBack(content: string)
    ensures var h := ContentLengthHeader(content);
      h[..16] == "Content-Length: " &&
      Text.DigitsValue(h[16..|h| - 2], 10) == Some(Utf8.Len(content)) &&
      h[|h| - 2..] == "\r\n"
  {
    var h := ContentLengthHeader(content);
    assert h[16..|h| - 2] == Text.Dec(Utf8.Len(content));
    Text.DigitsValueToBase(Utf8.Len(content), 10, false);
  }

  // ------------------------------------------------------------------ framing

  /** No CR and no LF. */
  predicate NoCrLf(s: string)
  {
    forall k | 0 <= k < |s| :: s[k] != '\r' && s[k] != '\n'
  }

  /** A header as the source writes it: a non-empty line without CR or LF, then CRLF. */
  predicate HeaderLine(h: string)
  {
    |h| >= 3 && h[|h| - 2..] == "\r\n" && NoCrLf(h[..|h| - 2])
  }

  /** The blank line `\r\n\r\n` starts at `i`. */
  predicate BlankAt(s: string, i: nat)
  {
    i + 4 <= |s| && s[i] == '\r' && s[i + 1] == '\n' && s[i + 2] == '\r' && s[i + 3] == '\n'
  }

  /** Lines, each followed by CRLF. */
  function CrLfLines(lines: seq<string>): string
  {
    if lines == [] then [] else lines[0] + "\r\n" + CrLfLines(lines[1..])
  }

  /** The headers without their CRLF. */
  function Stripped(headers: seq<string>): (lines: seq<string>)
    requires forall j | 0 <= j < |headers| :: HeaderLine(headers[j])
    ensures |lines| == |headers|
  {
    if headers == [] then []
    else
      assert HeaderLine(headers[0]);
      [headers[0][..|headers[0]| - 2]] + Stripped(headers[1..])
  }

  /** Stripping leaves non-empty lines without CR or LF. */
  lemma {:induction false} StrippedLines(headers: seq<string>)
    requires forall j | 0 <= j < |headers| :: HeaderLine(headers[j])
    ensures forall j | 0 <= j < |headers| :: Stripped(headers)[j] != [] && NoCrLf(Stripped(headers)[j])
  {
    if headers != [] {
      StrippedLines(headers[1..]);
      forall j | 0 <= j < |headers|
        ensures Stripped(headers)[j] != [] && NoCrLf(Stripped(headers)[j])
      {
        if j > 0 {
          assert Stripped(headers)[j] == Stripped(headers[1..])[j - 1];
        }
      }
    }
  }

  lemma {:induction false} ConcatHeaderLines(headers: seq<string>)
    requires forall j | 0 <= j < |headers| :: HeaderLine(headers[j])
    ensures Text.Concat(headers) == CrLfLines(Stripped(headers))
  {
    if headers != [] {
      ConcatHeaderLines(headers[1..]);
      var h := headers[0];
      assert h == h[..|h| - 2] + "\r\n";
    }
  }

  lemma CrLfLinesAppend(a: seq<string>, b: seq<string>)
    ensures CrLfLines(a + b) == CrLfLines(a) + CrLfLines(b)
  {
    if a != [] {
      assert (a + b)[0] == a[0] && (a + b)[1..] == a[1..] + b;
      CrLfLinesAppend(a[1..], b);
      assert CrLfLines(a + b) == a[0] + "\r\n" + (CrLfLines(a[1..]) + CrLfLines(b));
    } else {
      assert a + b == b;
    }
  }

  /** The first blank line of `s` starts at `p`. */
  predicate FirstBlankAt(s: string, p: nat)
  {
    BlankAt(s, p) && forall i | 0 <= i < p :: !BlankAt(s, i)
  }

  /** What follows a blank line does not move it. */
  lemma BlankBeforeBody(head: string, body: string, p: nat)
    requires p + 4 <= |head| && FirstBlankAt(head, p)
    ensures FirstBlankAt(head + body, p) && (head + body)[|head|..] == body
  {
    var w := head + body;
    assert w[p] == head[p] && w[p + 1] == head[p + 1] && w[p + 2] == head[p + 2] && w[p + 3] == head[p + 3];
    forall i | 0 <= i < p ensures !BlankAt(w, i) {
      assert !BlankAt(head, i);
      assert w[i] == head[i] && w[i + 1] == head[i + 1] && w[i + 2] == head[i + 2] && w[i + 3] == head[i + 3];
    }
  }

  /** A last line alone: its CRLF and the final CRLF are the first blank line. */
  lemma LastLineBlank(l: string)
    requires l != [] && NoCrLf(l)
    ensures FirstBlankAt(l + "\r\n\r\n", |l|)
  {
    var s := l + "\r\n\r\n";
    forall i | 0 <= i < |l| ensures !BlankAt(s, i) {
      assert s[i] == l[i];
    }
  }

  /** A line in front of text whose first blank line is at its end, and which does not
      start with CR, moves that blank line along and adds none. */
  lemma LineBeforeBlank(l: string, t: string)
    requires l != [] && NoCrLf(l)
    requires |t| >= 4 && t[0] != '\r' && FirstBlankAt(t, |t| - 4)
    ensures FirstBlankAt(l + "\r\n" + t, |l| + 2 + |t| - 4)
  {
    var s := l + "\r\n" + t;
    var p := |l| + 2 + |t| - 4;
    assert s[p] == t[|t| - 4] && s[p + 1] == t[|t| - 3];
    assert s[p + 2] == t[|t| - 2] && s[p + 3] == t[|t| - 1];
    forall i | 0 <= i < p ensures !BlankAt(s, i) {
      if i < |l| {
        assert s[i] == l[i];
      } else if i == |l| {
        assert s[i + 2] == t[0];
      } else if i == |l| + 1 {
        assert s[i] == '\n';
      } else {
        var j := i - |l| - 2;
        assert !BlankAt(t, j);
        assert s[i] == t[j] && s[i + 1] == t[j + 1] && s[i + 2] == t[j + 2] && s[i + 3] == t[j + 3];
      }
    }
  }

  /** Non-empty lines without CR or LF, each ended by CRLF, then one more CRLF: the
      only blank line is the final one. */
  lemma {:induction false} OnlyFinalBlank(lines: seq<string>)
    requires lines != []
    requires forall j | 0 <= j < |lines| :: lines[j] != [] && NoCrLf(lines[j])
    ensures var s := CrLfLines(lines) + "\r\n";
      BlankAt(s, |s| - 4) && forall i | 0 <= i < |s| - 4 :: !BlankAt(s, i)
  {
    var l := lines[0];
    var t := CrLfLines(lines[1..]) + "\r\n";
    var s := CrLfLines(lines) + "\r\n";
    assert s == l + "\r\n" + t;
    if lines[1..] != [] {
      OnlyFinalBlank(lines[1..]);
      assert t[0] == lines[1][0];
      LineBeforeBlank(l, t);
    } else {
      assert s == l + "\r\n\r\n";
      LastLineBlank(l);
    }
  }

  /** The digits of a decimal number hold no CR or LF. */
  lemma {:induction false} DecNoCrLf(n: nat)
    ensures NoCrLf(Text.Dec(n))
    decreases n
  {
    if n >= 10 {
      Text.DivStep(n, 10);
      DecNoCrLf(n / 10);
    }
  }

  /** The first line of a response: the status line without its CRLF. */
  function StatusText(code: nat, reason: string): string
  {
    "HTTP/1.1 " + Text.Dec(code) + " " + reason
  }

  /** `response_common` writes the lines: status, each header, `Connection: close`, and
      then the CRLF of the blank line. */
  lemma ResponseLines(code: nat, reason: string, headers: seq<string>)
    requires forall j | 0 <= j < |headers| :: HeaderLine(headers[j])
    ensures ResponseCommon(code, reason, headers) ==
      CrLfLines([StatusText(code, reason)] + Stripped(headers) + [ConnectionClose]) + "\r\n"
  {
    ConcatHeaderLines(headers);
    FirstMiddleLast(StatusText(code, reason), Stripped(headers), ConnectionClose);
    assert StatusLine(code, reason) == StatusText(code, reason) + "\r\n";
  }

  lemma FirstMiddleLast(first: string, middle: seq<string>, last: string)
    ensures CrLfLines([first] + middle + [last]) + "\r\n" ==
      (first + "\r\n") + CrLfLines(middle) + last + "\r\n" + "\r\n"
  {
    CrLfLinesAppend([first] + middle, [last]);
    CrLfLinesAppend([first], middle);
    assert CrLfLines([first]) == first + "\r\n";
    assert CrLfLines([last]) == last + "\r\n";
  }

  lemma StatusTextNoCrLf(code: nat, reason: string)
    requires NoCrLf(reason)
    ensures StatusText(code, reason) != [] && NoCrLf(StatusText(code, reason))
  {
    var first := StatusText(code, reason);
    var d := Text.Dec(code);
    DecNoCrLf(code);
    forall k | 0 <= k < |first| ensures first[k] != '\r' && first[k] != '\n' {
      if 9 <= k < 9 + |d| {
        assert first[k] == d[k - 9];
      } else if k >= 10 + |d| {
        assert first[k] == reason[k - 10 - |d|];
      }
    }
  }

  /** The head of a response whose reason and headers have the form the source uses
      ends at its last four chars and nowhere before, so a client that reads up to the
      first blank line reads all of it. */
  lemma ResponseHead(code: nat, reason: string, headers: seq<string>)
    requires NoCrLf(reason)
    requires forall j | 0 <= j < |headers| :: HeaderLine(headers[j])
    ensures var r := ResponseCommon(code, reason, headers);
      BlankAt(r, |r| - 4) && forall i | 0 <= i < |r| - 4 :: !BlankAt(r, i)
  {
    var lines := [StatusText(code, reason)] + Stripped(headers) + [ConnectionClose];
    ResponseLines(code, reason, headers);
    StatusTextNoCrLf(code, reason);
    StrippedLines(headers);
    FixedTextsNoCrLf();
    forall j | 0 <= j < |lines| ensures lines[j] != [] && NoCrLf(lines[j]) {
      if 1 <= j <= |headers| {
        assert lines[j] == Stripped(headers)[j - 1];
      }
    }
    OnlyFinalBlank(lines);
  }

  /** The fixed header texts have no CR or LF. */
  lemma FixedTextsNoCrLf()
    ensures NoCrLf(ConnectionClose) && NoCrLf(ContentTypeHtml) && NoCrLf(ContentEncodingUtf8)
  {
  }

  /** A fixed header text without CR or LF, followed by CRLF, is a header line. */
  lemma FixedHeaderLine(text: string)
    requires |text| >= 1 && NoCrLf(text)
    ensures HeaderLine(text + "\r\n")
  {
    var h := text + "\r\n";
    assert h[..|h| - 2] == text;
    assert h[|h| - 2..] == "\r\n";
  }

  /** The `Content-Length` header is a header line. */
  lemma ContentLengthLine(body: string)
    ensures HeaderLine(ContentLengthHeader(body))
  {
    var h := ContentLengthHeader(body);
    var d := Text.Dec(Utf8.Len(body));
    DecNoCrLf(Utf8.Len(body));
    assert h[..|h| - 2] == "Content-Length: " + d;
    forall k | 0 <= k < |h| - 2 ensures h[k] != '\r' && h[k] != '\n' {
      if k >= 16 {
        assert h[k] == d[k - 16];
      }
    }
  }

  /** The headers of the 200 answer have the form of header lines. */
  lemma Headers200AreLines(body: string)
    ensures forall j | 0 <= j < 3 :: HeaderLine(Headers200(body)[j])
  {
    var hs := Headers200(body);
    FixedTextsNoCrLf();
    forall j | 0 <= j < 3 ensures HeaderLine(hs[j]) {
      if j == 0 {
        FixedHeaderLine(ContentTypeHtml);
      } else if j == 1 {
        FixedHeaderLine(ContentEncodingUtf8);
      } else {
        ContentLengthLine(body);
      }
    }
  }

  /** The answer the handler writes for a complete `GET /`: the 200 head, then the
      body. The first blank line ends the head, what follows it is the body, and the
      `Content-Length` header (the third header) announces the body's byte length. */
  lemma PageAnswerFraming(body: string)
    ensures var head := Response200(body);
      var w := head + body;
      BlankAt(w, |head| - 4) && (forall i | 0 <= i < |head| - 4 :: !BlankAt(w, i)) &&
      w[|head|..] == body &&
      Headers200(body)[2] == ContentLengthHeader(body) &&
      Text.DigitsValue(ContentLengthHeader(body)[16..|ContentLengthHeader(body)| - 2], 10) ==
        Some(Utf8.Len(body))
  {
    Headers200AreLines(body);
    ResponseHead(200, "OK", Headers200(body));
    ContentLengthReadsBack(body);
    BlankBeforeBody(Response200(body), body, |Response200(body)| - 4);
  }

  /** The error answers are heads with no header besides `Connection: close`, framed as
      above. */
  lemma ErrorAnswersFraming()
    ensures var r := Response400(); BlankAt(r, |r| - 4) && forall i | 0 <= i < |r| - 4 :: !BlankAt(r, i)
    ensures var r := Response404(); BlankAt(r, |r| - 4) && forall i | 0 <= i < |r| - 4 :: !BlankAt(r, i)
    ensures var r := Response405(); BlankAt(r, |r| - 4) && forall i | 0 <= i < |r| - 4 :: !BlankAt(r, i)
  {
    ResponseHead(400, "Bad Request", []);
    ResponseHead(404, "Not Found", []);
    ResponseHead(405, "Method Not Allowed", []);
  }

  // --------------------------------------------------------------- check_req

  datatype RequestStatus = WrongMethod | WrongPath | NotHttp | Good

  datatype CheckRequestResult = Complete | Part(status: RequestStatus) | Unknown

  /** What `Request::parse` yields on the bytes read so far: an error, or the method and
      path it has found (if any) and whether the head is complete. */
  datatype Parse = ParseError | Parsed(complete: bool, reqMethod: Option<string>, path: Option<string>)

  /** `check_req`: Complete stays; a parse error means NotHttp; from Unknown the method
      is checked, then the path; an accepted request is Complete once its head is
      complete and `Part(Good)` before. */
  function CheckReq(buffer: seq<byte>, last: CheckRequestResult, parse: seq<byte> -> Parse): CheckRequestResult
  {
    if last == Complete then last
    else
      match parse(buffer)
      case ParseError => Part(NotHttp)
      case Parsed(complete, reqMethod, path) =>
        if last == Unknown && reqMethod.None? then Unknown
        else if last == Unknown && reqMethod.value != "GET" then Part(WrongMethod)
        else if last == Unknown && path.None? then Unknown
        else if last == Unknown && path.value != "/" then Part(WrongPath)
        else if complete then Complete
        else Part(Good)
  }

  /** `method == GET` and `path == /`. */
  predicate AcceptsGetRoot(p: Parse)
  {
    p.Parsed? && p.reqMethod == Some("GET") && p.path == Some("/")
  }

  /** Once Complete, `check_req` stays Complete whatever it is given. */
  lemma CompleteStays(buffer: seq<byte>, parse: seq<byte> -> Parse)
    ensures CheckReq(buffer, Complete, parse) == Complete
  {
  }

  /** From Unknown each outcome is characterised by the parse: the method is judged
      before the path, an absent method or (after a GET) an absent path leaves the
      request Unknown, and only `GET /` is accepted. */
  lemma FromUnknown(buffer: seq<byte>, parse: seq<byte> -> Parse)
    ensures var r := CheckReq(buffer, Unknown, parse); var p := parse(buffer);
      (r == Part(NotHttp) <==> p.ParseError?) &&
      (r == Part(WrongMethod) <==> p.Parsed? && p.reqMethod.Some? && p.reqMethod.value != "GET") &&
      (r == Unknown <==> p.Parsed? && (p.reqMethod.None? || (p.reqMethod == Some("GET") && p.path.None?))) &&
      (r == Part(WrongPath) <==>
        p.Parsed? && p.reqMethod == Some("GET") && p.path.Some? && p.path.value != "/") &&
      (r == Complete <==> AcceptsGetRoot(p) && p.complete) &&
      (r == Part(Good) <==> AcceptsGetRoot(p) && !p.complete)
  {
  }

  /** After acceptance (`Part(Good)`), the method and the path are not looked at again:
      a parse error means NotHttp, else the result follows completeness alone. */
  lemma AfterAcceptance(buffer: seq<byte>, parse: seq<byte> -> Parse)
    ensures var r := CheckReq(buffer, Part(Good), parse); var p := parse(buffer);
      (p.ParseError? ==> r == Part(NotHttp)) &&
      (p.Parsed? ==> (r == Complete <==> p.complete) && (r == Part(Good) <==> !p.complete))
  {
  }

  // ------------------------------------------------------------------ handler

  /** One call of `stream.read` on a non-blocking socket: bytes (the empty sequence at
      end of stream), `WouldBlock` together with what `exit_rx.try_recv` then finds
      (a message or a disconnected channel stop the server), or another I/O error. */
  datatype ReadEvent = Received(bytes: seq<byte>) | WouldBlock(exitSignalled: bool) | ReadFailed

  /** The handler's outcome: `Ok(true)` after writing an answer (its status code and
      text), `Ok(false)` on an exit signal, `Err` on a read error, or still reading
      when the script ends. `Closed` is only produced by the corrected `HandleSpecEof`:
      the connection given up after the peer closed it. */
  datatype Handled = Responded(code: nat, written: string) | Stopped | Failed | Reading | Closed

  function Min(a: nat, b: nat): nat { if a <= b then a else b }

  /** The answer `handler` writes for a status, if it answers: 200 with the body, 405,
      404, 400; nothing for `Part(Good)` and `Unknown`. */
  function Reply(status: CheckRequestResult, body: string): Option<(nat, string)>
  {
    match status
    case Complete => Some((200, Response200(body) + body))
    case Part(WrongMethod) => Some((405, Response405()))
    case Part(WrongPath) => Some((404, Response404()))
    case Part(NotHttp) => Some((400, Response400()))
    case _ => None
  }

  /** `handler` from its `i`-th read on, with `received` in the buffer and `status` the
      last answer of `check_req`. A read gets at most the free space of the buffer;
      a full buffer is answered 400 before any parse. */
  function HandleSpec(events: seq<ReadEvent>, i: nat, received: seq<byte>, status: CheckRequestResult,
                      body: string, parse: seq<byte> -> Parse): Handled
    requires i <= |events| && |received| < TryParseSize
    decreases |events| - i
  {
    if i == |events| then Reading
    else
      match events[i]
      case ReadFailed => Failed
      case WouldBlock(exitSignalled) =>
        if exitSignalled then Stopped else HandleSpec(events, i + 1, received, status, body, parse)
      case Received(bytes) =>
        var got := received + bytes[..Min(|bytes|, TryParseSize - |received|)];
        if |got| == TryParseSize then Responded(400, Response400())
        else
          var next := CheckReq(got, status, parse);
          match Reply(next, body)
          case Some(answer) => Responded(answer.0, answer.1)
          case None => HandleSpec(events, i + 1, got, next, body, parse)
  }

  /** `stream.read(&mut buffer[offset..])`: copies at most the free space. */
  method Read(buffer: array<byte>, offset: nat, bytes: seq<byte>) returns (size: nat)
    requires offset <= buffer.Length
    modifies buffer
    ensures size == Min(|bytes|, buffer.Length - offset)
    ensures buffer[..offset + size] == old(buffer[..offset]) + bytes[..size]
  {
    size := Min(|bytes|, buffer.Length - offset);
    var k := 0;
    while k < size
      invariant 0 <= k <= size
      invariant buffer[..offset + k] == old(buffer[..offset]) + bytes[..k]
    {
      buffer[offset + k] := bytes[k];
      assert bytes[..k + 1] == bytes[..k] + [bytes[k]];
      k := k + 1;
    }
  }

  /** `handler`: reads into a 1024-byte buffer until it can answer, the exit signal
      arrives or a read fails. */
  method Handle(events: seq<ReadEvent>, body: string, parse: seq<byte> -> Parse) returns (h: Handled)
    ensures h == HandleSpec(events, 0, [], Unknown, body, parse)
  {
    var buffer := new byte[TryParseSize];
    var offset := 0;
    var status := Unknown;
    var i := 0;
    while i < |events|
      invariant 0 <= i <= |events| && 0 <= offset < TryParseSize
      invariant HandleSpec(events, 0, [], Unknown, body, parse) ==
        HandleSpec(events, i, buffer[..offset], status, body, parse)
    {
      match events[i] {
        case ReadFailed =>
          return Failed;
        case WouldBlock(exitSignalled) =>
          if exitSignalled {
            return Stopped;
          }
        case Received(bytes) =>
          var size := Read(buffer, offset, bytes);
          var nextOffset := offset + size;
          if nextOffset == TryParseSize {
            return Responded(400, Response400());
          }
          status := CheckReq(buffer[..nextOffset], status, parse);
          var answer := Reply(status, body);
          if answer.Some? {
            return Responded(answer.value.0, answer.value.1);
          }
          offset := nextOffset;
      }
      i := i + 1;
    }
    return Reading;
  }

  /** A read that reaches 1024 bytes is answered 400 whatever the parser would say. */
  lemma FullBufferAnswers400(events: seq<ReadEvent>, i: nat, received: seq<byte>, status: CheckRequestResult,
                             body: string, parse: seq<byte> -> Parse, other: seq<byte> -> Parse)
    requires i < |events| && |received| < TryParseSize
    requires events[i].Received? && |received| + |events[i].bytes| >= TryParseSize
    ensures HandleSpec(events, i, received, status, body, parse) == Responded(400, Response400())
    ensures HandleSpec(events, i, received, status, body, other) == Responded(400, Response400())
  {
    var bytes := events[i].bytes;
    assert |received + bytes[..Min(|bytes|, TryParseSize - |received|)]| == TryParseSize;
  }

  /** An answer, if any, is one of the four: the page (200, head and body), 405, 404
      or 400. */
  predicate KnownAnswer(h: Handled, body: string)
  {
    h.Responded? ==>
      (h.code == 200 && h.written == Response200(body) + body) ||
      (h.code == 405 && h.written == Response405()) ||
      (h.code == 404 && h.written == Response404()) ||
      (h.code == 400 && h.written == Response400())
  }

  /** Every answer is one of the four: the page (200, head and body), 405, 404 or 400. */
  lemma {:induction false} AnswersAreResponses(events: seq<ReadEvent>, i: nat, received: seq<byte>,
                                               status: CheckRequestResult, body: string, parse: seq<byte> -> Parse)
    requires i <= |events| && |received| < TryParseSize
    ensures KnownAnswer(HandleSpec(events, i, received, status, body, parse), body)
    decreases |events| - i
  {
    if i < |events| {
      match events[i]
      case ReadFailed =>
      case WouldBlock(exitSignalled) =>
        if !exitSignalled {
          AnswersAreResponses(events, i + 1, received, status, body, parse);
        }
      case Received(bytes) =>
        var got := received + bytes[..Min(|bytes|, TryParseSize - |received|)];
        if |got| < TryParseSize {
          var next := CheckReq(got, status, parse);
          if Reply(next, body).None? {
            AnswersAreResponses(events, i + 1, got, next, body, parse);
          }
        }
    }
  }

  /** The bytes the socket delivers from read `i` on. */
  function Delivered(events: seq<ReadEvent>, i: nat): seq<byte>
    requires i <= |events|
    decreases |events| - i
  {
    if i == |events| then []
    else (if events[i].Received? then events[i].bytes else []) + Delivered(events, i + 1)
  }

  /** What the buffer holds when `handler` returns, or when the script ends. */
  function FinalBuffer(events: seq<ReadEvent>, i: nat, received: seq<byte>, status: CheckRequestResult,
                       body: string, parse: seq<byte> -> Parse): seq<byte>
    requires i <= |events| && |received| < TryParseSize
    decreases |events| - i
  {
    if i == |events| then received
    else
      match events[i]
      case ReadFailed => received
      case WouldBlock(exitSignalled) =>
        if exitSignalled then received else FinalBuffer(events, i + 1, received, status, body, parse)
      case Received(bytes) =>
        var got := received + bytes[..Min(|bytes|, TryParseSize - |received|)];
        if |got| == TryParseSize then got
        else
          var next := CheckReq(got, status, parse);
          if Reply(next, body).Some? then got
          else FinalBuffer(events, i + 1, got, next, body, parse)
  }

  /** The buffer only grows, and only with what the socket delivered, in order. */
  lemma {:induction false} FinalBufferDelivered(events: seq<ReadEvent>, i: nat, received: seq<byte>,
                                                status: CheckRequestResult, body: string, parse: seq<byte> -> Parse)
    requires i <= |events| && |received| < TryParseSize
    ensures var final := FinalBuffer(events, i, received, status, body, parse);
      received <= final && final <= received + Delivered(events, i)
    decreases |events| - i
  {
    if i < |events| {
      var rest := Delivered(events, i + 1);
      match events[i]
      case ReadFailed =>
      case WouldBlock(exitSignalled) =>
        if !exitSignalled {
          FinalBufferDelivered(events, i + 1, received, status, body, parse);
        }
      case Received(bytes) =>
        var got := received + bytes[..Min(|bytes|, TryParseSize - |received|)];
        assert received + Delivered(events, i) == (received + bytes) + rest;
        if |got| < TryParseSize {
          assert got == received + bytes;
          var next := CheckReq(got, status, parse);
          if Reply(next, body).None? {
            FinalBufferDelivered(events, i + 1, got, next, body, parse);
          }
        }
    }
  }

  /** Some prefix of `buffer` parses as a `GET /` request. */
  ghost predicate AcceptedWithin(buffer: seq<byte>, parse: seq<byte> -> Parse)
  {
    exists k | 0 <= k <= |buffer| :: AcceptsGetRoot(parse(buffer[..k]))
  }

  lemma AcceptedWithinGrows(a: seq<byte>, b: seq<byte>, parse: seq<byte> -> Parse)
    requires a <= b && AcceptedWithin(a, parse)
    ensures AcceptedWithin(b, parse)
  {
    var k :| 0 <= k <= |a| && AcceptsGetRoot(parse(a[..k]));
    assert b[..k] == a[..k];
  }

  /** The page is served only when the bytes in the buffer, all of them received from
      the socket, parse as a complete head, and some prefix of them was accepted as
      `GET /`; the handler never goes back to looking at the method or the path. */
  lemma {:induction false} ServesOnlyGetRoot(events: seq<ReadEvent>, i: nat, received: seq<byte>,
                                             status: CheckRequestResult, body: string, parse: seq<byte> -> Parse)
    requires i <= |events| && |received| < TryParseSize
    requires status == Unknown || (status == Part(Good) && AcceptedWithin(received, parse))
    ensures var h, final := HandleSpec(events, i, received, status, body, parse),
                            FinalBuffer(events, i, received, status, body, parse);
      received <= final && final <= received + Delivered(events, i) &&
      (h.Responded? && h.code == 200 ==>
        AcceptedWithin(final, parse) && parse(final).Parsed? && parse(final).complete)
    decreases |events| - i
  {
    FinalBufferDelivered(events, i, received, status, body, parse);
    if i < |events| {
      match events[i]
      case ReadFailed =>
      case WouldBlock(exitSignalled) =>
        if !exitSignalled {
          ServesOnlyGetRoot(events, i + 1, received, status, body, parse);
        }
      case Received(bytes) =>
        var got := received + bytes[..Min(|bytes|, TryParseSize - |received|)];
        if |got| < TryParseSize {
          var next := CheckReq(got, status, parse);
          FromUnknown(got, parse);
          if status == Part(Good) {
            AcceptedWithinGrows(received, got, parse);
          } else if next == Complete || next == Part(Good) {
            assert got[..|got|] == got;
            assert AcceptsGetRoot(parse(got));
          }
          if next == Complete {
            assert parse(got).Parsed? && parse(got).complete;
          }
          if Reply(next, body).None? {
            ServesOnlyGetRoot(events, i + 1, got, next, body, parse);
          }
        }
    }
  }

  /** As written, a zero-byte read (the peer has closed the connection) is read again
      and again: with a request accepted but not yet complete, no number of such reads
      makes the handler answer, stop or fail, since the exit signal is consulted only on
      `WouldBlock`. */
  lemma {:induction false} ZeroReadsNeverAnswer(events: seq<ReadEvent>, i: nat, received: seq<byte>, body: string,
                                                parse: seq<byte> -> Parse)
    requires i <= |events| && |received| < TryParseSize
    requires parse(received).Parsed? && !parse(received).complete
    requires forall j | i <= j < |events| :: events[j] == Received([])
    ensures HandleSpec(events, i, received, Part(Good), body, parse) == Reading
    decreases |events| - i
  {
    if i < |events| {
      assert received + events[i].bytes[..0] == received;
      ZeroReadsNeverAnswer(events, i + 1, received, body, parse);
    }
  }

  /** `handler` as evidently intended: a zero-byte read ends the connection. */
  function HandleSpecEof(events: seq<ReadEvent>, i: nat, received: seq<byte>, status: CheckRequestResult,
                         body: string, parse: seq<byte> -> Parse): Handled
    requires i <= |events| && |received| < TryParseSize
    decreases |events| - i
  {
    if i == |events| then Reading
    else
      match events[i]
      case ReadFailed => Failed
      case WouldBlock(exitSignalled) =>
        if exitSignalled then Stopped else HandleSpecEof(events, i + 1, received, status, body, parse)
      case Received(bytes) =>
        if bytes == [] then Closed
        else
          var got := received + bytes[..Min(|bytes|, TryParseSize - |received|)];
          if |got| == TryParseSize then Responded(400, Response400())
          else
            var next := CheckReq(got, status, parse);
            match Reply(next, body)
            case Some(answer) => Responded(answer.0, answer.1)
            case None => HandleSpecEof(events, i + 1, got, next, body, parse)
  }

  /** With the correction, the handler keeps reading only while the peer has not closed,
      and gives up only after it closed; on scripts without a zero-byte read it is the
      handler as written. */
  lemma {:induction false} EofEndsHandling(events: seq<ReadEvent>, i: nat, received: seq<byte>,
                                           status: CheckRequestResult, body: string, parse: seq<byte> -> Parse)
    requires i <= |events| && |received| < TryParseSize
    ensures var h := HandleSpecEof(events, i, received, status, body, parse);
      (h.Reading? ==> forall j | i <= j < |events| :: events[j] != Received([])) &&
      (h.Closed? ==> exists j | i <= j < |events| :: events[j] == Received([])) &&
      ((forall j | i <= j < |events| :: events[j] != Received([])) ==>
        h == HandleSpec(events, i, received, status, body, parse))
    decreases |events| - i
  {
    if i < |events| {
      match events[i]
      case ReadFailed =>
      case WouldBlock(exitSignalled) =>
        if !exitSignalled {
          EofEndsHandling(events, i + 1, received, status, body, parse);
        }
      case Received(bytes) =>
        if bytes != [] {
          var got := received + bytes[..Min(|bytes|, TryParseSize - |received|)];
          if |got| < TryParseSize {
            var next := CheckReq(got, status, parse);
            if Reply(next, body).None? {
              EofEndsHandling(events, i + 1, got, next, body, parse);
            }
          }
        }
    }
  }

  /** The handler stops only on an exit signal and fails only on a read error, both
      met before it answered. */
  lemma {:induction false} StopAndFailCauses(events: seq<ReadEvent>, i: nat, received: seq<byte>,
                                             status: CheckRequestResult, body: string, parse: seq<byte> -> Parse)
    requires i <= |events| && |received| < TryParseSize
    ensures var h := HandleSpec(events, i, received, status, body, parse);
      (h.Stopped? ==> exists j | i <= j < |events| :: events[j] == WouldBlock(true)) &&
      (h.Failed? ==> exists j | i <= j < |events| :: events[j] == ReadFailed) &&
      (h.Reading? ==> forall j | i <= j < |events| :: events[j] != ReadFailed && events[j] != WouldBlock(true))
    decreases |events| - i
  {
    if i < |events| {
      match events[i]
      case ReadFailed =>
      case WouldBlock(exitSignalled) =>
        if !exitSignalled {
          StopAndFailCauses(events, i + 1, received, status, body, parse);
        }
      case Received(bytes) =>
        var got := received + bytes[..Min(|bytes|, TryParseSize - |received|)];
        if |got| < TryParseSize {
          var next := CheckReq(got, status, parse);
          if Reply(next, body).None? {
            StopAndFailCauses(events, i + 1, got, next, body, parse);
          }
        }
    }
  }
}
