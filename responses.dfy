/** The texts the four response writers send: status line and headers with a
    declared Content-Length, and the HTML bodies of the stats and calc pages. */
module Responses {
  import opened Bytes
  import opened Decimal

  const HeaderEnd: Bytes := "\r\n\r\n"

  /** Header of `send_stats` and `handle_calc` up to the Content-Length value. */
  const HtmlHeaderLead: Bytes := "HTTP/1.1 200 OK\r\nContent-Type: text/html\r\nContent-Length: "

  /** Header of `send_file` up to the Content-Length value (no Content-Type). */
  const FileHeaderLead: Bytes := "HTTP/1.1 200 OK\r\nContent-Length: "

  /** Header of `send_404` up to the Content-Length value. */
  const NotFoundLead: Bytes := "HTTP/1.1 404 Not Found\r\nContent-Type: text/html\r\nContent-Length: "

  const NotFoundBody: Bytes :=
    "<html><body><h1>404 Not Found</h1><p>The requested page could not be found.</p></body></html>"

  /** A header that declares `length` bytes of content: `snprintf` with `%d`. */
  function Header(lead: Bytes, length: int): Bytes
  {
    lead + IntToString(length) + HeaderEnd
  }

  /** The Content-Length a client reads from a response that starts with `lead`:
      the decimal number right after the field name. */
  function DeclaredLength(lead: Bytes, response: Bytes): Option<int>
  {
    if !StartsWith(response, lead) then None
    else match ScanDecimal(response[|lead|..])
      case None => None
      case Some(field) => Some(field.n)
  }

  /** Whatever follows it, a header built by `Header` declares the length it was given. */
  lemma HeaderDeclares(lead: Bytes, length: int, content: Bytes)
    ensures DeclaredLength(lead, Header(lead, length) + content) == Some(length)
  {
    var response := Header(lead, length) + content;
    var tail := HeaderEnd + content;
    assert response == lead + (IntToString(length) + tail);
    assert response[..|lead|] == lead;
    assert response[|lead|..] == IntToString(length) + tail;
    assert !IsDigit(tail[0]) by {
      assert tail[0] == HeaderEnd[0] == '\r';
    }
    ScanIntToString(length, tail);
  }

  /** The 404 response exactly as `send_404` sends it: a fixed Content-Length of 58. */
  const NotFoundAsWritten: Bytes := NotFoundLead + "58" + HeaderEnd + NotFoundBody

  /** The 404 response with the Content-Length of its own body, 93. */
  const NotFoundResponse: Bytes := NotFoundLead + "93" + HeaderEnd + NotFoundBody

  /** The fixed 404 declares 58 bytes of content but carries a 93-byte body. */
  lemma NotFoundMisdeclared()
    ensures DeclaredLength(NotFoundLead, NotFoundAsWritten) == Some(58)
    ensures |NotFoundBody| == 93
  {
    assert IntToString(58) == "58" by {
      assert NatToString(5) == [DigitChar(5)];
      assert NatToString(58) == NatToString(5) + [DigitChar(8)];
    }
    assert NotFoundAsWritten == Header(NotFoundLead, 58) + NotFoundBody;
    HeaderDeclares(NotFoundLead, 58, NotFoundBody);
  }

  /** The corrected 404 declares exactly the length of its body. */
  lemma NotFoundDeclaresBody()
    ensures DeclaredLength(NotFoundLead, NotFoundResponse) == Some(|NotFoundBody|)
    ensures StartsWith(NotFoundResponse, NotFoundLead)
    ensures NotFoundResponse[|NotFoundResponse| - |NotFoundBody|..] == NotFoundBody
  {
    assert IntToString(93) == "93" by {
      assert NatToString(9) == [DigitChar(9)];
      assert NatToString(93) == NatToString(9) + [DigitChar(3)];
    }
    assert NotFoundResponse == Header(NotFoundLead, 93) + NotFoundBody;
    HeaderDeclares(NotFoundLead, 93, NotFoundBody);
  }

  /** The three counters of the stats registry, as one snapshot. */
  datatype Counters = Counters(requests: int, received: int, sent: int)

  /** The stats page `send_stats` formats from one snapshot of the counters. */
  function StatsBody(c: Counters): Bytes
  {
    "<html><head><title>Server Statistics</title></head><body>"
    + "<h1>Server Statistics</h1>"
    + "<p><strong>Total Requests:</strong> " + IntToString(c.requests) + "</p>"
    + "<p><strong>Total Bytes Received:</strong> " + IntToString(c.received) + " bytes</p>"
    + "<p><strong>Total Bytes Sent:</strong> " + IntToString(c.sent) + " bytes</p>"
    + "</body></html>"
  }

  /** The result page `handle_calc` formats: both operands and their sum. */
  function CalcBody(a: int, b: int): Bytes
  {
    "<html><head><title>Calculation Result</title></head><body>"
    + "<h1>Calculation Result</h1>"
    + "<p><strong>Sum of " + IntToString(a) + " and " + IntToString(b) + ":</strong> "
    + IntToString(a + b) + "</p>"
    + "</body></html>"
  }

  /** A header whose length fits a C `int` is at most 15 bytes longer than its lead,
      so none of the writers' `BUFFER_SIZE` header buffers truncates it. */
  lemma HeaderFits(lead: Bytes, length: int)
    requires IsInt32(length)
    ensures StartsWith(Header(lead, length), lead)
    ensures |Header(lead, length)| <= |lead| + 15
  {
    IntToStringInt32(length);
    assert Header(lead, length) == lead + (IntToString(length) + HeaderEnd);
    assert Header(lead, length)[..|lead|] == lead;
  }

  /** With counters that fit a C `int`, the stats page is shorter than `BUFFER_SIZE`:
      `snprintf` writes it whole and returns its length. */
  lemma StatsBodyFits(c: Counters)
    requires IsInt32(c.requests) && IsInt32(c.received) && IsInt32(c.sent)
    ensures |StatsBody(c)| < BufferSize
  {
    IntToStringInt32(c.requests);
    IntToStringInt32(c.received);
    IntToStringInt32(c.sent);
  }

  /** With operands and a sum that fit a C `int`, the result page is shorter than
      `BUFFER_SIZE`: `snprintf` writes it whole and returns its length. */
  lemma CalcBodyFits(a: int, b: int)
    requires IsInt32(a) && IsInt32(b) && IsInt32(a + b)
    ensures |CalcBody(a, b)| < BufferSize
  {
    IntToStringInt32(a);
    IntToStringInt32(b);
    IntToStringInt32(a + b);
  }

  /** The two sends of a 200 text/html writer: the header, then the body. The header
      declares the body's length, and together they are the bytes it accounts as sent. */
  function HtmlReply(body: Bytes): (r: seq<Bytes>)
    ensures |r| == 2 && r[1] == body
    ensures DeclaredLength(HtmlHeaderLead, r[0]) == Some(|body|)
    ensures TotalLength(r) == |r[0]| + |body|
  {
    var header := Header(HtmlHeaderLead, |body|);
    HeaderDeclares(HtmlHeaderLead, |body|, []);
    assert header + [] == header;
    assert [header, body][..1] == [header] && [header][..0] == [];
    assert TotalLength([header]) == |header|;
    [header, body]
  }
}
