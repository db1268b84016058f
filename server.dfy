/** The request-handling path of the server: the global stats counters, one
    connection's output, the four response writers and `handle_client`. Each region
    the server runs under `stats_lock` is one method of `StatsRegistry`, taken as
    one atomic step. */
module Server {
  import opened Bytes
  import opened Decimal
  import opened Router
  import opened CalcQuery
  import opened StaticPath
  import opened Responses

  /** `total_requests`, `total_received_bytes` and `total_sent_bytes`. */
  class StatsRegistry {
    var requests: int
    var received: int
    var sent: int

    /** No counter is negative, and every counted request brought at least one
        byte. */
    ghost predicate Valid()
      reads this
    {
      0 <= requests <= received && 0 <= sent
    }

    constructor ()
      ensures Valid()
      ensures requests == 0 && received == 0 && sent == 0
    {
      requests, received, sent := 0, 0, 0;
    }

    /** The locked region of `handle_client` after a receive of `n` bytes. */
    method RecordRequest(n: int)
      requires Valid() && n > 0
      modifies this
      ensures Valid()
      ensures requests == old(requests) + 1 && received == old(received) + n
      ensures sent == old(sent)
    {
      requests := requests + 1;
      received := received + n;
    }

    /** The locked regions in the writers that add `n` bytes to the sent counter. */
    method AddSent(n: int)
      requires Valid() && n >= 0
      modifies this
      ensures Valid()
      ensures sent == old(sent) + n
      ensures requests == old(requests) && received == old(received)
    {
      sent := sent + n;
    }

    /** The locked region of `send_stats`: all three counters read under one
        acquisition of the lock. */
    method Snapshot() returns (c: Counters)
      ensures c == Counters(requests, received, sent)
    {
      c := Counters(requests, received, sent);
    }
  }

  /** One accepted client socket: what has been sent on it, in order, one entry per
      `send` call, and whether it is still open. */
  class Connection {
    var sends: seq<Bytes>
    var open: bool

    constructor ()
      ensures sends == [] && open
    {
      sends, open := [], true;
    }

    method Send(data: Bytes)
      requires open
      modifies this
      ensures sends == old(sends) + [data] && open
    {
      sends := sends + [data];
    }

    method Close()
      modifies this
      ensures sends == old(sends) && !open
    {
      open := false;
    }
  }

  /** What `send_file` can learn of an opened file: the size `fstat` reports, and the
      successive results of `read` into its BUFFER_SIZE buffer. An empty result is
      `read` returning 0 (end of file) or an error; the sequence ending is end of file. */
  datatype File = File(size: int, chunks: seq<Bytes>)

  /** `read(file, buf, BUFFER_SIZE)` never returns more than BUFFER_SIZE bytes. */
  predicate ReadsFit(f: File)
  {
    forall i :: 0 <= i < |f.chunks| ==> |f.chunks[i]| <= BufferSize
  }

  /** The files `open` succeeds on, by path. */
  type Files = map<Bytes, File>

  /** The chunks the streaming loop of `send_file` sends: every read up to the first
      one that returns nothing. */
  function Streamed(f: File): (r: seq<Bytes>)
    ensures StartsWith(f.chunks, r) && [] !in r
    ensures |r| < |f.chunks| ==> f.chunks[|r|] == []
  {
    Until(f.chunks, [])
  }

  /** Every streamed chunk is a successful read: not empty and at most BUFFER_SIZE
      bytes. So the loop accounts at most BUFFER_SIZE bytes per pass, and a file whose
      reads all succeed is streamed whole. */
  lemma {:induction false} StreamedChunks(f: File)
    requires ReadsFit(f)
    ensures forall i :: 0 <= i < |Streamed(f)| ==> 0 < |Streamed(f)[i]| <= BufferSize
    ensures TotalLength(Streamed(f)) <= BufferSize * |Streamed(f)|
    ensures [] !in f.chunks ==> Streamed(f) == f.chunks
  {
    var s := Streamed(f);
    assert s == f.chunks[..|s|];
    forall i | 0 <= i < |s| ensures 0 < |s[i]| <= BufferSize {
      assert s[i] in s;
    }
    TotalLengthBound(s);
    if [] !in f.chunks {
      UntilUnique(f.chunks, [], |f.chunks|);
      assert f.chunks[..|f.chunks|] == f.chunks;
    }
  }

  /** The loop of `send_file` stops at read `k` exactly when every read before it
      returned something and read `k` returned nothing or was never made. */
  lemma StreamedUpTo(f: File, k: nat)
    requires k <= |f.chunks|
    requires forall j :: 0 <= j < k ==> |f.chunks[j]| > 0
    requires k == |f.chunks| || |f.chunks[k]| == 0
    ensures Streamed(f) == f.chunks[..k]
  {
    assert [] !in f.chunks[..k];
    UntilUnique(f.chunks, [], k);
  }

  lemma {:induction false} TotalLengthBound(parts: seq<Bytes>)
    requires forall i :: 0 <= i < |parts| ==> |parts[i]| <= BufferSize
    ensures TotalLength(parts) <= BufferSize * |parts|
  {
    if parts != [] {
      TotalLengthBound(parts[..|parts| - 1]);
    }
  }

  /** What a writer sends on the connection, and how many bytes it adds to the sent
      counter. */
  datatype Reply = Reply(sends: seq<Bytes>, accounted: int)

  /** The stats page for a snapshot, sent as header and body, both accounted. */
  function StatsReply(c: Counters): Reply
  {
    var r := HtmlReply(StatsBody(c));
    Reply(r, TotalLength(r))
  }

  /** The operands `handle_calc` reads from the C string at `buffer + 10`. */
  function CalcOperands(query: Bytes): (int, int)
  {
    ScanQuery(CString(query))
  }

  /** On the query of a request `GET /calc?a=<x>&b=<y>...` the operands are `x` and
      `y`, whatever the rest of the received data holds after them (NUL bytes
      included), as long as no digit extends `y`. */
  lemma CalcOperandsOfQuery(x: int, y: int, rest: Bytes)
    requires rest == [] || !IsDigit(rest[0])
    ensures CalcOperands("a=" + IntToString(x) + "&b=" + IntToString(y) + rest) == (x, y)
  {
    var lead := "a=" + IntToString(x) + "&b=" + IntToString(y);
    assert NUL !in lead;
    UntilAppend(lead, rest, NUL);
    assert lead + rest == "a=" + IntToString(x) + "&b=" + IntToString(y) + rest;
    ScanQueryBoth(x, y, CString(rest));
  }

  /** On the query `a=<x>` without a following `&b=`, the sum is `x`: `b` stays 0. */
  lemma CalcOperandsOnlyA(x: int, rest: Bytes)
    requires rest == [] || !IsDigit(rest[0])
    requires !StartsWith(rest, "&b=")
    ensures CalcOperands("a=" + IntToString(x) + rest) == (x, 0)
  {
    var lead := "a=" + IntToString(x);
    assert NUL !in lead;
    UntilAppend(lead, rest, NUL);
    var cut := CString(rest);
    assert !StartsWith(cut, "&b=");
    ScanQueryOnlyA(x, cut);
  }

  /** The result page for a query, sent as header and body, both accounted. */
  function CalcReply(query: Bytes): Reply
  {
    var (a, b) := CalcOperands(query);
    var r := HtmlReply(CalcBody(a, b));
    Reply(r, TotalLength(r))
  }

  /** What `send_404` sends, its fixed response; it accounts nothing. */
  function NotFoundReply(): Reply
  {
    Reply([NotFoundAsWritten], 0)
  }

  /** What `open` gives `send_file` for the path it builds from `path` with
      `snprintf`: the file at that path, or nothing when there is none. */
  function Open(path: Bytes, files: Files): (r: Option<File>)
    requires |path| >= 7
    ensures r.Some? <==> FilePath(path) in files
    ensures r.Some? ==> r.value == files[FilePath(path)]
  {
    var target := FilePath(path);
    if target in files then Some(files[target]) else None
  }

  /** What `send_file` sends after `open`: the 404 when it failed; otherwise a header
      declaring the size `fstat` gave, then the streamed chunks, of which only the
      chunks are accounted. */
  function FileReply(found: Option<File>): Reply
  {
    match found
    case None => NotFoundReply()
    case Some(f) => Reply([Header(FileHeaderLead, f.size)] + Streamed(f), TotalLength(Streamed(f)))
  }

  /** The whole response to a routed request, given the counters when it starts. */
  function Exchange(route: Route, c: Counters, files: Files): (r: Reply)
    requires route.Static? ==> |route.path| >= 7
    ensures r.sends != [] && r.accounted >= 0
  {
    match route
    case Stats => StatsReply(c)
    case Static(path) => FileReply(Open(path, files))
    case Calc(query) => CalcReply(query)
    case NotFound => NotFoundReply()
  }

  /** The sent counter never runs ahead of the wire, and it keeps pace with it exactly
      for the stats and calc pages: `send_file` leaves out its header and `send_404`
      its whole response. */
  lemma ExchangeAccounted(route: Route, c: Counters, files: Files)
    requires route.Static? ==> |route.path| >= 7
    ensures var r := Exchange(route, c, files);
      r.accounted <= TotalLength(r.sends) &&
      (r.accounted == TotalLength(r.sends) <==> route.Stats? || route.Calc?)
  {
    match route
    case Stats =>
    case Calc(_) =>
    case NotFound =>
      NotFoundAccounted();
    case Static(path) =>
      FileAccounted(Open(path, files));
  }

  lemma NotFoundAccounted()
    ensures NotFoundReply().accounted < TotalLength(NotFoundReply().sends)
  {
    var sends := [NotFoundAsWritten];
    assert TotalLength(sends) == |NotFoundAsWritten| by {
      assert sends[..0] == [];
    }
    assert |NotFoundLead| > 0;
  }

  lemma FileAccounted(found: Option<File>)
    ensures FileReply(found).accounted < TotalLength(FileReply(found).sends)
  {
    FileAccounting(found);
    match found
    case None =>
      NotFoundAccounted();
    case Some(f) =>
      assert |Header(FileHeaderLead, f.size)| > 0 by {
        assert |FileHeaderLead| > 0;
      }
  }

  /** How the sent counter of `send_file` moves against what goes on the wire: not at
      all for the 404, which is one fixed response; otherwise by the streamed chunks
      but not by the header, which declares the size `fstat` reported. */
  lemma FileAccounting(found: Option<File>)
    ensures var r := FileReply(found);
      r.sends != [] &&
      (found.None? ==> r.sends == [NotFoundAsWritten] && r.accounted == 0) &&
      (found.Some? ==>
        r.accounted == TotalLength(r.sends) - |r.sends[0]| &&
        r.sends[1..] == Streamed(found.value) &&
        DeclaredLength(FileHeaderLead, r.sends[0]) == Some(found.value.size))
  {
    if found.Some? {
      var f := found.value;
      var head := [Header(FileHeaderLead, f.size)];
      TotalLengthAppend(head, Streamed(f));
      HeaderDeclares(FileHeaderLead, f.size, []);
      assert head[0] + [] == head[0];
      assert TotalLength(head) == |head[0]| by {
        assert head[..0] == [];
      }
    }
  }

  /** `send_404`. */
  method Send404(conn: Connection)
    requires conn.open
    modifies conn
    ensures conn.open
    ensures conn.sends == old(conn.sends) + NotFoundReply().sends
  {
    conn.Send(NotFoundAsWritten);
  }

  /** `send_stats`: one snapshot under the lock, header and body sent, then both
      lengths added to the sent counter under the lock again. */
  method SendStats(stats: StatsRegistry, conn: Connection)
    requires stats.Valid() && conn.open
    modifies stats, conn
    ensures stats.Valid() && conn.open
    ensures var reply := StatsReply(Counters(old(stats.requests), old(stats.received), old(stats.sent)));
      conn.sends == old(conn.sends) + reply.sends &&
      stats.sent == old(stats.sent) + reply.accounted
    ensures stats.requests == old(stats.requests) && stats.received == old(stats.received)
  {
    var snapshot := stats.Snapshot();
    var body := StatsBody(snapshot);
    var header := Header(HtmlHeaderLead, |body|);
    conn.Send(header);
    conn.Send(body);
    stats.AddSent(|body| + |header|);
  }

  /** `handle_calc`: operands scanned from the query, the result page sent as
      header and body, both lengths added to the sent counter. */
  method HandleCalc(stats: StatsRegistry, conn: Connection, query: Bytes)
    requires stats.Valid() && conn.open
    modifies stats, conn
    ensures stats.Valid() && conn.open
    ensures conn.sends == old(conn.sends) + CalcReply(query).sends
    ensures stats.sent == old(stats.sent) + CalcReply(query).accounted
    ensures stats.requests == old(stats.requests) && stats.received == old(stats.received)
  {
    var operands := CalcOperands(query);
    var a, b := operands.0, operands.1;
    var body := CalcBody(a, b);
    var header := Header(HtmlHeaderLead, |body|);
    conn.Send(header);
    conn.Send(body);
    stats.AddSent(|body| + |header|);
  }

  /** `send_file`: open the file at the path built from `path`, answer 404 if that
      fails, else send the header and stream the reads until one returns nothing,
      adding each chunk's length to the sent counter under the lock. */
  method SendFile(stats: StatsRegistry, conn: Connection, path: Bytes, files: Files)
    requires stats.Valid() && conn.open
    requires |path| >= 7
    modifies stats, conn
    ensures stats.Valid() && conn.open
    ensures conn.sends == old(conn.sends) + FileReply(Open(path, files)).sends
    ensures stats.sent == old(stats.sent) + FileReply(Open(path, files)).accounted
    ensures stats.requests == old(stats.requests) && stats.received == old(stats.received)
  {
    var found := Open(path, files);
    match found
    case None =>
      Send404(conn);
    case Some(file) =>
      SendOpenFile(stats, conn, file);
  }

  /** `send_file` once `open` succeeded: the header with the size `fstat` reports,
      then the streamed chunks. */
  method SendOpenFile(stats: StatsRegistry, conn: Connection, file: File)
    requires stats.Valid() && conn.open
    modifies stats, conn
    ensures stats.Valid() && conn.open
    ensures conn.sends == old(conn.sends) + FileReply(Some(file)).sends
    ensures stats.sent == old(stats.sent) + FileReply(Some(file)).accounted
    ensures stats.requests == old(stats.requests) && stats.received == old(stats.received)
  {
    var header := Header(FileHeaderLead, file.size);
    conn.Send(header);
    Stream(stats, conn, file);
    AppendAssoc(old(conn.sends), [header], Streamed(file));
  }

  /** The loop of `send_file`: read a chunk, send it, add its length to the sent
      counter under the lock, until a read returns nothing. */
  method Stream(stats: StatsRegistry, conn: Connection, file: File)
    requires stats.Valid() && conn.open
    modifies stats, conn
    ensures stats.Valid() && conn.open
    ensures conn.sends == old(conn.sends) + Streamed(file)
    ensures stats.sent == old(stats.sent) + TotalLength(Streamed(file))
    ensures stats.requests == old(stats.requests) && stats.received == old(stats.received)
  {
    var i := 0;
    while i < |file.chunks| && |file.chunks[i]| > 0
      invariant 0 <= i <= |file.chunks|
      invariant forall j :: 0 <= j < i ==> |file.chunks[j]| > 0
      invariant conn.open && stats.Valid()
      invariant conn.sends == old(conn.sends) + file.chunks[..i]
      invariant stats.sent == old(stats.sent) + TotalLength(file.chunks[..i])
      invariant stats.requests == old(stats.requests) && stats.received == old(stats.received)
    {
      var chunk := file.chunks[i];
      conn.Send(chunk);
      stats.AddSent(|chunk|);
      assert file.chunks[..i + 1] == file.chunks[..i] + [chunk];
      assert file.chunks[..i + 1][..i] == file.chunks[..i];
      i := i + 1;
    }
    StreamedUpTo(file, i);
  }

  /** Whether the terminator `handle_client` writes after `received` bytes lands
      inside its BUFFER_SIZE buffer. */
  predicate TerminatorFits(received: int)
  {
    received < BufferSize
  }

  /** What `recv(socket, buffer, capacity, 0)` may return: at most `capacity`, and
      when positive, that many bytes of data. */
  predicate RecvReturns(capacity: nat, received: int, data: Bytes)
  {
    received <= capacity && (received > 0 ==> |data| == received)
  }

  /** `handle_client`, from the result of `recv` on: a non-positive result ends the
      exchange with nothing sent or counted; otherwise the request is counted, the
      buffer terminated and the request routed to one writer. The terminator write
      needs `received < BUFFER_SIZE`. */
  method HandleClient(stats: StatsRegistry, conn: Connection, received: int, data: Bytes, files: Files)
    requires stats.Valid() && conn.open
    requires received > 0 ==> |data| == received
    requires TerminatorFits(received)
    modifies stats, conn
    ensures stats.Valid() && conn.open
    ensures received <= 0 ==>
      conn.sends == old(conn.sends) &&
      stats.requests == old(stats.requests) && stats.received == old(stats.received) &&
      stats.sent == old(stats.sent)
    ensures received > 0 ==>
      stats.requests == old(stats.requests) + 1 && stats.received == old(stats.received) + received
    ensures received > 0 ==>
      var reply := Exchange(Dispatch(data),
        Counters(old(stats.requests) + 1, old(stats.received) + received, old(stats.sent)), files);
      conn.sends == old(conn.sends) + reply.sends && stats.sent == old(stats.sent) + reply.accounted
  {
    if received <= 0 {
      return;
    }
    stats.RecordRequest(received);
    ghost var c := Counters(stats.requests, stats.received, stats.sent);
    assert c == Counters(old(stats.requests) + 1, old(stats.received) + received, old(stats.sent));
    var request := Terminate(data);
    Respond(stats, conn, request, files);
  }

  /** The receive buffer of `handle_client`: `recv` fills its first bytes with the
      data, then the terminator is written right after them. What the buffer holds
      before the terminator is exactly the data received. */
  method Terminate(data: Bytes) returns (request: Bytes)
    requires TerminatorFits(|data|)
    ensures request == data
  {
    var buffer := new byte[BufferSize];
    forall i | 0 <= i < |data| {
      buffer[i] := data[i];
    }
    buffer[|data|] := NUL;
    request := buffer[..|data|];
  }

  /** The routing part of `handle_client`: the writer the request's prefix selects
      answers it, starting from the counters as they are now. */
  method Respond(stats: StatsRegistry, conn: Connection, request: Bytes, files: Files)
    requires stats.Valid() && conn.open
    modifies stats, conn
    ensures stats.Valid() && conn.open
    ensures var reply := Exchange(Dispatch(request),
        Counters(old(stats.requests), old(stats.received), old(stats.sent)), files);
      conn.sends == old(conn.sends) + reply.sends && stats.sent == old(stats.sent) + reply.accounted
    ensures stats.requests == old(stats.requests) && stats.received == old(stats.received)
  {
    match Dispatch(request)
    case Stats =>
      SendStats(stats, conn);
    case Static(path) =>
      SendFile(stats, conn, path, files);
    case Calc(query) =>
      HandleCalc(stats, conn, query);
    case NotFound =>
      Send404(conn);
  }

  /** `recv` as `handle_client` calls it, with BUFFER_SIZE as capacity, may fill the
      whole buffer; the terminator then lands one past its end. */
  lemma FullReceiveOverflows(data: Bytes)
    requires |data| == BufferSize
    ensures RecvReturns(BufferSize, |data|, data)
    ensures !TerminatorFits(|data|)
  {
  }

  /** `client_thread` as written: `recv` with capacity BUFFER_SIZE, then the rest of
      `handle_client`, then the socket is closed. The terminator must fit, which
      nothing in the accept loop ensures (see `FullReceiveOverflows`). */
  method ClientThread(stats: StatsRegistry, conn: Connection, received: int, data: Bytes, files: Files)
    requires stats.Valid() && conn.open
    requires RecvReturns(BufferSize, received, data)
    requires TerminatorFits(received)
    modifies stats, conn
    ensures stats.Valid() && !conn.open
    ensures received <= 0 ==>
      conn.sends == old(conn.sends) &&
      stats.requests == old(stats.requests) && stats.received == old(stats.received) &&
      stats.sent == old(stats.sent)
    ensures received > 0 ==>
      stats.requests == old(stats.requests) + 1 && stats.received == old(stats.received) + received
    ensures received > 0 ==>
      var reply := Exchange(Dispatch(data),
        Counters(old(stats.requests) + 1, old(stats.received) + received, old(stats.sent)), files);
      conn.sends == old(conn.sends) + reply.sends && stats.sent == old(stats.sent) + reply.accounted
  {
    HandleClient(stats, conn, received, data, files);
    conn.Close();
  }

  /** `client_thread` with the receive capacity one byte short of the buffer, which
      leaves room for the terminator: handle the client, then close the socket. */
  method FixedClientThread(stats: StatsRegistry, conn: Connection, received: int, data: Bytes, files: Files)
    requires stats.Valid() && conn.open
    requires RecvReturns(BufferSize - 1, received, data)
    modifies stats, conn
    ensures stats.Valid() && !conn.open
    ensures received <= 0 ==>
      conn.sends == old(conn.sends) &&
      stats.requests == old(stats.requests) && stats.received == old(stats.received) &&
      stats.sent == old(stats.sent)
    ensures received > 0 ==>
      stats.requests == old(stats.requests) + 1 && stats.received == old(stats.received) + received
    ensures received > 0 ==>
      var reply := Exchange(Dispatch(data),
        Counters(old(stats.requests) + 1, old(stats.received) + received, old(stats.sent)), files);
      conn.sends == old(conn.sends) + reply.sends && stats.sent == old(stats.sent) + reply.accounted
  {
    HandleClient(stats, conn, received, data, files);
    conn.Close();
  }
}
