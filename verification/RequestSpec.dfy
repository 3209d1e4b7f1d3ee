/** Client to server as values: the bytes that Client_Socket::send_to writes for a request, and the
    three-state parser of Server_Socket::handle_epoll_event that reads them back. */
module RequestSpec {
  import opened Basics
  import opened Bytes

  /** What the server reads out of a request's JSON header: the body size and the kind of request,
      each absent when the JSON library would throw. The text itself is not interpreted. */
  datatype Json = Json(size: Option<uint32>, usedTo: Option<int>)

  const LOGIN: int := 0

  datatype Request = Request(header: seq<byte>, body: seq<byte>)

  datatype Phase = WaitForHeaderDescriptor | WaitForHeader | WaitForBody

  /** One client's parser: ClientDataStore, its receive buffer, whether the client is registered,
      whether an exception has left its descriptor without a re-armed event, and the requests that
      have reached the dispatching switch. */
  datatype Conn = Conn(
    phase: Phase, nextSize: uint32, buffer: seq<byte>, header: seq<byte>,
    registered: bool, thrown: bool, handled: seq<Request>)
  {
    predicate Live() {
      registered && !thrown
    }

    /** A length prefix is always read four bytes wide. */
    predicate Steady() {
      phase == WaitForHeaderDescriptor ==> nextSize == 4
    }

    predicate CanTurn() {
      Live() && |buffer| >= nextSize && !(phase == WaitForHeader && nextSize == 0)
    }
  }

  /** One turn of the parsing loop. */
  function Turn(parse: seq<byte> -> Json, c: Conn): (r: Conn)
    requires c.CanTurn() && c.Steady()
    ensures r.Steady()
  {
    var data, rest := c.buffer[..c.nextSize], c.buffer[c.nextSize..];
    match c.phase
    case WaitForHeaderDescriptor =>
      c.(buffer := rest, nextSize := Read(Network, data), phase := WaitForHeader)
    case WaitForHeader =>
      var json := parse(data);
      if json.size.None? then c.(buffer := rest, header := data, thrown := true)
      else c.(buffer := rest, header := data, nextSize := json.size.value, phase := WaitForBody)
    case WaitForBody =>
      var json := parse(c.header);
      if json.usedTo.None? then c.(buffer := rest, thrown := true)
      else if data == [] && json.usedTo.value != LOGIN then c.(registered := false)
      else
        c.(buffer := rest, handled := c.handled + [Request(c.header, data)],
           nextSize := 4, phase := WaitForHeaderDescriptor)
  }

  /** The whole loop. Each turn ends the connection, consumes bytes, or leaves the body phase. */
  function Drive(parse: seq<byte> -> Json, c: Conn): (r: Conn)
    requires c.Steady()
    ensures r.Steady() && !r.CanTurn()
    decreases c.Live(), |c.buffer|, c.phase == WaitForBody
  {
    if c.CanTurn() then Drive(parse, Turn(parse, c)) else c
  }

  /** One readiness event that brings some bytes; a dead connection gets none. */
  function Event(parse: seq<byte> -> Json, c: Conn, chunk: seq<byte>): (r: Conn)
    requires c.Steady()
    ensures r.Steady() && (c.CanTurn() || !r.CanTurn())
  {
    if c.Live() then Drive(parse, c.(buffer := c.buffer + chunk)) else c
  }

  function Events(parse: seq<byte> -> Json, c: Conn, chunks: seq<seq<byte>>): (r: Conn)
    requires c.Steady()
    ensures r.Steady()
    decreases |chunks|
  {
    if chunks == [] then c else Events(parse, Event(parse, c, chunks[0]), chunks[1..])
  }

  // ---------- chunk boundaries ----------

  /** Equal, except that the unread bytes of a dead connection do not matter. */
  predicate Same(a: Conn, b: Conn) {
    a == b || (!a.Live() && !b.Live() && a.(buffer := []) == b.(buffer := []))
  }

  function More(c: Conn, bytes: seq<byte>): Conn {
    c.(buffer := c.buffer + bytes)
  }

  lemma TurnKeepsMore(parse: seq<byte> -> Json, c: Conn, more: seq<byte>)
    requires c.CanTurn() && c.Steady()
    ensures More(c, more).CanTurn() && Turn(parse, More(c, more)) == More(Turn(parse, c), more)
  {
    var s := c.buffer + more;
    assert s[..c.nextSize] == c.buffer[..c.nextSize];
    assert s[c.nextSize..] == c.buffer[c.nextSize..] + more;
  }

  lemma {:induction false} DriveInTwo(parse: seq<byte> -> Json, c: Conn, more: seq<byte>)
    requires c.Steady()
    ensures Same(Drive(parse, More(c, more)), Event(parse, Drive(parse, c), more))
    decreases c.Live(), |c.buffer|, c.phase == WaitForBody
  {
    if c.CanTurn() {
      TurnKeepsMore(parse, c, more);
      DriveInTwo(parse, Turn(parse, c), more);
    }
  }

  /** Whatever the bytes, the chunks they come in make no difference to the requests handled, the
      parser's state or the fate of the connection, nor to what stays buffered while it lives. */
  lemma {:induction false} ChunksDoNotMatter(parse: seq<byte> -> Json, c: Conn, chunks: seq<seq<byte>>)
    requires c.Steady() && !c.CanTurn()
    ensures Same(Events(parse, c, chunks), Drive(parse, More(c, Flatten(chunks))))
    decreases |chunks|
  {
    hide Turn, Drive;
    if chunks == [] {
      assert More(c, []) == c;
      DriveStops(parse, c);
    } else {
      var next, rest := Event(parse, c, chunks[0]), Flatten(chunks[1..]);
      ChunksDoNotMatter(parse, next, chunks[1..]);
      assert More(More(c, chunks[0]), rest) == More(c, Flatten(chunks));
      if c.Live() {
        DriveInTwo(parse, More(c, chunks[0]), rest);
        DriveDead(parse, next, rest);
      } else {
        DriveDead(parse, c, Flatten(chunks));
        DriveDead(parse, c, rest);
      }
    }
  }

  lemma DriveStops(parse: seq<byte> -> Json, c: Conn)
    requires c.Steady() && !c.CanTurn()
    ensures Drive(parse, c) == c
  {
  }

  lemma DriveDead(parse: seq<byte> -> Json, c: Conn, more: seq<byte>)
    requires c.Steady()
    ensures !c.Live() ==> Drive(parse, More(c, more)) == More(c, more)
  {
  }

  // ---------- printing and parsing ----------

  /** The three sends of one request: the header's length in network order, the header, the body. */
  function PrintRequest(r: Request): seq<byte> {
    Spell(Network, U32(|r.header|)) + r.header + r.body
  }

  /** By value: the header's length, highest byte first, and then both parts as they are. */
  lemma RequestOnWire(r: Request)
    ensures var s := PrintRequest(r);
            && |s| == 4 + |r.header| + |r.body|
            && BigAt(s, 0) == |r.header| % 0x1_0000_0000 && s[4..] == r.header + r.body
  {
    hide Spell;
    var n := U32(|r.header|);
    OrdersByValue(n);
    var s := PrintRequest(r);
    assert forall i :: 0 <= i < 4 ==> s[i] == Spell(Network, n)[i];
  }

  function PrintRequests(rs: seq<Request>): seq<byte> {
    if rs == [] then [] else PrintRequest(rs[0]) + PrintRequests(rs[1..])
  }

  /** A header that is there and fits its 32-bit length. */
  predicate HeaderFits(r: Request) {
    0 < |r.header| < TWO_32
  }

  /** What a request must satisfy to be served: a readable header that tells the body's size, and a
      body unless it is a login. */
  predicate Served(parse: seq<byte> -> Json, r: Request) {
    && HeaderFits(r)
    && parse(r.header).size.Some? && parse(r.header).size.value == |r.body|
    && parse(r.header).usedTo.Some? && (r.body == [] ==> parse(r.header).usedTo.value == LOGIN)
  }

  /** An empty body is served for the kind 0 alone, which is the login. */
  lemma EmptyBodyIsForLogin(parse: seq<byte> -> Json, r: Request)
    requires r.body == []
    ensures Served(parse, r) <==> HeaderFits(r) && parse(r.header) == Json(Some(0), Some(0))
  {
  }

  /** Between two requests. */
  predicate Idle(c: Conn) {
    c.Live() && c.phase == WaitForHeaderDescriptor && c.nextSize == 4
  }

  /** The connection after a header has been read. */
  function HeaderRead(parse: seq<byte> -> Json, c: Conn, header: seq<byte>, rest: seq<byte>): Conn
    requires parse(header).size.Some?
  {
    c.(phase := WaitForBody, nextSize := parse(header).size.value, header := header, buffer := rest)
  }

  lemma DriveTurns(parse: seq<byte> -> Json, c: Conn)
    requires c.Steady() && c.CanTurn()
    ensures Drive(parse, c) == Drive(parse, Turn(parse, c))
  {
  }

  /** What the parser takes for the header is as many bytes as the 32-bit length says: with none it
      waits for ever, and a header that does not tell its body's size throws out of the event. */
  lemma HeaderIsNext(parse: seq<byte> -> Json, c: Conn, r: Request, rest: seq<byte>)
    requires Idle(c) && c.buffer == PrintRequest(r) + rest
    ensures var n, d := U32(|r.header|), Drive(parse, c);
            var header, size := r.header[..n], parse(r.header[..n]).size;
            && (n == 0 ==> d.handled == c.handled && d.Live() && d.phase == WaitForHeader && d.nextSize == 0)
            && (n != 0 && size.None? ==> d.handled == c.handled && d.thrown)
            && (n != 0 && size.Some? ==>
                d == Drive(parse, HeaderRead(parse, c, header, r.header[n..] + r.body + rest)))
  {
    hide Drive, PrintRequest, Read, U32;
    var n := U32(|r.header|);
    ReadsLength(r, rest);
    DriveTurns(parse, c);
    var c1 := Turn(parse, c);
    if n == 0 {
      DriveStops(parse, c1);
    } else {
      HeaderOrMore(r, rest, n);
      DriveTurns(parse, c1);
      if parse(r.header[..n]).size.None? {
        DriveStops(parse, Turn(parse, c1));
      }
    }
  }

  lemma ReadsLength(r: Request, rest: seq<byte>)
    ensures var s, n := PrintRequest(r) + rest, U32(|r.header|);
            |s| >= 4 && n <= |r.header| && Read(Network, s[..4]) == n && s[4..] == r.header + r.body + rest
  {
    hide Read, Spell;
    var s, n := PrintRequest(r) + rest, U32(|r.header|);
    ReadOfSpell(Network, n);
    assert s[..4] == Spell(Network, n);
  }

  lemma HeaderOrMore(r: Request, rest: seq<byte>, n: nat)
    requires n <= |r.header|
    ensures var s := r.header + r.body + rest;
            s[..n] == r.header[..n] && s[n..] == r.header[n..] + r.body + rest
  {
  }

  lemma WholeHeader(r: Request, rest: seq<byte>)
    requires HeaderFits(r)
    ensures U32(|r.header|) == |r.header| && r.header[..|r.header|] == r.header
    ensures r.header[|r.header|..] + r.body + rest == r.body + rest
  {
  }

  function Serve(c: Conn, r: Request, rest: seq<byte>): Conn {
    c.(header := r.header, handled := c.handled + [r], buffer := rest)
  }

  lemma ServesOne(parse: seq<byte> -> Json, c: Conn, r: Request, rest: seq<byte>)
    requires Idle(c) && Served(parse, r) && c.buffer == PrintRequest(r) + rest
    ensures Drive(parse, c) == Drive(parse, Serve(c, r, rest))
  {
    hide Drive, PrintRequest;
    HeaderIsNext(parse, c, r, rest);
    WholeHeader(r, rest);
    var c2 := HeaderRead(parse, c, r.header, r.body + rest);
    assert c2.buffer[..|r.body|] == r.body && c2.buffer[|r.body|..] == rest;
    DriveTurns(parse, c2);
  }

  /** The parser inverts the printer: requests that can be served are handled exactly, in order, and
      the parser is idle again in front of whatever follows. */
  lemma {:induction false} ParserInvertsPrinter(parse: seq<byte> -> Json, c: Conn, rs: seq<Request>, tail: seq<byte>)
    requires Idle(c) && (forall r :: r in rs ==> Served(parse, r)) && c.buffer == PrintRequests(rs) + tail
    ensures var header := if rs == [] then c.header else rs[|rs| - 1].header;
            Drive(parse, c) == Drive(parse, c.(header := header, handled := c.handled + rs, buffer := tail))
    decreases |rs|
  {
    hide Served, PrintRequest, Drive;
    if rs == [] {
      assert PrintRequests(rs) + tail == tail;
      assert c.handled + rs == c.handled;
    } else {
      var rest := PrintRequests(rs[1..]) + tail;
      assert c.buffer == PrintRequest(rs[0]) + rest;
      ServesOne(parse, c, rs[0], rest);
      ParserInvertsPrinter(parse, Serve(c, rs[0], rest), rs[1..], tail);
      assert c.handled + [rs[0]] + rs[1..] == c.handled + rs;
    }
  }

  const NEW_CONN: Conn := Conn(WaitForHeaderDescriptor, 4, [], [], true, false, [])

  /** In any chunks, the server handles exactly the requests sent and ends with an empty buffer,
      waiting for the four bytes of the next length. */
  lemma RequestsArrive(parse: seq<byte> -> Json, rs: seq<Request>, chunks: seq<seq<byte>>)
    requires (forall r :: r in rs ==> Served(parse, r)) && Flatten(chunks) == PrintRequests(rs)
    ensures var c := Events(parse, NEW_CONN, chunks);
            c.handled == rs && Idle(c) && c.buffer == []
  {
    var full := More(NEW_CONN, Flatten(chunks));
    ChunksDoNotMatter(parse, NEW_CONN, chunks);
    assert full.buffer == PrintRequests(rs) + [];
    ParserInvertsPrinter(parse, full, rs, []);
    assert [] + rs == rs;
    var done := full.(header := if rs == [] then [] else rs[|rs| - 1].header, handled := rs, buffer := []);
    DriveStops(parse, done);
  }

  // ---------- exactly the requests that are served ----------

  lemma {:induction false} HandledGrows(parse: seq<byte> -> Json, c: Conn)
    requires c.Steady()
    ensures c.handled <= Drive(parse, c).handled
    decreases c.Live(), |c.buffer|, c.phase == WaitForBody
  {
    if c.CanTurn() {
      HandledGrows(parse, Turn(parse, c));
    }
  }

  /** From the body phase, whatever is buffered: nothing more is handled, or the request handled next
      has the header just read and a body of the size that the header told. */
  lemma BodyIsNext(parse: seq<byte> -> Json, c: Conn)
    requires c.Live() && c.phase == WaitForBody
    ensures var d := Drive(parse, c);
            var usedTo := parse(c.header).usedTo;
            || d.handled == c.handled
            || (&& |c.buffer| >= c.nextSize
                && usedTo.Some? && (c.nextSize == 0 ==> usedTo.value == LOGIN)
                && c.handled + [Request(c.header, c.buffer[..c.nextSize])] <= d.handled)
  {
    if c.CanTurn() {
      HandledGrows(parse, Turn(parse, c));
      if !Turn(parse, c).Live() {
        DriveStops(parse, Turn(parse, c));
      }
    }
  }

  /** A request in front of the buffer that is the next one handled was fit to be served. */
  lemma NextHandledIsServed(parse: seq<byte> -> Json, c: Conn, r: Request, rest: seq<byte>)
    requires Idle(c) && c.buffer == PrintRequest(r) + rest
    requires c.handled + [r] <= Drive(parse, c).handled
    ensures Served(parse, r)
  {
    hide Drive, Turn, PrintRequest;
    HeaderIsNext(parse, c, r, rest);
    var n := U32(|r.header|);
    var read := HeaderRead(parse, c, r.header[..n], r.header[n..] + r.body + rest);
    BodyIsNext(parse, read);
    var next := Request(read.header, read.buffer[..read.nextSize]);
    assert Drive(parse, c).handled[|c.handled|] == next;
    assert r == next;
  }

  lemma {:induction false} HandledMeansServed(parse: seq<byte> -> Json, c: Conn, rs: seq<Request>)
    requires Idle(c) && c.buffer == PrintRequests(rs) && c.handled + rs <= Drive(parse, c).handled
    ensures forall r :: r in rs ==> Served(parse, r)
    decreases |rs|
  {
    hide Served, PrintRequest, Drive;
    if rs != [] {
      var next := Serve(c, rs[0], PrintRequests(rs[1..]));
      assert c.handled + [rs[0]] <= c.handled + rs;
      NextHandledIsServed(parse, c, rs[0], PrintRequests(rs[1..]));
      ServesOne(parse, c, rs[0], PrintRequests(rs[1..]));
      assert next.handled + rs[1..] == c.handled + rs;
      HandledMeansServed(parse, next, rs[1..]);
    }
  }

  /** Whatever the requests and the chunks they come in: the server handles exactly the requests that
      were sent if and only if every one of them is fit to be served, and then it ends idle with
      nothing left over. */
  lemma ServedExactly(parse: seq<byte> -> Json, rs: seq<Request>, chunks: seq<seq<byte>>)
    requires Flatten(chunks) == PrintRequests(rs)
    ensures var c := Events(parse, NEW_CONN, chunks);
            && (c.handled == rs <==> forall r :: r in rs ==> Served(parse, r))
            && (c.handled == rs ==> Idle(c) && c.buffer == [])
  {
    hide Served, Drive, PrintRequests;
    var full := More(NEW_CONN, Flatten(chunks));
    ChunksDoNotMatter(parse, NEW_CONN, chunks);
    if Events(parse, NEW_CONN, chunks).handled == rs {
      assert full.handled + rs == rs;
      HandledMeansServed(parse, full, rs);
    }
    if forall r :: r in rs ==> Served(parse, r) {
      RequestsArrive(parse, rs, chunks);
    }
  }

  // ---------- requests that cannot be served ----------

  /** A non-login request without a body closes the connection, whatever follows it. */
  predicate Closing(parse: seq<byte> -> Json, r: Request) {
    && HeaderFits(r) && r.body == []
    && parse(r.header) == Json(Some(0), parse(r.header).usedTo)
    && parse(r.header).usedTo.Some? && parse(r.header).usedTo.value != LOGIN
  }

  /** A header that does not tell its body's size throws out of the event, and so does one that does
      not tell the kind of request, as soon as the body it asks for is there. */
  predicate Throwing(parse: seq<byte> -> Json, r: Request) {
    var json := parse(r.header);
    HeaderFits(r) && (json.size.None? || (json.size.value <= |r.body| && json.usedTo.None?))
  }

  /** How the first request that cannot be served ends the conversation: everything before it has
      been handled, it and everything after it never is. */
  lemma BadRequestEnds(
    parse: seq<byte> -> Json, rs: seq<Request>, bad: Request, after: seq<byte>, chunks: seq<seq<byte>>)
    requires forall r :: r in rs ==> Served(parse, r)
    requires Closing(parse, bad) || Throwing(parse, bad) || bad.header == []
    requires Flatten(chunks) == PrintRequests(rs) + (PrintRequest(bad) + after)
    ensures var c := Events(parse, NEW_CONN, chunks);
            && c.handled == rs
            && (Closing(parse, bad) ==> !c.registered)
            && (Throwing(parse, bad) ==> c.thrown)
            && (bad.header == [] ==> c.Live() && c.phase == WaitForHeader && c.nextSize == 0)
  {
    hide Served, Closing, Throwing, Drive, Turn, PrintRequest, PrintRequests;
    var full := More(NEW_CONN, Flatten(chunks));
    ChunksDoNotMatter(parse, NEW_CONN, chunks);
    ParserInvertsPrinter(parse, full, rs, PrintRequest(bad) + after);
    assert [] + rs == rs;
    var header := if rs == [] then [] else rs[|rs| - 1].header;
    var c := full.(header := header, handled := rs, buffer := PrintRequest(bad) + after);
    EndsAt(parse, c, bad, after);
  }

  lemma EndsAt(parse: seq<byte> -> Json, c: Conn, bad: Request, after: seq<byte>)
    requires Idle(c) && c.buffer == PrintRequest(bad) + after
    requires Closing(parse, bad) || Throwing(parse, bad) || bad.header == []
    ensures var d := Drive(parse, c);
            && d.handled == c.handled
            && (Closing(parse, bad) ==> !d.registered)
            && (Throwing(parse, bad) ==> d.thrown)
            && (bad.header == [] ==> d.Live() && d.phase == WaitForHeader && d.nextSize == 0)
  {
    hide Drive, Turn, PrintRequest;
    HeaderIsNext(parse, c, bad, after);
    if bad.header != [] {
      WholeHeader(bad, after);
      if parse(bad.header).size.Some? {
        BadBodyEnds(parse, HeaderRead(parse, c, bad.header, bad.body + after));
      }
    }
  }

  /** A body that is there: without the kind of request the turn throws, and an empty one closes the
      connection unless it is a login. */
  lemma BadBodyEnds(parse: seq<byte> -> Json, c: Conn)
    requires c.Live() && c.phase == WaitForBody && |c.buffer| >= c.nextSize
    ensures var usedTo, d := parse(c.header).usedTo, Drive(parse, c);
            && (usedTo.None? ==> d.thrown && d.handled == c.handled)
            && (c.nextSize == 0 && usedTo.Some? && usedTo.value != LOGIN ==> d == c.(registered := false))
  {
    hide Drive;
    DriveTurns(parse, c);
    if !Turn(parse, c).Live() {
      DriveStops(parse, Turn(parse, c));
    }
  }
}
