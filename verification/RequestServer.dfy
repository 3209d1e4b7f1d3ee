/** Client to server as the objects run it: Client_Socket::send_to, and one client's part of
    Server_Socket with recv_to_buffer, handle_data and the loop of handle_epoll_event. */
module RequestServer {
  import opened Basics
  import opened Bytes
  import opened RequestSpec

  class RequestSender {
    var wire: seq<byte>

    constructor ()
      ensures wire == []
    {
      wire := [];
    }

    method Send(bytes: seq<byte>)
      modifies this
      ensures wire == old(wire) + bytes
    {
      wire := wire + bytes;
    }

    method SendTo(packageHeader: seq<byte>, data: seq<byte>)
      modifies this
      ensures wire == old(wire) + PrintRequest(Request(packageHeader, data))
      ensures var sent := wire[|old(wire)|..];
              && |sent| == 4 + |packageHeader| + |data|
              && BigAt(sent, 0) == |packageHeader| % 0x1_0000_0000 && sent[4..] == packageHeader + data
    {
      var len := Spell(Network, U32(|packageHeader|));
      Send(len);
      Send(packageHeader);
      Send(data);
      RequestOnWire(Request(packageHeader, data));
      assert old(wire) + len + packageHeader + data == old(wire) + (len + packageHeader + data);
    }
  }

  class Connection {
    const parse: seq<byte> -> Json  // GetJson, uninterpreted
    var currentState: Phase
    var nextSize: uint32
    var recvBuffer: seq<byte>
    var header: seq<byte>
    var registered: bool
    var thrown: bool
    var handled: seq<Request>

    ghost function View(): Conn
      reads this
    {
      Conn(currentState, nextSize, recvBuffer, header, registered, thrown, handled)
    }

    constructor (parse: seq<byte> -> Json)
      ensures View() == NEW_CONN && this.parse == parse
    {
      this.parse := parse;
      currentState, nextSize, recvBuffer, header := WaitForHeaderDescriptor, 4, [], [];
      registered, thrown, handled := true, false, [];
    }

    method RecvToBuffer(chunk: seq<byte>)
      modifies this`recvBuffer
      ensures recvBuffer == if registered then old(recvBuffer) + chunk else old(recvBuffer)
    {
      if !registered {
        return;
      }
      recvBuffer := recvBuffer + chunk;
    }

    method HandleData(totalSize: uint32) returns (data: seq<byte>)
      modifies this`recvBuffer
      ensures if registered && totalSize <= |old(recvBuffer)|
              then data == old(recvBuffer)[..totalSize] && recvBuffer == old(recvBuffer)[totalSize..]
              else data == [] && recvBuffer == old(recvBuffer)
    {
      if !registered || |recvBuffer| < totalSize {
        return [];
      }
      data := recvBuffer[..totalSize];
      recvBuffer := recvBuffer[totalSize..];
    }

    method CloseClient()
      modifies this`registered
      ensures !registered
    {
      registered := false;
    }

    /** Reads what has come in and runs the parser over it until it starves or gives up. */
    method HandleEpollEvent(chunk: seq<byte>)
      requires View().Steady() && !thrown
      modifies this
      ensures View().Steady()
      ensures View() == Event(parse, old(View()), chunk)
    {
      hide Drive, Turn;
      RecvToBuffer(chunk);
      ghost var start := View();
      var going := true;
      while going && |recvBuffer| >= nextSize
        invariant View().Steady() && (going ==> !thrown)
        invariant Drive(parse, start) == Drive(parse, View())
        invariant !going ==> !View().CanTurn()
        invariant !old(registered) ==> View() == old(View())
        decreases going, registered, |recvBuffer|, currentState == WaitForBody
      {
        DriveOnce(parse, View());
        going := OneTurn();
      }
      DriveOnce(parse, View());
    }

    /** The server's event loop for this client: one event a chunk, for as long as it gets any. */
    method HandleEvents(chunks: seq<seq<byte>>)
      requires View().Steady()
      modifies this
      ensures View().Steady() && View() == Events(parse, old(View()), chunks)
    {
      hide Event;
      for n := 0 to |chunks|
        invariant View().Steady()
        invariant Events(parse, View(), chunks[n..]) == Events(parse, old(View()), chunks)
      {
        assert chunks[n..][1..] == chunks[n + 1..];
        DeadGetsNothing(parse, View(), chunks[n]);
        if registered && !thrown {
          HandleEpollEvent(chunks[n]);
        }
      }
    }

    /** One turn of the loop; false where the program breaks, returns or throws. */
    method OneTurn() returns (going: bool)
      requires View().Steady() && !thrown && |recvBuffer| >= nextSize
      modifies this
      ensures View().Steady() && (going ==> !thrown) && (!going ==> !View().CanTurn())
      ensures View() == if old(View()).CanTurn() then Turn(parse, old(View())) else old(View())
      ensures going ==> old(View()).CanTurn() && Shorter(old(View()), View())
    {
      hide Read;
      if !registered {
        return false;
      }
      var data := HandleData(nextSize);
      match currentState {
        case WaitForHeaderDescriptor =>
          if data == [] {
            assert false;  // the length prefix is never zero bytes wide
          }
          nextSize := Read(Network, data);
          currentState := WaitForHeader;
        case WaitForHeader =>
          if data == [] {
            return false;
          }
          header := data;
          var size := parse(data).size;
          if size.None? {
            thrown := true;
            return false;
          }
          nextSize := size.value;
          currentState := WaitForBody;
        case WaitForBody =>
          var used := parse(header).usedTo;
          if used.None? {
            thrown := true;
            return false;
          }
          if data == [] && used.value != LOGIN {
            CloseClient();
          } else {
            handled := handled + [Request(header, data)];
            nextSize := 4;
            currentState := WaitForHeaderDescriptor;
          }
      }
      return true;
    }
  }

  /** The measure that every turn decreases: the connection ends, bytes are consumed, or the body
      phase is left. */
  predicate Shorter(before: Conn, after: Conn) {
    || (before.registered && !after.registered)
    || (before.registered == after.registered
        && (|after.buffer| < |before.buffer|
            || (|after.buffer| == |before.buffer| && before.phase == WaitForBody && after.phase != WaitForBody)))
  }

  lemma DeadGetsNothing(parse: seq<byte> -> Json, c: Conn, chunk: seq<byte>)
    requires c.Steady()
    ensures !c.Live() ==> Event(parse, c, chunk) == c
  {
  }

  lemma DriveOnce(parse: seq<byte> -> Json, c: Conn)
    requires c.Steady()
    ensures Drive(parse, c) == if c.CanTurn() then Drive(parse, Turn(parse, c)) else c
  {
  }
}
