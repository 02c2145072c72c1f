/** The connection objects of proxy.py: the line-buffering socket container
    that both connection roles share, and the two roles, RemoteServer (one
    long-lived connection to a MUD, fanning its lines out to subscribers) and
    LocalClient (one user connection, routed to the server it subscribes to).
    Python's inheritance from LineBufferingSocketContainer becomes
    composition: each role owns a LineBuffer in its `conn` field. */
module Proxy {
  import opened Wrappers
  import opened Seqs
  import opened Utf8
  import Framing

  /** Largest number of bytes asked of the socket in one read. */
  const RECV_MAX: nat := 4096

  /** A message as the proxy writes it: the text and a line end. A text
      without a line feed becomes exactly one line. */
  function AsLine(text: string): (line: string)
    ensures |line| == |text| + 1 && line[..|text|] == text && line[|text|] == '\n'
    ensures forall i :: 0 <= i < |line| ==> (line[i] == '\n' <==> i == |text| || text[i] == '\n')
  {
    text + "\n"
  }

  const CLOSED_NOTICE: string := AsLine("Remote server closed connection.")
  const NOT_CONNECTED_REPLY: string := AsLine("Not connected?")

  /** Each notice the proxy sends is one line: its only line feed ends it. */
  lemma NoticesAreOneLine()
    ensures forall i :: 0 <= i < |CLOSED_NOTICE| ==> (CLOSED_NOTICE[i] == '\n' <==> i == |CLOSED_NOTICE| - 1)
    ensures forall i :: 0 <= i < |NOT_CONNECTED_REPLY| ==> (NOT_CONNECTED_REPLY[i] == '\n' <==> i == |NOT_CONNECTED_REPLY| - 1)
  {
    var closed := "Remote server closed connection.";
    var notConnected := "Not connected?";
    assert forall i :: 0 <= i < |closed| ==> closed[i] != '\n';
    assert forall i :: 0 <= i < |notConnected| ==> notConnected[i] != '\n';
  }

  function Min(a: nat, b: nat): nat { if a < b then a else b }

  /** A non-blocking socket as the proxy sees it. The kernel accepts at most
      `room` more bytes (none at all means the write would block), bytes that
      have arrived wait in `inbox`, and `eof` records that the peer closed. */
  class Socket {
    var out: seq<byte>
    var room: nat
    var inbox: seq<byte>
    var eof: bool

    constructor (room: nat, inbox: seq<byte>, eof: bool)
      ensures this.out == [] && this.room == room && this.inbox == inbox && this.eof == eof
    {
      this.out := [];
      this.room := room;
      this.inbox := inbox;
      this.eof := eof;
    }

    /** `socket.write(data)`: the kernel takes as long a prefix as it has
        room for and the count is returned; `None` is the BlockingIOError of
        a full send buffer. */
    method Write(data: seq<byte>) returns (n: Option<nat>)
      modifies this
      ensures inbox == old(inbox) && eof == old(eof)
      ensures old(room) == 0 ==> n == None && out == old(out) && room == old(room)
      ensures old(room) > 0 ==>
        && n == Some(Min(old(room), |data|))
        && out == old(out) + data[..n.value]
        && room == old(room) - n.value
    {
      if room == 0 {
        return None;
      }
      var k := Min(room, |data|);
      out := out + data[..k];
      room := room - k;
      return Some(k);
    }

    /** `socket.read(max)`: up to `max` waiting bytes; the empty string once
        the peer has closed; `None` is the BlockingIOError of an empty,
        still open socket. */
    method Read(max: nat) returns (d: Option<seq<byte>>)
      requires max > 0
      modifies this
      ensures out == old(out) && room == old(room) && eof == old(eof)
      ensures old(inbox) == [] ==> inbox == [] && d == (if eof then Some([]) else None)
      ensures old(inbox) != [] ==>
        var k := Min(max, |old(inbox)|);
        d == Some(old(inbox)[..k]) && inbox == old(inbox)[k..]
    {
      if inbox == [] {
        return if eof then Some([]) else None;
      }
      var k := Min(max, |inbox|);
      d := Some(inbox[..k]);
      inbox := inbox[k..];
    }
  }

  datatype ReadError = NotConnected | NoSocket | BadEncoding

  /** Strict decoding of each framed line, as `read` does one line at a
      time; on failure, the index of the first line that does not decode. */
  function DecodeLines(lines: seq<seq<byte>>): Result<seq<string>, nat>
  {
    MapAll(Decode, lines)
  }

  /** The decoded lines re-encode to exactly the framed bytes. */
  lemma {:induction false} DecodeLinesEncode(lines: seq<seq<byte>>)
    requires DecodeLines(lines).Success?
    ensures Encode(Flatten(DecodeLines(lines).value)) == Flatten(lines)
  {
    if lines != [] {
      var q := DecodeLines(lines).value;
      var rest := DecodeLines(lines[1..]).value;
      assert q == [Decode(lines[0]).value] + rest;
      DecodeLinesEncode(lines[1..]);
      EncodeDecode(lines[0]);
      assert q[0] == Decode(lines[0]).value && q[1..] == rest;
      EncodeAppend(q[0], Flatten(q[1..]));
    }
  }

  /** What `read` hands back when every line decodes: the lines, in stream
      order, each ending in '\n', and together with what stays buffered they
      re-encode to the old buffer followed by the received bytes. */
  lemma ReadLinesConserve(buf: seq<byte>)
    requires DecodeLines(Framing.Frame(buf, NEWLINE).0).Success?
    ensures var (lines, left) := Framing.Frame(buf, NEWLINE);
      var q := DecodeLines(lines).value;
      && Encode(Flatten(q)) + left == buf
      && forall i :: 0 <= i < |q| ==> |q[i]| > 0 && q[i][|q[i]| - 1] == '\n'
  {
    var (lines, left) := Framing.Frame(buf, NEWLINE);
    var q := DecodeLines(lines).value;
    Framing.FrameConserves(buf, NEWLINE);
    DecodeLinesEncode(lines);
    MapAllMeaning(Decode, lines);
    Framing.FrameCutsLines(buf, NEWLINE);
    forall i | 0 <= i < |q| ensures |q[i]| > 0 && q[i][|q[i]| - 1] == '\n' {
      DecodedLineEndsInNewline(lines[i]);
    }
  }

  /** The bookkeeping of `write`, over plain byte sequences: `sent` is what
      the socket took, `bytes` the byte buffer after, and the encodings are
      of the cut lines, the text left, the old text buffer and the data. */
  lemma WriteAccounting(oldOut: seq<byte>, sent: seq<byte>, bytes: seq<byte>, oldBytes: seq<byte>,
                        encLines: seq<byte>, encLeft: seq<byte>, encOld: seq<byte>, encData: seq<byte>)
    requires sent + bytes == oldBytes + encLines
    requires encLines + encLeft == encOld + encData
    ensures sent + bytes + encLeft == oldBytes + (encOld + encData)
    ensures (oldOut + sent) + bytes + encLeft == (oldOut + oldBytes + encOld) + encData
  {
    calc {
      (oldOut + sent) + bytes + encLeft;
      oldOut + (sent + bytes + encLeft);
      oldOut + (oldBytes + (encOld + encData));
      (oldOut + oldBytes + encOld) + encData;
    }
  }

  /** LineBufferingSocketContainer: text waiting for a line end, encoded
      bytes waiting for the socket, received bytes waiting for a line end. */
  class LineBuffer {
    var sendBuffer: string
    var bSendBuffer: seq<byte>
    var bRecvBuffer: seq<byte>
    var connected: bool
    var socket: Socket?

    /** A connected container has a socket: `attach_socket` sets both and
        `handle_disconnect` clears both. */
    ghost predicate Valid()
      reads this
    {
      connected ==> socket != null
    }

    /** Every byte this container has been asked to send through its socket:
        what the kernel took, then the byte buffer, then the text buffer. */
    ghost function Stream(): seq<byte>
      reads this, socket
      requires socket != null
    {
      socket.out + bSendBuffer + Encode(sendBuffer)
    }

    constructor ()
      ensures Valid()
      ensures sendBuffer == [] && bSendBuffer == [] && bRecvBuffer == []
      ensures !connected && socket == null
    {
      sendBuffer := [];
      bSendBuffer := [];
      bRecvBuffer := [];
      connected := false;
      socket := null;
    }

    /** `write(data)`: appends `data` to the text buffer, moves the lines the
        framing loop cuts into the byte buffer, then offers the byte buffer
        to the socket once and drops what it took. Writing while
        disconnected is the AssertionError at proxy.py:46 (`ok` false, nothing
        changes). */
    method Write(data: Option<string>) returns (ok: bool)
      modifies this, socket
      ensures old(Valid()) ==> Valid()
      ensures connected == old(connected) && socket == old(socket) && bRecvBuffer == old(bRecvBuffer)
      ensures !old(connected) ==> !ok && unchanged(this) && (socket != null ==> unchanged(socket))
      ensures old(connected) ==> sendBuffer == Framing.Frame(old(sendBuffer) + data.GetOr([]), '\n').1
      ensures old(connected) && socket == null ==>
        && bSendBuffer == old(bSendBuffer) + Encode(Flatten(Framing.Frame(old(sendBuffer) + data.GetOr([]), '\n').0))
        && (ok <==> bSendBuffer == [])
      ensures socket != null ==> ok == old(connected)
      ensures ok && socket != null ==> socket.inbox == old(socket.inbox) && socket.eof == old(socket.eof)
      ensures ok && socket != null ==>
        var framed := old(bSendBuffer) + Encode(Flatten(Framing.Frame(old(sendBuffer) + data.GetOr([]), '\n').0));
        if framed == [] || old(socket.room) == 0 then
          socket.out == old(socket.out) && socket.room == old(socket.room) && bSendBuffer == framed
        else
          var n := Min(old(socket.room), |framed|);
          && socket.out == old(socket.out) + framed[..n]
          && socket.room == old(socket.room) - n
          && bSendBuffer == framed[n..]
      ensures ok && socket != null ==>
        && old(socket.out) <= socket.out
        && socket.out[|old(socket.out)|..] + bSendBuffer + Encode(sendBuffer)
           == old(bSendBuffer) + Encode(old(sendBuffer) + data.GetOr([]))
      ensures ok && socket != null ==> Stream() == old(Stream()) + Encode(data.GetOr([]))
    {
      if !connected {
        return false;
      }
      if data.Some? {
        sendBuffer := sendBuffer + data.value;
      }
      ghost var text := sendBuffer;
      assert text == old(sendBuffer) + data.GetOr([]);
      CutSendLines();
      if socket == null {
        // the socket assertion fails only when there are bytes to send
        hide Encode, Flatten, Framing.Frame;
        return |bSendBuffer| == 0;
      }
      ok := true;
      ghost var framed := bSendBuffer;
      Flush();
      ghost var sent := socket.out[|old(socket.out)|..];
      Framing.FrameConserves(text, '\n');
      EncodeSplit(Flatten(Framing.Frame(text, '\n').0), sendBuffer, old(sendBuffer), data.GetOr([]));
      EncodeAppend(old(sendBuffer), data.GetOr([]));
      WriteAccounting(old(socket.out), sent, bSendBuffer, old(bSendBuffer),
                      Encode(Flatten(Framing.Frame(text, '\n').0)), Encode(sendBuffer),
                      Encode(old(sendBuffer)), Encode(data.GetOr([])));
      assert old(Stream()) == old(socket.out) + old(bSendBuffer) + Encode(old(sendBuffer));
    }

    /** The send step of `write` (proxy.py:65-71): a non-empty byte buffer is
        offered to the socket once; what the socket takes is dropped from
        the front, and a would-block leaves the buffer as it was. */
    method Flush()
      requires socket != null
      modifies this`bSendBuffer, socket
      ensures socket.inbox == old(socket.inbox) && socket.eof == old(socket.eof)
      ensures if old(bSendBuffer) == [] || old(socket.room) == 0 then
          socket.out == old(socket.out) && socket.room == old(socket.room) && bSendBuffer == old(bSendBuffer)
        else
          var n := Min(old(socket.room), |old(bSendBuffer)|);
          && socket.out == old(socket.out) + old(bSendBuffer)[..n]
          && socket.room == old(socket.room) - n
          && bSendBuffer == old(bSendBuffer)[n..]
      ensures old(socket.out) <= socket.out
      ensures socket.out == old(socket.out) + socket.out[|old(socket.out)|..]
      ensures socket.out[|old(socket.out)|..] + bSendBuffer == old(bSendBuffer)
    {
      if |bSendBuffer| > 0 {
        var n := socket.Write(bSendBuffer);
        if n.Some? {
          bSendBuffer := bSendBuffer[n.value..];
        }
      }
    }

    /** The framing loop of `write` (proxy.py:52-61): the lines `Frame` cuts
        off the text buffer move, encoded, to the end of the byte buffer. */
    method CutSendLines()
      modifies this`sendBuffer, this`bSendBuffer
      ensures sendBuffer == Framing.Frame(old(sendBuffer), '\n').1
      ensures bSendBuffer == old(bSendBuffer) + Encode(Flatten(Framing.Frame(old(sendBuffer), '\n').0))
    {
      hide Encode, Flatten;
      var lines, left := Framing.CutLines(sendBuffer, '\n');
      var bytes := bSendBuffer;
      EncodeNoLines(lines);
      for i := 0 to |lines|
        invariant bytes == old(bSendBuffer) + Encode(Flatten(lines[..i]))
      {
        EncodeLine(lines, i);
        bytes := bytes + Encode(lines[i]);
      }
      assert lines[..|lines|] == lines;
      sendBuffer, bSendBuffer := left, bytes;
    }

    static lemma EncodeNoLines(lines: seq<string>)
      ensures Encode(Flatten(lines[..0])) == []
    {
      assert lines[..0] == [];
    }

    static lemma EncodeLine(lines: seq<string>, i: nat)
      requires i < |lines|
      ensures Encode(Flatten(lines[..i + 1])) == Encode(Flatten(lines[..i])) + Encode(lines[i])
    {
      CutLine(lines[..i], lines[i]);
      assert lines[..i + 1] == lines[..i] + [lines[i]];
      EncodeAppend(Flatten(lines[..i]), lines[i]);
    }

    /** The byte-buffer bookkeeping for one line cut by `write` and `read`. */
    static lemma CutLine<T>(done: seq<seq<T>>, line: seq<T>)
      ensures Flatten(done + [line]) == Flatten(done) + line
    {
      FlattenAppend(done, [line]);
      assert Flatten([line]) == line + Flatten([]);
    }

    /** `read()`: drains every byte the socket has, then cuts lines at the
        newline byte and decodes each. Reading while disconnected is the
        AssertionError at proxy.py:77; a line that is not UTF-8 raises out
        of `read` (`BadEncoding`), dropping the lines decoded so far and
        leaving the failing line and everything after it buffered. */
    method Read() returns (r: Result<seq<string>, ReadError>)
      modifies this, socket
      ensures old(Valid()) ==> Valid()
      ensures connected == old(connected) && socket == old(socket)
      ensures sendBuffer == old(sendBuffer) && bSendBuffer == old(bSendBuffer)
      ensures !old(connected) ==> r == Failure(NotConnected) && bRecvBuffer == old(bRecvBuffer)
      ensures old(connected) && socket == null ==> r == Failure(NoSocket) && bRecvBuffer == old(bRecvBuffer)
      ensures !old(connected) && socket != null ==> unchanged(socket)
      ensures old(connected) && socket != null ==>
        && socket.inbox == [] && socket.out == old(socket.out)
        && socket.room == old(socket.room) && socket.eof == old(socket.eof)
        && var (lines, left) := Framing.Frame(old(bRecvBuffer) + old(socket.inbox), NEWLINE);
           match DecodeLines(lines)
           case Success(q) => r == Success(q) && bRecvBuffer == left
           case Failure(k) => k < |lines| && r == Failure(BadEncoding) && bRecvBuffer == Flatten(lines[k..]) + left
      ensures old(connected) && socket != null && r.Success? ==>
        && Encode(Flatten(r.value)) + bRecvBuffer == old(bRecvBuffer) + old(socket.inbox)
        && forall i :: 0 <= i < |r.value| ==> |r.value[i]| > 0 && r.value[i][|r.value[i]| - 1] == '\n'
    {
      hide Encode, Flatten, DecodeLines, Framing.Frame;
      if !connected {
        return Failure(NotConnected);
      }
      if socket == null {
        return Failure(NoSocket);
      }
      Drain();
      ghost var all := bRecvBuffer;
      r := CutRecvLines();
      if r.Success? {
        ReadLinesConserve(all);
      }
    }

    /** The receive loop of `read` (proxy.py:80-91): chunks of at most
        RECV_MAX bytes are appended until a short chunk or a would-block,
        which leaves the socket with nothing waiting. */
    method Drain()
      requires socket != null
      modifies this`bRecvBuffer, socket
      ensures bRecvBuffer == old(bRecvBuffer) + old(socket.inbox)
      ensures socket.inbox == [] && socket.out == old(socket.out)
      ensures socket.room == old(socket.room) && socket.eof == old(socket.eof)
    {
      while true
        invariant bRecvBuffer + socket.inbox == old(bRecvBuffer) + old(socket.inbox)
        invariant socket.out == old(socket.out) && socket.room == old(socket.room) && socket.eof == old(socket.eof)
        decreases |socket.inbox|
      {
        ghost var waiting := socket.inbox;
        var data := socket.Read(RECV_MAX);
        if data.None? {
          break;
        }
        bRecvBuffer := bRecvBuffer + data.value;
        assert bRecvBuffer + socket.inbox == old(bRecvBuffer) + old(socket.inbox) by {
          assert waiting == data.value + socket.inbox;
        }
        if |data.value| < RECV_MAX {
          break;
        }
      }
      assert bRecvBuffer + [] == bRecvBuffer;
    }

    /** The framing loop of `read` (proxy.py:106-115): each line `Frame`
        cuts off the byte buffer is decoded before it is removed. */
    method CutRecvLines() returns (r: Result<seq<string>, ReadError>)
      modifies this`bRecvBuffer
      ensures var (lines, left) := Framing.Frame(old(bRecvBuffer), NEWLINE);
        match DecodeLines(lines)
        case Success(q) => r == Success(q) && bRecvBuffer == left
        case Failure(k) => k < |lines| && r == Failure(BadEncoding) && bRecvBuffer == Flatten(lines[k..]) + left
    {
      var lines, left := Framing.CutLines(bRecvBuffer, NEWLINE);
      Framing.FrameConserves(bRecvBuffer, NEWLINE);
      var q: seq<string> := [];
      for i := 0 to |lines|
        invariant DecodeLines(lines[..i]) == Success(q)
      {
        var line := Decode(lines[i]);
        MapAllStep(Decode, lines, i);
        if line.None? {
          bRecvBuffer := Flatten(lines[i..]) + left;
          return Failure(BadEncoding);
        }
        q := q + [line.value];
      }
      assert lines[..|lines|] == lines;
      bRecvBuffer := left;
      return Success(q);
    }

    /** `attach_socket`: the container is connected through `s`. */
    method AttachSocket(s: Socket)
      modifies this
      ensures Valid()
      ensures socket == s && connected
      ensures sendBuffer == old(sendBuffer) && bSendBuffer == old(bSendBuffer) && bRecvBuffer == old(bRecvBuffer)
    {
      socket := s;
      connected := true;
    }

    /** `handle_disconnect`: the socket is dropped; the buffers are kept. */
    method HandleDisconnect()
      modifies this
      ensures Valid()
      ensures socket == null && !connected
      ensures sendBuffer == old(sendBuffer) && bSendBuffer == old(bSendBuffer) && bRecvBuffer == old(bRecvBuffer)
    {
      socket := null;
      connected := false;
    }
  }

  /** How far a fan-out got: to every subscriber, or up to the subscriber at
      `index`, whose disconnected buffer raised on `write`. */
  datatype Delivery = Delivered | RaisedAt(index: nat)

  /** `b` was connected and `data` was appended to what it sends. */
  twostate predicate Received(b: LineBuffer, data: string)
    reads b, b.socket
  {
    && old(b.connected && b.socket != null)
    && b.socket == old(b.socket)
    && b.connected
    && b.Stream() == old(b.Stream()) + Encode(data)
  }

  /** Neither `b` nor its socket changed. */
  twostate predicate Untouched(b: LineBuffer)
    reads b, b.socket
  {
    unchanged(b) && (b.socket != null ==> unchanged(b.socket))
  }

  /** Two buffers that share neither themselves nor a socket. */
  predicate Apart(a: LineBuffer, b: LineBuffer)
    reads a, b
  {
    a != b && (a.socket != null ==> a.socket != b.socket)
  }

  /** Each client in `subs` has a valid buffer of its own and a socket of
      its own. */
  ghost predicate Separate(subs: seq<LocalClient>)
    reads set c | c in subs :: c.conn
  {
    && (forall i :: 0 <= i < |subs| ==> subs[i].conn.Valid())
    && (forall i, j :: 0 <= i < j < |subs| ==> subs[i].conn != subs[j].conn)
    && (forall i, j :: 0 <= i < j < |subs| && subs[i].conn.socket != null ==>
          subs[i].conn.socket != subs[j].conn.socket)
  }

  /** What one fan-out of `data` to `subs` did: the clients before the
      stopping point received it, the client at `r.index` (if any) was
      disconnected, and the clients from the stopping point on were not
      touched. */
  twostate predicate FannedOut(subs: seq<LocalClient>, r: Delivery, data: string)
    reads set c | c in subs :: c.conn, set c | c in subs :: c.conn.socket
  {
    var k := if r.RaisedAt? then r.index else |subs|;
    && k <= |subs|
    && (r.RaisedAt? ==> k < |subs| && !old(subs[k].conn.connected))
    && (forall i :: 0 <= i < k ==> Received(subs[i].conn, data))
    && (forall i :: k <= i < |subs| ==> Untouched(subs[i].conn))
  }

  class RemoteServer {
    const conn: LineBuffer
    var addr: string
    var subscribers: seq<LocalClient>

    ghost predicate Valid()
      reads this, conn
    {
      conn.Valid() && NoDuplicates(subscribers)
    }

    /** Each subscriber has a valid buffer of its own and a socket of its own. */
    ghost predicate SeparateSubscribers()
      reads this, set c | c in subscribers :: c.conn
    {
      Separate(subscribers)
    }

    constructor (address: string)
      ensures Valid() && fresh(conn)
      ensures addr == address && subscribers == []
      ensures !conn.connected && conn.socket == null
      ensures conn.sendBuffer == [] && conn.bSendBuffer == [] && conn.bRecvBuffer == []
    {
      conn := new LineBuffer();
      addr := address;
      subscribers := [];
    }

    /** `subscribe`: appends a client that is not yet subscribed; a second
        subscribe is a no-op. */
    method Subscribe(c: LocalClient)
      requires NoDuplicates(subscribers)
      modifies this`subscribers
      ensures NoDuplicates(subscribers)
      ensures subscribers == if c in old(subscribers) then old(subscribers) else old(subscribers) + [c]
    {
      if c !in subscribers {
        subscribers := subscribers + [c];
      }
    }

    /** `unsubscribe`: removes the first occurrence while there is one, so
        every occurrence goes and the others keep their order. */
    method Unsubscribe(c: LocalClient)
      modifies this`subscribers
      ensures subscribers == Without(old(subscribers), c)
      ensures NoDuplicates(old(subscribers)) ==> NoDuplicates(subscribers)
    {
      while c in subscribers
        invariant Without(subscribers, c) == Without(old(subscribers), c)
        decreases |subscribers|
      {
        WithoutRemoveFirst(subscribers, c);
        subscribers := RemoveFirst(subscribers, c);
      }
      if NoDuplicates(old(subscribers)) {
        WithoutKeepsNoDuplicates(old(subscribers), c);
      }
    }

    /** `handle_data`: writes `data` to each subscriber in list order. A
        disconnected subscriber raises from its `write` and the loop stops
        there: the subscribers before it got the line, the rest did not. */
    method HandleData(data: string) returns (r: Delivery)
      requires SeparateSubscribers()
      modifies set c | c in subscribers :: c.conn
      modifies set c | c in subscribers :: c.conn.socket
      ensures FannedOut(subscribers, r, data)
    {
      hide Encode, Flatten, Framing.Frame, LineBuffer.Stream;
      for i := 0 to |subscribers|
        invariant forall j :: 0 <= j < i ==> Received(subscribers[j].conn, data)
        invariant forall j :: i <= j < |subscribers| ==> Untouched(subscribers[j].conn)
      {
        var sub := subscribers[i];
        assert sub.conn.Valid();
        var ok := sub.conn.Write(Some(data));
        if !ok {
          return RaisedAt(i);
        }
      }
      return Delivered;
    }

    /** `handle_disconnect`: the server's own container disconnects, then
        each subscriber is sent the closed-connection notice by the same
        loop as `handle_data`. The subscriber list is left as it was. */
    method HandleDisconnect() returns (r: Delivery)
      requires SeparateSubscribers()
      requires forall i :: 0 <= i < |subscribers| ==> subscribers[i].conn != conn
      modifies conn
      modifies set c | c in subscribers :: c.conn
      modifies set c | c in subscribers :: c.conn.socket
      ensures !conn.connected && conn.socket == null && conn.Valid()
      ensures conn.sendBuffer == old(conn.sendBuffer) && conn.bSendBuffer == old(conn.bSendBuffer)
      ensures conn.bRecvBuffer == old(conn.bRecvBuffer)
      ensures FannedOut(subscribers, r, CLOSED_NOTICE)
    {
      hide Encode, LineBuffer.Stream;
      conn.HandleDisconnect();
      r := HandleData(CLOSED_NOTICE);
    }
  }

  class LocalClient {
    const conn: LineBuffer
    var subscribedTo: RemoteServer?

    /** A client is created for an accepted socket and starts unsubscribed. */
    constructor (s: Socket)
      ensures fresh(conn) && conn.Valid()
      ensures conn.connected && conn.socket == s
      ensures conn.sendBuffer == [] && conn.bSendBuffer == [] && conn.bRecvBuffer == []
      ensures subscribedTo == null
    {
      conn := new LineBuffer();
      subscribedTo := null;
      new;
      conn.AttachSocket(s);
    }

    /** `handle_data`: a line goes to the subscribed server when there is one
        and it is connected; otherwise the client is told it is not
        connected. */
    method HandleData(data: string) returns (ok: bool)
      requires conn.Valid()
      requires subscribedTo != null ==> subscribedTo.conn.Valid()
      requires subscribedTo != null ==> Apart(conn, subscribedTo.conn)
      modifies conn, conn.socket
      modifies if subscribedTo != null then {subscribedTo.conn} else {}
      modifies if subscribedTo != null then {subscribedTo.conn.socket} else {}
      ensures subscribedTo == old(subscribedTo)
      ensures old(subscribedTo != null && subscribedTo.conn.connected) ==>
        && ok
        && subscribedTo.conn.socket == old(subscribedTo.conn.socket)
        && subscribedTo.conn.Stream() == old(subscribedTo.conn.Stream()) + Encode(data)
        && Untouched(conn)
      ensures !old(subscribedTo != null && subscribedTo.conn.connected) ==>
        && ok == old(conn.connected)
        && conn.socket == old(conn.socket)
        && (ok ==> conn.Stream() == old(conn.Stream()) + Encode(NOT_CONNECTED_REPLY))
        && (subscribedTo != null ==> Untouched(subscribedTo.conn))
      ensures !ok ==> Untouched(conn)
    {
      if subscribedTo != null && subscribedTo.conn.connected {
        ok := subscribedTo.conn.Write(Some(data));
      } else {
        ok := conn.Write(Some(NOT_CONNECTED_REPLY));
      }
    }

    /** `handle_disconnect`: the client's container disconnects and the
        client leaves its server's subscriber list, but keeps its
        `subscribedTo` link. */
    method HandleDisconnect()
      modifies conn
      modifies (if subscribedTo != null then {subscribedTo} else {})`subscribers
      ensures subscribedTo == old(subscribedTo)
      ensures !conn.connected && conn.socket == null && conn.Valid()
      ensures conn.sendBuffer == old(conn.sendBuffer) && conn.bSendBuffer == old(conn.bSendBuffer)
      ensures conn.bRecvBuffer == old(conn.bRecvBuffer)
      ensures subscribedTo != null ==> subscribedTo.subscribers == Without(old(subscribedTo.subscribers), this)
      ensures subscribedTo != null ==> subscribedTo.addr == old(subscribedTo.addr)
    {
      conn.HandleDisconnect();
      if subscribedTo != null {
        subscribedTo.Unsubscribe(this);
      }
    }
  }
}
