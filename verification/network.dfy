/** The connection layer of `network.c`: one listening server socket and at
    most one client socket, with the socket calls (`net_socket`, `net_bind`,
    `net_listen`, `net_accept`, `net_recv`, `net_send`) as oracle answers.
    The model keeps the handles, the connection state and the result codes;
    the printed error text is not kept. */
module Network {
  import opened Bytes

  const Success := 0
  const ErrInit := -1
  const ErrSocket := -2
  const ErrBind := -3
  const ErrListen := -4
  const ErrAccept := -5
  const ErrSend := -6
  const ErrRecv := -7
  const ErrTimeout := -8
  const ErrDisconnected := -9

  const SyncPort := 8888
  const MaxMessageSize := 65536
  /** `network_send` hands the socket at most this many bytes per call. */
  const SendChunkSize := 512

  /** `EAGAIN` and `EWOULDBLOCK` (both 11 in the C library used). */
  const Eagain := 11
  const Ewouldblock := 11

  predicate WouldBlock(ret: int) {
    ret == -Eagain || ret == -Ewouldblock
  }

  datatype NetState = Init | Waiting | Connected | Receiving | Sending | Error

  /** The module's globals: the two handles (negative when absent) and the
      connection state. */
  datatype Conn = Conn(server: int, client: int, state: NetState)

  /** A closed handle, recorded in the order `net_close` is called. */
  datatype Closed = Closed(handle: int)

  /** The effect of a call that returns a code. */
  datatype NetResult = NetResult(conn: Conn, code: int, closed: seq<Closed>)

  // ---------------------------------------------------------------------
  // Server start-up

  /** `network_start_server`, given what `net_socket`, `net_bind` and
      `net_listen` answer. A failure after the socket exists closes it and
      forgets the handle; a failure to create it keeps the negative value. */
  function StartServer(c: Conn, socketAnswer: int, bindAnswer: int, listenAnswer: int): (r: NetResult)
    ensures r.code in {Success, ErrSocket, ErrBind, ErrListen}
    ensures r.code == Success <==> socketAnswer >= 0 && bindAnswer >= 0 && listenAnswer >= 0
    ensures r.code == Success ==> r.conn == c.(server := socketAnswer, state := Waiting) && r.closed == []
    ensures r.code == ErrSocket ==> r.conn == c.(server := socketAnswer, state := Error) && r.closed == []
    ensures r.code in {ErrBind, ErrListen} ==>
      r.conn == c.(server := -1, state := Error) && r.closed == [Closed(socketAnswer)]
    ensures r.conn.client == c.client
  {
    if socketAnswer < 0 then NetResult(c.(server := socketAnswer, state := Error), ErrSocket, [])
    else if bindAnswer < 0 then NetResult(c.(server := -1, state := Error), ErrBind, [Closed(socketAnswer)])
    else if listenAnswer < 0 then NetResult(c.(server := -1, state := Error), ErrListen, [Closed(socketAnswer)])
    else NetResult(c.(server := socketAnswer, state := Waiting), Success, [])
  }

  /** A failed start leaves no usable server handle, and only a failure
      after the socket exists closes anything. */
  lemma StartServerFailureCleanup(c: Conn, socketAnswer: int, bindAnswer: int, listenAnswer: int)
    ensures var r := StartServer(c, socketAnswer, bindAnswer, listenAnswer);
      r.code != Success ==>
        (r.conn.server < 0 && r.conn.state == Error && (|r.closed| == 1 <==> socketAnswer >= 0))
  {
  }

  // ---------------------------------------------------------------------
  // Accepting a client

  /** The result of `network_accept_client`; `called` tells whether
      `net_accept` was asked. */
  datatype Accepted = Accepted(conn: Conn, code: int, called: bool)

  function AcceptClient(c: Conn, acceptAnswer: int): (r: Accepted)
  {
    if c.server < 0 then Accepted(c, ErrSocket, false)
    else if c.client >= 0 then Accepted(c, 1, false)
    else if acceptAnswer < 0 then
      Accepted(c.(client := acceptAnswer), if WouldBlock(acceptAnswer) then 0 else ErrAccept, true)
    else Accepted(c.(client := acceptAnswer, state := Connected), 1, true)
  }

  /** Accept classification: no server gives -2, an existing client gives 1
      without asking again, a pending-nothing answer 0, another failure -5,
      and a new client 1 with state CONNECTED. The server handle never
      changes, and the state changes only on a new client. */
  lemma AcceptClassification(c: Conn, acceptAnswer: int)
    ensures var r := AcceptClient(c, acceptAnswer);
      && r.conn.server == c.server
      && (c.server < 0 ==> r.code == ErrSocket && !r.called && r.conn == c)
      && (c.server >= 0 && c.client >= 0 ==> r.code == 1 && !r.called && r.conn == c)
      && (c.server >= 0 && c.client < 0 ==>
            && r.called && r.conn.client == acceptAnswer
            && (acceptAnswer >= 0 ==> r.code == 1 && r.conn.state == Connected)
            && (WouldBlock(acceptAnswer) ==> r.code == 0 && r.conn.state == c.state)
            && (acceptAnswer < 0 && !WouldBlock(acceptAnswer) ==> r.code == ErrAccept && r.conn.state == c.state))
      && (r.code == 1 <==> r.conn.client >= 0 && c.server >= 0)
  {
  }

  // ---------------------------------------------------------------------
  // Receiving

  /** What `net_recv` answers: the bytes waiting on the socket (none when
      the peer has closed), or a failure. */
  datatype RecvAnswer = Pending(data: seq<Byte>) | RecvFailed(ret: int)

  /** The result of `network_receive(buffer, maxLen)`: the code and the
      bytes placed in the buffer. */
  datatype Received = Received(conn: Conn, code: int, bytes: seq<Byte>)

  function Receive(c: Conn, maxLen: nat, answer: RecvAnswer): (r: Received)
    requires answer.RecvFailed? ==> answer.ret < 0
    ensures |r.bytes| <= maxLen && r.conn.server == c.server && r.conn.client == c.client
  {
    if c.client < 0 then Received(c, ErrDisconnected, [])
    else
      match answer
      case Pending(data) =>
        var n := if |data| < maxLen then |data| else maxLen;
        if n == 0 then Received(c.(state := Receiving), ErrDisconnected, [])
        else Received(c.(state := Connected), n, data[..n])
      case RecvFailed(ret) =>
        if WouldBlock(ret) then Received(c.(state := Connected), 0, [])
        else Received(c.(state := Receiving), ErrRecv, [])
  }

  /** How the session sees one poll. */
  datatype RecvOutcome = Data(bytes: seq<Byte>) | NoData | Disconnected | RecvError(code: int)

  /** The session's reading of a receive code. */
  function Classify(r: Received): RecvOutcome {
    if r.code > 0 then Data(r.bytes)
    else if r.code == 0 then NoData
    else if r.code == ErrDisconnected then Disconnected
    else RecvError(r.code)
  }

  /** Receive classification: no client or a closed peer gives -9, nothing
      pending 0, another failure -7, and data its byte count (at most
      `maxLen`) with those bytes. */
  lemma ReceiveClassification(c: Conn, maxLen: nat, answer: RecvAnswer)
    requires answer.RecvFailed? ==> answer.ret < 0
    ensures var r := Receive(c, maxLen, answer);
      && (c.client < 0 ==> r.code == ErrDisconnected && r.conn == c)
      && (c.client >= 0 ==>
            && (answer.Pending? && (|answer.data| == 0 || maxLen == 0) ==> r.code == ErrDisconnected && r.conn.state == Receiving)
            && (answer.Pending? && |answer.data| > 0 && maxLen > 0 ==>
                  0 < r.code <= maxLen && r.bytes == answer.data[..r.code] && r.conn.state == Connected)
            && (answer.RecvFailed? && WouldBlock(answer.ret) ==> r.code == 0 && r.conn.state == Connected)
            && (answer.RecvFailed? && !WouldBlock(answer.ret) ==> r.code == ErrRecv && r.conn.state == Receiving))
      && (Classify(r).Data? <==> r.code > 0)
      && (Classify(r).Data? ==> |Classify(r).bytes| == r.code)
  {
  }

  // ---------------------------------------------------------------------
  // Sending

  /** One `net_send` call: the offset it starts at and the bytes offered. */
  datatype Chunk = Chunk(offset: nat, bytes: string)

  /** The end of the send loop. `Stalled`: the oracle answers ran out while
      the loop would still go on (the C loop would keep calling). */
  datatype SendRun = Done(total: int, chunks: seq<Chunk>) | SendFailed(ret: int, chunks: seq<Chunk>) | Stalled(total: int, chunks: seq<Chunk>)

  function Min(a: int, b: int): int {
    if a < b then a else b
  }

  /** What a `net_send` answer adds to `total_sent`. */
  function Progress(ret: int): nat {
    if ret < 0 then 0 else ret
  }

  /** The send loop from `total` bytes sent, with the remaining `net_send`
      answers; `used` answers were consumed before. */
  function SendFrom(data: string, total: nat, answers: seq<int>, used: nat): (r: SendRun)
    requires used <= |answers|
    decreases |answers| - used
  {
    if total >= |data| then Done(total, [])
    else if used == |answers| then Stalled(total, [])
    else
      var chunk := Chunk(total, data[total..total + Min(SendChunkSize, |data| - total)]);
      var ret := answers[used];
      if ret < 0 && WouldBlock(ret) then Prepend(chunk, SendFrom(data, total, answers, used + 1))
      else if ret < 0 then SendFailed(ret, [chunk])
      else Prepend(chunk, SendFrom(data, total + ret, answers, used + 1))
  }

  function Prepend(c: Chunk, r: SendRun): SendRun {
    match r
    case Done(t, cs) => Done(t, [c] + cs)
    case SendFailed(e, cs) => SendFailed(e, [c] + cs)
    case Stalled(t, cs) => Stalled(t, [c] + cs)
  }

  lemma PrependChunks(c: Chunk, r: SendRun)
    ensures Prepend(c, r).chunks == [c] + r.chunks
  {
  }

  /** The chunk a call makes at offset `off`: the next
      `min(512, len - off)` bytes. */
  predicate ChunkAt(data: string, c: Chunk) {
    c.offset < |data| && c.bytes == data[c.offset..c.offset + Min(SendChunkSize, |data| - c.offset)]
  }

  /** Each call is offered the next `min(512, len - total_sent)` bytes at
      offset `total_sent`: the first chunk starts at the current total, and
      each next one starts where the previous answer's progress left off,
      so the chunks are contiguous and in order. */
  lemma {:induction false} SendChunksContiguous(data: string, total: nat, answers: seq<int>, used: nat)
    requires used <= |answers|
    decreases |answers| - used
    ensures var cs := SendFrom(data, total, answers, used).chunks;
      && |cs| <= |answers| - used
      && (|cs| > 0 ==> cs[0].offset == total)
      && (forall k :: 0 <= k < |cs| ==> ChunkAt(data, cs[k]))
      && (forall k :: 0 <= k < |cs| - 1 ==> cs[k + 1].offset == cs[k].offset + Progress(answers[used + k]))
  {
    if total < |data| && used < |answers| {
      var ret := answers[used];
      var c0 := Chunk(total, data[total..total + Min(SendChunkSize, |data| - total)]);
      assert ChunkAt(data, c0);
      if ret >= 0 || WouldBlock(ret) {
        var next := total + Progress(ret);
        SendChunksContiguous(data, next, answers, used + 1);
        var r := SendFrom(data, next, answers, used + 1);
        var rest := r.chunks;
        assert SendFrom(data, total, answers, used) == Prepend(c0, r);
        PrependChunks(c0, r);
        var cs := SendFrom(data, total, answers, used).chunks;
        assert cs == [c0] + rest;
        forall k | 0 <= k < |cs| - 1
          ensures cs[k + 1].offset == cs[k].offset + Progress(answers[used + k])
        {
          if k > 0 {
            assert cs[k] == rest[k - 1] && cs[k + 1] == rest[k];
            assert used + k == (used + 1) + (k - 1);
          }
        }
      }
    }
  }

  /** An answer is well behaved for a call offered `toSend` bytes when it
      would-blocks, fails, or accepts between 1 and `toSend` bytes. */
  predicate WellBehaved(ret: int, toSend: int) {
    ret < 0 || 1 <= ret <= toSend
  }

  /** Along the run from `total`, every accepting answer stays within what
      its call was offered. */
  predicate WellBehavedFrom(data: string, total: nat, answers: seq<int>, used: nat)
    requires used <= |answers|
    decreases |answers| - used
  {
    total >= |data| || used == |answers| ||
    (var ret := answers[used];
     WellBehaved(ret, Min(SendChunkSize, |data| - total)) &&
     ((ret < 0 && !WouldBlock(ret)) ||
      WellBehavedFrom(data, total + Progress(ret), answers, used + 1)))
  }

  /** `network_send(data, len)`: the state after the call, the returned
      code (0 stands in while `Stalled`), and the run of the loop. */
  datatype Sent = Sent(conn: Conn, code: int, run: SendRun)

  function Send(c: Conn, data: string, answers: seq<int>): (r: Sent)
    ensures r.conn.server == c.server && r.conn.client == c.client
  {
    if c.client < 0 then Sent(c, ErrDisconnected, Done(0, []))
    else
      var run := SendFrom(data, 0, answers, 0);
      match run
      case Done(total, _) => Sent(c.(state := Connected), total, run)
      case SendFailed(_, _) => Sent(c.(state := Error), ErrSend, run)
      case Stalled(_, _) => Sent(c.(state := Sending), 0, run)
  }

  /** Send outcomes: without a client -9 and nothing offered; a hard failure
      -6 with state ERROR; a finished loop returns the bytes sent with state
      CONNECTED. */
  lemma SendOutcomes(c: Conn, data: string, answers: seq<int>)
    ensures var r := Send(c, data, answers);
      && (c.client < 0 ==> r.code == ErrDisconnected && r.run.chunks == [] && r.conn == c)
      && (c.client >= 0 && r.run.SendFailed? ==> r.code == ErrSend && r.conn.state == Error && r.run.ret < 0 && !WouldBlock(r.run.ret))
      && (c.client >= 0 && r.run.Done? ==> r.code == r.run.total && r.conn.state == Connected)
  {
    if c.client >= 0 {
      SendFailedIsHard(data, 0, answers, 0);
    }
  }

  lemma {:induction false} SendFailedIsHard(data: string, total: nat, answers: seq<int>, used: nat)
    requires used <= |answers|
    decreases |answers| - used
    ensures var r := SendFrom(data, total, answers, used);
      r.SendFailed? ==> r.ret < 0 && !WouldBlock(r.ret)
  {
    if total < |data| && used < |answers| {
      SendFailedIsHard(data, total, answers, used + 1);
      SendFailedIsHard(data, total + Progress(answers[used]), answers, used + 1);
    }
  }

  /** With well-behaved answers, a finished send returns exactly `len`. */
  lemma SendReturnsLength(c: Conn, data: string, answers: seq<int>)
    requires c.client >= 0 && WellBehavedFrom(data, 0, answers, 0)
    ensures var r := Send(c, data, answers);
      r.run.Done? ==> r.code == |data| && r.conn.state == Connected
  {
    SendWellBehaved(data, 0, answers, 0);
  }

  lemma {:induction false} SendWellBehaved(data: string, total: nat, answers: seq<int>, used: nat)
    requires used <= |answers| && total <= |data| && WellBehavedFrom(data, total, answers, used)
    decreases |answers| - used
    ensures SendFrom(data, total, answers, used).Done? ==> SendFrom(data, total, answers, used).total == |data|
  {
    if total < |data| && used < |answers| {
      var ret := answers[used];
      if ret >= 0 || WouldBlock(ret) {
        SendWellBehaved(data, total + Progress(ret), answers, used + 1);
      }
    }
  }

  // ---------------------------------------------------------------------
  // Closing

  /** `network_close_client`. The code resets a handle to -1 only when it is
      open (at least 0); a handle that is already negative, such as the -11
      a failed accept stores, keeps its value there. Here any closed handle
      becomes -1. Every later read of a handle is a sign test (the `-EAGAIN`
      comparison in `network_accept` reads the value `net_accept` has just
      returned), so the two cannot be told apart. */
  function CloseClient(c: Conn): (r: NetResult)
  {
    NetResult(c.(client := -1, state := Waiting), 0, if c.client >= 0 then [Closed(c.client)] else [])
  }

  /** Closing the client forgets the client handle, sets WAITING, never
      touches the server, and a second close changes and closes nothing. */
  lemma CloseClientIdempotent(c: Conn)
    ensures var r := CloseClient(c);
      && r.conn.client == -1 && r.conn.state == Waiting && r.conn.server == c.server
      && (|r.closed| == 1 <==> c.client >= 0)
      && CloseClient(r.conn).conn == r.conn && CloseClient(r.conn).closed == []
  {
  }

  /** `network_shutdown`: the client, then the server. As in `CloseClient`,
      a handle that is already negative becomes -1 rather than keeping its
      value, which no sign test can observe. */
  function Shutdown(c: Conn): (r: NetResult)
  {
    var first := CloseClient(c);
    NetResult(Conn(-1, -1, Init), 0, first.closed + (if c.server >= 0 then [Closed(c.server)] else []))
  }

  /** Shutdown closes the client before the server, each only if open, and
      leaves both handles absent with state INIT. */
  lemma ShutdownOrder(c: Conn)
    ensures var r := Shutdown(c);
      && r.conn == Conn(-1, -1, Init)
      && (c.client >= 0 && c.server >= 0 ==> r.closed == [Closed(c.client), Closed(c.server)])
      && (c.client < 0 ==> r.closed == (if c.server >= 0 then [Closed(c.server)] else []))
      && (c.server < 0 ==> r.closed == (if c.client >= 0 then [Closed(c.client)] else []))
  {
  }
}
