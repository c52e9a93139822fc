/** `handle_client`: one sync exchange on an accepted connection. The
    session is a bounded polling machine over the outcomes of successive
    `network_receive` calls; its effect is the trace of network calls it
    makes. Sleeping is replaced by counting polls. */
module Session {
  import opened Bytes
  import opened Wrappers
  import opened Text
  import Network
  import opened SaveReader
  import JsonBuilder
  import JsonResponse

  /** The request wait: 5000 ms in steps of 10 ms. */
  const RequestPolls := 500
  /** The acknowledgement wait: 2000 ms in steps of 10 ms. */
  const AckPolls := 200
  /** `sizeof(recv_buffer) - 1`: room is left for the terminating NUL. */
  const RecvLimit := 1023
  /** `sizeof(json_buffer)`. */
  const JsonBufferSize := Network.MaxMessageSize

  /** The network calls the session makes. */
  datatype NetCall = Recv | Send(payload: string) | CloseClient | Shutdown

  datatype Encoder = ResponseEncoder | ErrorEncoder

  /** What one session did: its calls, the request text it read (if any),
      the encoder it used (if any) and the payload it sent (if any). */
  datatype SessionRun = SessionRun(calls: seq<NetCall>, request: Option<string>, encoder: Option<Encoder>, sent: Option<string>,
                                   requestPolls: nat, ackPolls: nat)

  /** The outcome of poll `k`; polls past the end of the script find no
      data. */
  function PollAt(polls: seq<Network.RecvOutcome>, k: nat): Network.RecvOutcome {
    if k < |polls| then polls[k] else Network.NoData
  }

  /** What `network_receive(recv_buffer, 1023)` can report: data is between
      1 and 1023 octets, and errors are negative. */
  predicate Plausible(polls: seq<Network.RecvOutcome>) {
    forall k :: 0 <= k < |polls| ==>
      (polls[k].Data? ==> 1 <= |polls[k].bytes| <= RecvLimit) &&
      (polls[k].RecvError? ==> polls[k].code < 0)
  }

  function Recvs(n: nat): (r: seq<NetCall>)
    ensures |r| == n && forall k :: 0 <= k < n ==> r[k] == Recv
  {
    seq(n, k requires 0 <= k < n => Recv)
  }

  /** The end of the request wait. */
  datatype Wait = Got(bytes: seq<Byte>, used: nat) | Dropped(used: nat) | TimedOut

  /** The request wait from poll `k`: the first positive read ends it, a
      disconnect or error drops the client, and no data goes on polling. */
  function AwaitRequest(polls: seq<Network.RecvOutcome>, k: nat): (w: Wait)
    requires k <= RequestPolls
    decreases RequestPolls - k
    ensures w.Got? ==> k < w.used <= RequestPolls && PollAt(polls, w.used - 1) == Network.Data(w.bytes)
    ensures w.Dropped? ==> (k < w.used <= RequestPolls &&
      (PollAt(polls, w.used - 1).Disconnected? || PollAt(polls, w.used - 1).RecvError?))
  {
    if k == RequestPolls then TimedOut
    else
      match PollAt(polls, k)
      case Data(bytes) => Got(bytes, k + 1)
      case Disconnected => Dropped(k + 1)
      case RecvError(_) => Dropped(k + 1)
      case NoData => AwaitRequest(polls, k + 1)
  }

  /** The wait stops at the first poll that is not "no data", or times out
      exactly when the first 500 polls all found nothing. */
  lemma {:induction false} AwaitRequestFirst(polls: seq<Network.RecvOutcome>, k: nat)
    requires k <= RequestPolls
    decreases RequestPolls - k
    ensures var w := AwaitRequest(polls, k);
      && (!w.TimedOut? ==> forall j :: k <= j < w.used - 1 ==> PollAt(polls, j).NoData?)
      && (w.TimedOut? <==> forall j :: k <= j < RequestPolls ==> PollAt(polls, j).NoData?)
  {
    if k < RequestPolls {
      AwaitRequestFirst(polls, k + 1);
    }
  }

  /** The acknowledgement wait from poll `k` (counting `n` polls so far):
      only a positive read ends it early. Returns the polls it made. */
  function AwaitAck(polls: seq<Network.RecvOutcome>, k: nat, n: nat): (used: nat)
    requires n <= AckPolls
    decreases AckPolls - n
    ensures k <= used <= k + (AckPolls - n)
  {
    if n == AckPolls then k
    else if PollAt(polls, k).Data? then k + 1
    else AwaitAck(polls, k + 1, n + 1)
  }

  /** The ack wait ends on the first data, or after 200 polls; errors and
      disconnects do not end it. */
  lemma {:induction false} AwaitAckFirstData(polls: seq<Network.RecvOutcome>, k: nat, n: nat)
    requires n <= AckPolls
    decreases AckPolls - n
    ensures var used := AwaitAck(polls, k, n);
      && (forall j :: k <= j < used - 1 ==> !PollAt(polls, j).Data?)
      && (used - k < AckPolls - n ==> used > k && PollAt(polls, used - 1).Data?)
  {
    if n < AckPolls && !PollAt(polls, k).Data? {
      AwaitAckFirstData(polls, k + 1, n + 1);
    }
  }

  /** The request asks for a sync: it mentions both `"action"` and `"sync"`. */
  predicate IsSyncRequest(request: string) {
    Contains(request, "\"action\"") && Contains(request, "\"sync\"")
  }

  /** `json_buffer` after the `memset` and the encoder: the written text
      followed by NULs up to the buffer size. */
  function Padded(text: string, size: nat): (r: string)
    requires |text| <= size
    ensures |r| == size && r[..|text|] == text
    ensures forall k :: |text| <= k < size ==> r[k] == Nul
  {
    text + seq(size - |text|, k requires 0 <= k < size - |text| => Nul)
  }

  /** Which encoder the stored save data selects. */
  function ChooseEncoder(save: SaveData): Encoder {
    if save.errorCode == Success && |save.profiles| > 0 then ResponseEncoder else ErrorEncoder
  }

  /** The encoder's output for the stored save data. */
  function Encode(save: SaveData): (b: JsonBuilder.Built)
    ensures |b.buffer| < JsonBufferSize
  {
    match ChooseEncoder(save)
    case ResponseEncoder => JsonResponse.BuildResponse(save.profiles, JsonBufferSize)
    case ErrorEncoder => JsonResponse.BuildError(save.errorCode, save.errorMsg, JsonBufferSize)
  }

  /** The calls of a session: the request polls, then (if a payload went
      out) the send and the acknowledgement polls, then the close. */
  function Trace(requestPolls: nat, sent: Option<string>, ackPolls: nat): seq<NetCall> {
    Recvs(requestPolls) + (if sent.Some? then [Send(sent.value)] + Recvs(ackPolls) else []) + [CloseClient]
  }

  /** What is sent for an encoder result: `None` when its length is outside
      1..65536, else the first `length` characters of the NUL-padded
      buffer. */
  function PayloadOf(built: JsonBuilder.Built): (p: Option<string>)
    requires |built.buffer| <= JsonBufferSize
  {
    if built.length <= 0 || built.length > JsonBufferSize then None
    else Some(Padded(built.buffer, JsonBufferSize)[..built.length])
  }

  function Payload(save: SaveData): Option<string> {
    PayloadOf(Encode(save))
  }

  /** `handle_client` with the reader's save data and the script of receive
      outcomes. */
  function HandleClient(save: SaveData, polls: seq<Network.RecvOutcome>): (r: SessionRun)
    ensures r.calls == Trace(r.requestPolls, r.sent, r.ackPolls)
    ensures r.requestPolls <= RequestPolls && r.ackPolls <= AckPolls
    ensures r.sent.Some? ==> r.encoder.Some? && r.request.Some?
    ensures r.sent.None? ==> r.ackPolls == 0
    ensures r.encoder.Some? ==> r.encoder == Some(ChooseEncoder(save)) && r.sent == Payload(save)
    ensures r.sent.Some? ==> r.requestPolls + r.ackPolls == AwaitAck(polls, r.requestPolls, 0)
    ensures AwaitRequest(polls, 0).Got? ==> r.request == Some(CString(AwaitRequest(polls, 0).bytes))
    ensures !AwaitRequest(polls, 0).Got? ==> r.request.None?
  {
    match AwaitRequest(polls, 0)
    case TimedOut => SessionRun(Trace(RequestPolls, None, 0), None, None, None, RequestPolls, 0)
    case Dropped(used) => SessionRun(Trace(used, None, 0), None, None, None, used, 0)
    case Got(bytes, used) =>
      var request := CString(bytes);
      if !IsSyncRequest(request) then
        SessionRun(Trace(used, None, 0), Some(request), None, None, used, 0)
      else
        var sent := Payload(save);
        var acks := if sent.Some? then AwaitAck(polls, used, 0) - used else 0;
        SessionRun(Trace(used, sent, acks), Some(request), Some(ChooseEncoder(save)), sent, used, acks)
  }

  /** Number of `CloseClient` calls in a trace. */
  function CloseCount(calls: seq<NetCall>): nat {
    if |calls| == 0 then 0 else (if calls[0].CloseClient? then 1 else 0) + CloseCount(calls[1..])
  }

  lemma {:induction false} CloseCountAppend(a: seq<NetCall>, b: seq<NetCall>)
    ensures CloseCount(a + b) == CloseCount(a) + CloseCount(b)
  {
    if |a| == 0 {
      assert a + b == b;
    } else {
      assert (a + b)[1..] == a[1..] + b;
      CloseCountAppend(a[1..], b);
    }
  }

  lemma {:induction false} RecvsCloseNothing(n: nat)
    ensures CloseCount(Recvs(n)) == 0
  {
    if n > 0 {
      assert Recvs(n)[1..] == Recvs(n - 1);
      RecvsCloseNothing(n - 1);
    }
  }

  /** Every trace closes the client exactly once, as its last call, never
      shuts the server down, and sends at most once, between the two waits. */
  lemma TraceShape(requestPolls: nat, sent: Option<string>, ackPolls: nat)
    ensures var calls := Trace(requestPolls, sent, ackPolls);
      && |calls| > 0 && calls[|calls| - 1] == CloseClient
      && CloseCount(calls) == 1
      && (forall k :: 0 <= k < |calls| ==> !calls[k].Shutdown?)
      && (forall k :: 0 <= k < |calls| ==> (calls[k].Send? <==> sent.Some? && k == requestPolls))
  {
    var middle: seq<NetCall> := if sent.Some? then [Send(sent.value)] + Recvs(ackPolls) else [];
    RecvsCloseNothing(requestPolls);
    CloseCountAppend(Recvs(requestPolls) + middle, [CloseClient]);
    CloseCountAppend(Recvs(requestPolls), middle);
    if sent.Some? {
      RecvsCloseNothing(ackPolls);
      CloseCountAppend([Send(sent.value)], Recvs(ackPolls));
    }
  }

  /** On every path of `handle_client` the client is closed exactly once,
      as the last call, and the server is never shut down. */
  lemma CloseExactlyOnce(save: SaveData, polls: seq<Network.RecvOutcome>)
    ensures var calls := HandleClient(save, polls).calls;
      && |calls| > 0 && calls[|calls| - 1] == CloseClient
      && CloseCount(calls) == 1
      && (forall k :: 0 <= k < |calls| ==> !calls[k].Shutdown?)
  {
    var r := HandleClient(save, polls);
    TraceShape(r.requestPolls, r.sent, r.ackPolls);
  }

  /** The request wait makes at most 500 polls; a disconnect or receive
      error during it closes the client with nothing sent; a wait with no
      data closes it without choosing an encoder. */
  lemma RequestWaitPaths(save: SaveData, polls: seq<Network.RecvOutcome>)
    ensures var r := HandleClient(save, polls); var w := AwaitRequest(polls, 0);
      && (w.Dropped? ==> r.calls == Recvs(w.used) + [CloseClient] && r.sent.None? && r.encoder.None?)
      && (w.TimedOut? ==> r.calls == Recvs(RequestPolls) + [CloseClient] && r.encoder.None?)
      && ((forall j :: 0 <= j < RequestPolls ==> PollAt(polls, j).NoData?) ==> w.TimedOut?)
      && (w.Got? ==> r.requestPolls == w.used && forall j :: 0 <= j < w.used - 1 ==> PollAt(polls, j).NoData?)
  {
    AwaitRequestFirst(polls, 0);
  }

  /** The outcomes the session sees when poll `k` is
      `network_receive(recv_buffer, 1023)` on connection `conns[k]` and
      `net_recv` answers `answers[k]`. */
  function Observed(conns: seq<Network.Conn>, answers: seq<Network.RecvAnswer>): (r: seq<Network.RecvOutcome>)
    requires |conns| == |answers|
    requires forall k :: 0 <= k < |answers| ==> (answers[k].RecvFailed? ==> answers[k].ret < 0)
    ensures |r| == |answers|
    ensures forall k :: 0 <= k < |r| ==> r[k] == Network.Classify(Network.Receive(conns[k], RecvLimit, answers[k]))
  {
    seq(|answers|, k requires 0 <= k < |answers| => Network.Classify(Network.Receive(conns[k], RecvLimit, answers[k])))
  }

  /** Whatever the connection states and the answers of `net_recv`, the
      outcomes of `network_receive(recv_buffer, 1023)` are plausible: data is
      1..1023 octets and errors are negative. */
  lemma ObservedPlausible(conns: seq<Network.Conn>, answers: seq<Network.RecvAnswer>)
    requires |conns| == |answers|
    requires forall k :: 0 <= k < |answers| ==> (answers[k].RecvFailed? ==> answers[k].ret < 0)
    ensures Plausible(Observed(conns, answers))
  {
    var polls := Observed(conns, answers);
    forall k | 0 <= k < |polls|
      ensures polls[k].Data? ==> 1 <= |polls[k].bytes| <= RecvLimit
      ensures polls[k].RecvError? ==> polls[k].code < 0
    {
      Network.ReceiveClassification(conns[k], RecvLimit, answers[k]);
    }
  }

  /** The request read is at most 1023 octets, so the terminating NUL at
      index `recv_len` lies inside the 1024-octet buffer. */
  lemma RequestFitsBuffer(conns: seq<Network.Conn>, answers: seq<Network.RecvAnswer>)
    requires |conns| == |answers|
    requires forall k :: 0 <= k < |answers| ==> (answers[k].RecvFailed? ==> answers[k].ret < 0)
    ensures var w := AwaitRequest(Observed(conns, answers), 0);
      w.Got? ==> 1 <= |w.bytes| < RecvLimit + 1
  {
    var polls := Observed(conns, answers);
    ObservedPlausible(conns, answers);
    var w := AwaitRequest(polls, 0);
    if w.Got? {
      assert w.used - 1 < |polls| && polls[w.used - 1] == Network.Data(w.bytes);
    }
  }

  /** The request is the text read up to its first NUL; something is sent
      only for a sync request, and a request that is not one is answered by
      closing the client with nothing sent. */
  lemma SyncIff(save: SaveData, polls: seq<Network.RecvOutcome>)
    ensures var r := HandleClient(save, polls);
      && (r.sent.Some? ==> r.request.Some? && IsSyncRequest(r.request.value))
      && (r.request.Some? && !IsSyncRequest(r.request.value) ==>
            r.sent.None? && r.calls == Recvs(r.requestPolls) + [CloseClient])
      && (r.encoder.Some? <==> r.request.Some? && IsSyncRequest(r.request.value))
      && (r.request.Some? <==> AwaitRequest(polls, 0).Got?)
      && (r.request.Some? ==> r.request.value == CString(AwaitRequest(polls, 0).bytes))
  {
  }

  /** The full response is used exactly when the save data has no error
      and at least one profile; otherwise the error payload carries the
      stored code and message. */
  lemma EncoderChoice(save: SaveData, polls: seq<Network.RecvOutcome>)
    ensures var r := HandleClient(save, polls);
      r.encoder.Some? ==>
        && (r.encoder.value == ResponseEncoder <==> save.errorCode == 0 && |save.profiles| > 0)
        && (r.encoder.value == ResponseEncoder ==>
              Encode(save) == JsonResponse.BuildResponse(save.profiles, JsonBufferSize))
        && (r.encoder.value == ErrorEncoder ==>
              Encode(save) == JsonResponse.BuildError(save.errorCode, save.errorMsg, JsonBufferSize))
  {
  }

  /** A payload is sent only with a length in 1..65536; it is the
      encoder's text cut to that length, and NULs past the text. */
  lemma PayloadSpec(built: JsonBuilder.Built)
    requires |built.buffer| <= JsonBufferSize
    ensures var p := PayloadOf(built);
      && (p.Some? <==> 0 < built.length <= JsonBufferSize)
      && (p.Some? ==> |p.value| == built.length)
      && (p.Some? && built.length <= |built.buffer| ==> p.value == built.buffer[..built.length])
      && (p.Some? ==> forall k :: |built.buffer| <= k < built.length ==> p.value[k] == Nul)
  {
    if 0 < built.length <= |built.buffer| {
      var padded := Padded(built.buffer, JsonBufferSize);
      assert padded[..built.length] == padded[..|built.buffer|][..built.length];
    }
  }

  /** With a stored code in the range of a C `int` the encoder's length is
      always in 1..65536, so a payload goes out. */
  lemma SyncAlwaysSends(save: SaveData)
    requires IsInt32(save.errorCode)
    ensures Payload(save).Some? && |Payload(save).value| == Encode(save).length
  {
    match ChooseEncoder(save)
    case ResponseEncoder =>
      JsonResponse.ResponseLengthInRange(save.profiles, JsonBufferSize);
    case ErrorEncoder =>
      JsonResponse.ErrorTextBound(save.errorCode, save.errorMsg);
  }

  /** A sync request is answered: the encoder runs, its payload is sent
      exactly once, right after the request polls, and the client is then
      closed. */
  lemma SyncRequestSends(save: SaveData, polls: seq<Network.RecvOutcome>)
    requires IsInt32(save.errorCode)
    requires AwaitRequest(polls, 0).Got? && IsSyncRequest(CString(AwaitRequest(polls, 0).bytes))
    ensures var r := HandleClient(save, polls);
      && r.encoder == Some(ChooseEncoder(save))
      && r.sent.Some? && r.sent == Payload(save)
      && r.requestPolls < |r.calls| && r.calls[r.requestPolls] == Send(r.sent.value)
      && (forall k :: 0 <= k < |r.calls| && k != r.requestPolls ==> !r.calls[k].Send?)
      && r.calls[|r.calls| - 1] == CloseClient
  {
    SyncAlwaysSends(save);
    var r := HandleClient(save, polls);
    TraceShape(r.requestPolls, r.sent, r.ackPolls);
    assert r.calls[r.requestPolls] == Send(r.sent.value);
  }

  /** A bad length from the encoder closes the client without sending. */
  lemma BadLengthCloses(save: SaveData, polls: seq<Network.RecvOutcome>)
    requires Encode(save).length <= 0 || Encode(save).length > JsonBufferSize
    ensures var r := HandleClient(save, polls);
      r.sent.None? && r.calls == Recvs(r.requestPolls) + [CloseClient]
  {
  }

  /** The acknowledgement wait that began at poll `start` and made `acks`
      polls saw no data before its last poll, and ended early only on
      data. */
  predicate AckStopsAtData(polls: seq<Network.RecvOutcome>, start: nat, acks: nat) {
    && (forall j :: start <= j < start + acks - 1 ==> !PollAt(polls, j).Data?)
    && (acks < AckPolls ==> acks > 0 && PollAt(polls, start + acks - 1).Data?)
  }

  lemma AckWaitFrom(polls: seq<Network.RecvOutcome>, start: nat, acks: nat)
    requires start + acks == AwaitAck(polls, start, 0)
    ensures AckStopsAtData(polls, start, acks)
  {
    AwaitAckFirstData(polls, start, 0);
  }

  /** After the send, the acknowledgement wait polls at most 200 times and
      stops at the first data; errors and disconnects do not stop it. */
  lemma AckWait(save: SaveData, polls: seq<Network.RecvOutcome>)
    ensures var r := HandleClient(save, polls);
      r.sent.Some? ==> r.ackPolls <= AckPolls && AckStopsAtData(polls, r.requestPolls, r.ackPolls)
  {
    var r := HandleClient(save, polls);
    if r.sent.Some? {
      AckWaitFrom(polls, r.requestPolls, r.ackPolls);
    }
  }

  /** The payload a sync request receives when the reader found no
      profiles. */
  lemma NoProfilesSession(polls: seq<Network.RecvOutcome>)
    requires AwaitRequest(polls, 0).Got? && IsSyncRequest(CString(AwaitRequest(polls, 0).bytes))
    ensures var save := SaveData([], ErrParse, "No profiles found in save file");
      HandleClient(save, polls).sent ==
        Some("{\"version\":2,\"error\":{\"code\":" + "-4" + ",\"message\":\"" + "No profiles found in save file" + "\"}}")
  {
    JsonResponse.NoProfilesPayload();
    var save := SaveData([], ErrParse, "No profiles found in save file");
    var b := Encode(save);
    assert b.length == |b.buffer|;
    assert Padded(b.buffer, JsonBufferSize)[..b.length] == b.buffer;
  }
}
