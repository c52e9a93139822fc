/** The application's main loop as a state machine. One `Step` is one
    poll of the inner loop of the current state: the buttons newly pressed
    and whatever the network answers are inputs, and the video, console and
    pacing are left out. */
module App {
  import opened Wrappers
  import Network
  import SaveReader
  import Session

  datatype AppState = Init | Menu | Waiting | Syncing | Error | Exit

  /** The buttons pressed since the last scan. */
  datatype Buttons = Buttons(a: bool, b: bool, home: bool)

  /** What the world answers during one poll: the buttons, the socket
      calls of a server start, the accept call, and for a sync the stored
      save data and the receive outcomes the session sees. */
  datatype Poll = Poll(buttons: Buttons, socketAnswer: int, bindAnswer: int, listenAnswer: int,
                       acceptAnswer: int, save: SaveReader.SaveData, recvs: seq<Network.RecvOutcome>)

  datatype Machine = Machine(state: AppState, conn: Network.Conn)

  /** One step: the next machine, the handles closed, and the session run
      if a sync took place. */
  datatype Stepped = Stepped(next: Machine, closed: seq<Network.Closed>, session: Option<Session.SessionRun>)

  /** No server socket, no client. */
  const Idle := Network.Conn(-1, -1, Network.Init)

  /** The state after start-up: ERROR when the systems failed to come up,
      else MENU. */
  function Startup(initCode: int): (m: Machine)
    ensures m.conn == Idle
    ensures m.state == Error <==> initCode < 0
    ensures m.state == Menu <==> initCode >= 0
  {
    Machine(if initCode < 0 then Error else Menu, Idle)
  }

  /** One poll of the main loop. */
  function Step(m: Machine, p: Poll): (r: Stepped)
  {
    match m.state
    case Menu =>
      if p.buttons.a then
        var started := Network.StartServer(m.conn, p.socketAnswer, p.bindAnswer, p.listenAnswer);
        Stepped(Machine(if started.code == 0 then Waiting else Menu, started.conn), started.closed, None)
      else if p.buttons.home then Stepped(m.(state := Exit), [], None)
      else Stepped(m, [], None)
    case Waiting =>
      if p.buttons.b then
        var down := Network.Shutdown(m.conn);
        Stepped(Machine(Menu, down.conn), down.closed, None)
      else if p.buttons.home then Stepped(m.(state := Exit), [], None)
      else
        var accepted := Network.AcceptClient(m.conn, p.acceptAnswer);
        Stepped(Machine(if accepted.code > 0 then Syncing else Waiting, accepted.conn), [], None)
    case Syncing =>
      var run := Session.HandleClient(p.save, p.recvs);
      var closing := Network.CloseClient(m.conn);
      Stepped(Machine(Waiting, closing.conn), closing.closed, Some(run))
    case Error =>
      if p.buttons.home then Stepped(m.(state := Exit), [], None) else Stepped(m, [], None)
    case Init => Stepped(m, [], None)
    case Exit => Stepped(m, [], None)
  }

  /** What each state knows about the connection: in MENU nothing is open,
      in WAITING the server is listening and no client is held, in SYNCING
      both are open. */
  predicate Consistent(m: Machine) {
    && (m.state == Menu ==> m.conn.server < 0 && m.conn.client < 0)
    && (m.state == Waiting ==> m.conn.server >= 0 && m.conn.client < 0)
    && (m.state == Syncing ==> m.conn.server >= 0 && m.conn.client >= 0)
  }

  /** Every step keeps the connection consistent with the state. */
  lemma StepConsistent(m: Machine, p: Poll)
    requires Consistent(m)
    ensures Consistent(Step(m, p).next)
  {
    match m.state
    case Menu =>
      if p.buttons.a {
        Network.StartServerFailureCleanup(m.conn, p.socketAnswer, p.bindAnswer, p.listenAnswer);
      }
    case Waiting =>
      if !p.buttons.b && !p.buttons.home {
        Network.AcceptClassification(m.conn, p.acceptAnswer);
      }
    case _ =>
  }

  /** The main loop over a script of polls: it stops at EXIT, and each
      step's closed handles are collected in order. */
  function Run(m: Machine, polls: seq<Poll>): (r: (Machine, seq<Network.Closed>))
    decreases |polls|
  {
    if m.state == Exit || |polls| == 0 then (m, [])
    else
      var s := Step(m, polls[0]);
      var rest := Run(s.next, polls[1..]);
      (rest.0, s.closed + rest.1)
  }

  /** From start-up on, every state the loop reaches agrees with the
      connection, and once it reaches EXIT it stays there. */
  lemma {:induction false} RunConsistent(m: Machine, polls: seq<Poll>)
    requires Consistent(m)
    decreases |polls|
    ensures Consistent(Run(m, polls).0)
    ensures m.state == Exit ==> Run(m, polls).0 == m
  {
    if m.state != Exit && |polls| > 0 {
      StepConsistent(m, polls[0]);
      RunConsistent(Step(m, polls[0]).next, polls[1..]);
    }
  }

  lemma StartupConsistent(initCode: int)
    ensures Consistent(Startup(initCode))
  {
  }

  /** MENU: A starts the server and moves to WAITING exactly when the start
      succeeds, otherwise stays in MENU; HOME without A leaves the loop;
      nothing else changes anything. */
  lemma MenuTransitions(m: Machine, p: Poll)
    requires m.state == Menu
    ensures var r := Step(m, p);
      && (p.buttons.a ==>
            (r.next.state == Waiting <==> p.socketAnswer >= 0 && p.bindAnswer >= 0 && p.listenAnswer >= 0)
            && (r.next.state == Waiting || r.next.state == Menu))
      && (!p.buttons.a && p.buttons.home ==> r.next == m.(state := Exit))
      && (!p.buttons.a && !p.buttons.home ==> r.next == m && r.closed == [])
      && r.session.None?
  {
  }

  /** WAITING: B shuts the server down and returns to MENU with nothing
      open; otherwise HOME leaves the loop; otherwise a new client moves to
      SYNCING, and no client keeps WAITING. */
  lemma WaitingTransitions(m: Machine, p: Poll)
    requires m.state == Waiting && Consistent(m)
    ensures var r := Step(m, p);
      && (p.buttons.b ==> (r.next == Machine(Menu, Idle) &&
            r.closed == [Network.Closed(m.conn.server)]))
      && (!p.buttons.b && p.buttons.home ==> r.next == m.(state := Exit) && r.closed == [])
      && (!p.buttons.b && !p.buttons.home ==>
            ((r.next.state == Syncing <==> p.acceptAnswer >= 0) &&
            r.next.conn.server == m.conn.server))
      && r.session.None?
  {
    if !p.buttons.b && !p.buttons.home {
      Network.AcceptClassification(m.conn, p.acceptAnswer);
    }
  }

  /** SYNCING: one session runs, closes its client exactly once and never
      shuts the server down; the machine returns to WAITING with the client
      handle closed and the server still listening. */
  lemma SyncingTransition(m: Machine, p: Poll)
    requires m.state == Syncing && Consistent(m)
    ensures var r := Step(m, p);
      && r.next == Machine(Waiting, m.conn.(client := -1, state := Network.Waiting))
      && r.closed == [Network.Closed(m.conn.client)]
      && r.session.Some?
      && Session.CloseCount(r.session.value.calls) == 1
      && (forall k :: 0 <= k < |r.session.value.calls| ==> !r.session.value.calls[k].Shutdown?)
  {
    Session.CloseExactlyOnce(p.save, p.recvs);
  }

  /** ERROR: only HOME leaves, and it leaves the loop. */
  lemma ErrorTransition(m: Machine, p: Poll)
    requires m.state == Error
    ensures Step(m, p).next.state == Exit <==> p.buttons.home
    ensures Step(m, p).next.state != Exit ==> Step(m, p).next == m
  {
  }

  /** After the loop the network is shut down: client first, then server,
      and nothing stays open. */
  function Cleanup(m: Machine): (r: Network.NetResult)
    ensures r.conn == Idle
  {
    Network.Shutdown(m.conn)
  }
}
